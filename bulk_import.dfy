/**
 * `bulk_import`: one clinic per line, `name | address | city | phone |
 * website | kind`, each line deduplicated on its exact (name, address).
 * The input arrives already split into lines.
 */
module BulkImport {
  import opened Wrappers
  import opened Text
  import opened Schema
  import opened Geocoding
  import opened ClinicTable

  /** What one input line amounts to. */
  datatype Line = Ignored | Malformed | Entry(data: ClinicData)

  /** The sixth field's prefix decides the category; anything else is `authorized`. */
  function NormalizeKind(kind: string): (k: string)
    ensures k == Ambassadors || k == Authorized
    ensures k == Ambassadors <==> StartsWith(Lower(kind), "amb")
  {
    if StartsWith(Lower(kind), "amb") then Ambassadors else Authorized
  }

  function StripAll(parts: seq<string>): (r: seq<string>)
    ensures |r| == |parts|
  {
    seq(|parts|, k requires 0 <= k < |parts| => Strip(parts[k]))
  }

  /** The `k`-th field, or "" when the line has fewer fields. */
  function Field(parts: seq<string>, k: nat): string {
    if |parts| > k then parts[k] else ""
  }

  /** A line the counters see: neither blank nor a `#` comment once stripped. */
  predicate Counted(raw: string) {
    var line := Strip(raw);
    line != [] && line[0] != '#'
  }

  /** The kind text a line asks for: its sixth field when present and non-empty, else the default. */
  function RequestedKind(raw: string, defaultType: string): string {
    var parts := Split(Strip(raw), '|');
    if |parts| > 5 && Strip(parts[5]) != [] then Strip(parts[5]) else defaultType
  }

  /**
   * The per-line field extraction and kind normalisation: a line is ignored
   * exactly when it is not counted; an entry has one of the two categories,
   * a stripped name and address, empty notes and no coordinates.
   */
  function ParseLine(raw: string, defaultType: string): (l: Line)
    ensures l.Ignored? <==> !Counted(raw)
    ensures l.Entry? ==>
      && (l.data.kind == Ambassadors || l.data.kind == Authorized)
      && Strip(l.data.name) == l.data.name && Strip(l.data.address) == l.data.address
      && l.data.notes == Some("") && l.data.lat.None? && l.data.lon.None?
  {
    var line := Strip(raw);
    if line == [] || line[0] == '#' then Ignored
    else
      var fields := Split(line, '|');
      var parts := StripAll(fields);
      if |parts| < 2 then Malformed
      else
        StripIdempotent(fields[0]);
        StripIdempotent(fields[1]);
        var kind := if |parts| > 5 && parts[5] != [] then parts[5] else defaultType;
        Entry(ClinicData(NormalizeKind(kind), parts[0], parts[1],
          Some(Field(parts, 2)), Some(Field(parts, 3)), Some(Field(parts, 4)), Some(""), None, None))
  }

  /**
   * Blank and comment lines are ignored; a counted line without `|` is
   * malformed; every other line is an entry whose name and address are its
   * first two stripped fields, whose kind is one of the two categories
   * chosen by the requested kind's `amb` prefix, and which carries no
   * coordinates.
   */
  lemma ParseLineCases(raw: string, defaultType: string)
    ensures ParseLine(raw, defaultType).Ignored? <==> !Counted(raw)
    ensures ParseLine(raw, defaultType).Malformed? <==> Counted(raw) && '|' !in Strip(raw)
    ensures ParseLine(raw, defaultType).Entry? ==>
      var d := ParseLine(raw, defaultType).data;
      var parts := Split(Strip(raw), '|');
      && |parts| >= 2 && d.name == Strip(parts[0]) && d.address == Strip(parts[1])
      && d.city == Some(if |parts| > 2 then Strip(parts[2]) else "")
      && d.phone == Some(if |parts| > 3 then Strip(parts[3]) else "")
      && d.website == Some(if |parts| > 4 then Strip(parts[4]) else "")
      && (d.kind == Ambassadors || d.kind == Authorized)
      && d.kind == NormalizeKind(RequestedKind(raw, defaultType))
      && (d.kind == Ambassadors <==> StartsWith(Lower(RequestedKind(raw, defaultType)), "amb"))
      && d.notes == Some("") && d.lat.None? && d.lon.None?
  {
    SplitSingleIff(Strip(raw), '|');
  }

  /** The three counters `bulk_import` returns. */
  datatype Tally = Tally(created: nat, updated: nat, skipped: nat)

  function Total(t: Tally): nat {
    t.created + t.updated + t.skipped
  }

  datatype Imported = Imported(db: Db, tally: Tally)

  /** An entry updates the first row with its (name, address), or inserts a row when there is none. */
  function ImportEntry(db: Db, t: Tally, data: ClinicData, resolve: Oracle, now: string): (r: Imported)
    // exactly one of created/updated rises: created exactly when the key is new
    ensures r.tally.skipped == t.skipped && Total(r.tally) == Total(t) + 1
    ensures r.tally.created == t.created + 1 <==> FindByNameAddress(db.rows, data.name, data.address).None?
    ensures r.tally == if FindByNameAddress(db.rows, data.name, data.address).None?
      then t.(created := t.created + 1) else t.(updated := t.updated + 1)
    ensures Valid(db) ==> Valid(r.db)
  {
    match FindByNameAddress(db.rows, data.name, data.address)
    case Some(i) => Imported(Upsert(db, Some(db.rows[i].id), data, true, resolve, now).db, t.(updated := t.updated + 1))
    case None => Imported(Upsert(db, None, data, true, resolve, now).db, t.(created := t.created + 1))
  }

  /** One iteration of the import loop. */
  function ImportLine(db: Db, t: Tally, raw: string, defaultType: string, resolve: Oracle, now: string): (r: Imported)
    // a line that is not counted changes nothing; a counted line raises exactly one counter
    ensures !Counted(raw) ==> r == Imported(db, t)
    ensures Counted(raw) ==> Total(r.tally) == Total(t) + 1
    ensures Counted(raw) ==>
      || r.tally == t.(created := t.created + 1)
      || r.tally == t.(updated := t.updated + 1)
      || r.tally == t.(skipped := t.skipped + 1)
    ensures r.tally.created >= t.created && r.tally.updated >= t.updated && r.tally.skipped >= t.skipped
    ensures Valid(db) ==> Valid(r.db)
  {
    match ParseLine(raw, defaultType)
    case Ignored => Imported(db, t)
    case Malformed => Imported(db, t.(skipped := t.skipped + 1))
    case Entry(data) => ImportEntry(db, t, data, resolve, now)
  }

  /** The whole import loop, line by line from the first. */
  function Import(db: Db, t: Tally, lines: seq<string>, defaultType: string, resolve: Oracle, now: string): (r: Imported)
    // the counters grow by exactly the number of counted lines, and the id invariant is kept
    ensures Total(r.tally) == Total(t) + CountedLines(lines)
    ensures Valid(db) ==> Valid(r.db)
    decreases |lines|
  {
    if lines == [] then Imported(db, t)
    else
      var r := ImportLine(db, t, lines[0], defaultType, resolve, now);
      Import(r.db, r.tally, lines[1..], defaultType, resolve, now)
  }

  /** One step of `Import`: the first line, then the rest from the state it leaves. */
  lemma ImportUnfold(db: Db, t: Tally, lines: seq<string>, defaultType: string, resolve: Oracle, now: string)
    requires lines != []
    ensures var step := ImportLine(db, t, lines[0], defaultType, resolve, now);
      Import(db, t, lines, defaultType, resolve, now) == Import(step.db, step.tally, lines[1..], defaultType, resolve, now)
  {
  }

  /** The number of lines the counters see. */
  function CountedLines(lines: seq<string>): nat {
    if lines == [] then 0 else (if Counted(lines[0]) then 1 else 0) + CountedLines(lines[1..])
  }

  /** The number of counted lines without a `|`. */
  function MalformedLines(lines: seq<string>): nat {
    if lines == [] then 0
    else (if Counted(lines[0]) && '|' !in Strip(lines[0]) then 1 else 0) + MalformedLines(lines[1..])
  }

  lemma ValidIdsDistinct(db: Db)
    requires Valid(db)
    ensures DistinctIds(db.rows)
  {
  }

  /**
   * One line: an ignored line changes nothing; every counted line raises
   * exactly one counter; a malformed one leaves the table alone; an entry
   * matching an existing (name, address) updates in place, any other entry
   * adds exactly one row.
   */
  lemma ImportLineStep(db: Db, t: Tally, raw: string, defaultType: string, resolve: Oracle, now: string)
    requires Valid(db)
    ensures var r := ImportLine(db, t, raw, defaultType, resolve, now);
      && Valid(r.db)
      && (!Counted(raw) ==> r == Imported(db, t))
      && (Counted(raw) ==> Total(r.tally) == Total(t) + 1)
      && (Counted(raw) && '|' !in Strip(raw) ==> r.db == db)
      && r.tally.skipped == t.skipped + (if Counted(raw) && '|' !in Strip(raw) then 1 else 0)
      && (r.tally.skipped == t.skipped ==> r.db.nextId == db.nextId + (r.tally.created - t.created))
      && |r.db.rows| == |db.rows| + (r.tally.created - t.created)
      && r.tally.created >= t.created && r.tally.updated >= t.updated && r.tally.skipped >= t.skipped
      && (ParseLine(raw, defaultType).Entry? ==>
            var d := ParseLine(raw, defaultType).data;
            (FindByNameAddress(db.rows, d.name, d.address).Some? <==> r.tally.updated == t.updated + 1))
  {
    ParseLineCases(raw, defaultType);
    var p := ParseLine(raw, defaultType);
    if p.Entry? {
      var d := p.data;
      match FindByNameAddress(db.rows, d.name, d.address)
      case Some(i) =>
        UpsertUpdate(db, db.rows[i].id, d, true, resolve, now);
      case None =>
        UpsertInsert(db, d, true, resolve, now);
    }
  }

  /**
   * The counters: every counted line raises exactly one of them, so their
   * sum grows by the number of counted lines; `skipped` grows by the number
   * of malformed lines; the table grows by exactly `created` rows.
   */
  lemma {:induction false} ImportTally(db: Db, t: Tally, lines: seq<string>, defaultType: string, resolve: Oracle, now: string)
    requires Valid(db)
    ensures var r := Import(db, t, lines, defaultType, resolve, now);
      && Valid(r.db)
      && Total(r.tally) == Total(t) + CountedLines(lines)
      && r.tally.skipped == t.skipped + MalformedLines(lines)
      && r.tally.created >= t.created
      && |r.db.rows| == |db.rows| + (r.tally.created - t.created)
    decreases |lines|
  {
    if lines != [] {
      ImportLineStep(db, t, lines[0], defaultType, resolve, now);
      var r := ImportLine(db, t, lines[0], defaultType, resolve, now);
      ImportTally(r.db, r.tally, lines[1..], defaultType, resolve, now);
      assert Import(db, t, lines, defaultType, resolve, now) == Import(r.db, r.tally, lines[1..], defaultType, resolve, now);
    }
  }

  /** Updating the row found by its (name, address) keeps every row's key, writes `d.kind` to it and leaves the other rows alone. */
  lemma UpdateByKeyKeepsKeys(db: Db, k: int, d: ClinicData, resolve: Oracle, now: string)
    requires Valid(db) && 0 <= k < |db.rows| && HasNameAddress(db.rows[k], d.name, d.address)
    ensures var rows' := Upsert(db, Some(db.rows[k].id), d, true, resolve, now).db.rows;
      && |rows'| == |db.rows|
      && (forall i :: 0 <= i < |db.rows| ==>
            && rows'[i].name == db.rows[i].name && rows'[i].address == db.rows[i].address
            && (rows'[i].kind == db.rows[i].kind || rows'[i].kind == d.kind)
            && (i != k ==> rows'[i] == db.rows[i]))
      && rows'[k].kind == d.kind
  {
    UpsertUpdate(db, db.rows[k].id, d, true, resolve, now);
    ValidIdsDistinct(db);
    var rows' := Upsert(db, Some(db.rows[k].id), d, true, resolve, now).db.rows;
    forall i | 0 <= i < |db.rows|
      ensures rows'[i].name == db.rows[i].name && rows'[i].address == db.rows[i].address
      ensures rows'[i].kind == db.rows[i].kind || rows'[i].kind == d.kind
      ensures i != k ==> rows'[i] == db.rows[i]
    {
      if i != k {
        assert db.rows[i].id != db.rows[k].id;
      }
    }
  }

  /** Updating the row found by its (name, address) keeps both invariants. */
  lemma UpdateByKeyKeepsInvariants(db: Db, k: int, d: ClinicData, resolve: Oracle, now: string)
    requires Valid(db) && 0 <= k < |db.rows| && HasNameAddress(db.rows[k], d.name, d.address)
    requires d.kind == Ambassadors || d.kind == Authorized
    ensures var rows' := Upsert(db, Some(db.rows[k].id), d, true, resolve, now).db.rows;
      && (KindsValid(db.rows) ==> KindsValid(rows'))
      && (NameAddressUnique(db.rows) ==> NameAddressUnique(rows'))
  {
    var rows := db.rows;
    var rows' := Upsert(db, Some(db.rows[k].id), d, true, resolve, now).db.rows;
    UpdateByKeyKeepsKeys(db, k, d, resolve, now);
    if NameAddressUnique(rows) {
      forall i, j | 0 <= i < j < |rows'| ensures rows'[i].name != rows'[j].name || rows'[i].address != rows'[j].address {
        assert rows[i].name != rows[j].name || rows[i].address != rows[j].address;
      }
    }
  }

  /** Inserting a row whose (name, address) is new keeps both invariants. */
  lemma InsertNewKeyKeepsInvariants(db: Db, d: ClinicData, resolve: Oracle, now: string)
    requires Valid(db) && FindByNameAddress(db.rows, d.name, d.address).None?
    requires d.kind == Ambassadors || d.kind == Authorized
    ensures var rows' := Upsert(db, None, d, true, resolve, now).db.rows;
      && (KindsValid(db.rows) ==> KindsValid(rows'))
      && (NameAddressUnique(db.rows) ==> NameAddressUnique(rows'))
  {
    var rows := db.rows;
    var rows' := Upsert(db, None, d, true, resolve, now).db.rows;
    UpsertInsert(db, d, true, resolve, now);
    assert HoldsText(rows'[|rows|], d);
    forall i | 0 <= i < |rows| ensures rows'[i] == rows[i] {
      assert rows'[..|rows|][i] == rows'[i];
    }
    if NameAddressUnique(rows) {
      forall i, j | 0 <= i < j < |rows'| ensures rows'[i].name != rows'[j].name || rows'[i].address != rows'[j].address {
        if j == |rows| {
          assert !HasNameAddress(rows[i], d.name, d.address);
        }
      }
    }
  }

  /** One entry keeps the category invariant and the (name, address) key invariant. */
  lemma ImportEntryKeepsInvariants(db: Db, t: Tally, d: ClinicData, resolve: Oracle, now: string)
    requires Valid(db) && (d.kind == Ambassadors || d.kind == Authorized)
    ensures var r := ImportEntry(db, t, d, resolve, now);
      && (KindsValid(db.rows) ==> KindsValid(r.db.rows))
      && (NameAddressUnique(db.rows) ==> NameAddressUnique(r.db.rows))
  {
    match FindByNameAddress(db.rows, d.name, d.address)
    case Some(k) =>
      UpdateByKeyKeepsInvariants(db, k, d, resolve, now);
    case None =>
      InsertNewKeyKeepsInvariants(db, d, resolve, now);
  }

  /** One line keeps the category invariant and the (name, address) key invariant. */
  lemma ImportLineKeepsInvariants(db: Db, t: Tally, raw: string, defaultType: string, resolve: Oracle, now: string)
    requires Valid(db)
    ensures var r := ImportLine(db, t, raw, defaultType, resolve, now);
      && (KindsValid(db.rows) ==> KindsValid(r.db.rows))
      && (NameAddressUnique(db.rows) ==> NameAddressUnique(r.db.rows))
  {
    ParseLineCases(raw, defaultType);
    var p := ParseLine(raw, defaultType);
    if p.Entry? {
      ImportEntryKeepsInvariants(db, t, p.data, resolve, now);
    }
  }

  /**
   * Importing never writes a kind other than the two categories, and never
   * creates a second row for a (name, address) pair: a table without
   * duplicate keys has none afterwards, whatever the lines repeat.
   */
  lemma {:induction false} ImportKeepsInvariants(db: Db, t: Tally, lines: seq<string>, defaultType: string, resolve: Oracle, now: string)
    requires Valid(db)
    ensures var r := Import(db, t, lines, defaultType, resolve, now);
      && (KindsValid(db.rows) ==> KindsValid(r.db.rows))
      && (NameAddressUnique(db.rows) ==> NameAddressUnique(r.db.rows))
    decreases |lines|
  {
    if lines != [] {
      ImportLineStep(db, t, lines[0], defaultType, resolve, now);
      ImportLineKeepsInvariants(db, t, lines[0], defaultType, resolve, now);
      var r := ImportLine(db, t, lines[0], defaultType, resolve, now);
      ImportKeepsInvariants(r.db, r.tally, lines[1..], defaultType, resolve, now);
    }
  }

  /** After an entry is imported, a row with its (name, address) exists. */
  lemma ImportEntryLeavesKey(db: Db, t: Tally, d: ClinicData, resolve: Oracle, now: string)
    ensures FindByNameAddress(ImportEntry(db, t, d, resolve, now).db.rows, d.name, d.address).Some?
  {
    var rows' := ImportEntry(db, t, d, resolve, now).db.rows;
    match FindByNameAddress(db.rows, d.name, d.address)
    case Some(k) =>
      UpsertUpdate(db, db.rows[k].id, d, true, resolve, now);
      assert HasNameAddress(rows'[k], d.name, d.address);
    case None =>
      assert HasNameAddress(rows'[|db.rows|], d.name, d.address);
  }

  /**
   * What one entry writes. Its address goes through the coordinate step, so
   * the cache and the request log are those the geocoder leaves. When a row
   * has the entry's (name, address), the first such row is overwritten with
   * every column of the entry and the settled coordinates, keeps its
   * `created_at`, and the other rows stay as they were. Otherwise one row
   * with those columns is appended under the counter's id. Either way that
   * row is the one a later lookup by (name, address) finds.
   */
  lemma ImportEntryWrites(db: Db, t: Tally, data: ClinicData, resolve: Oracle, now: string)
    requires Valid(db)
    ensures var r := ImportEntry(db, t, data, resolve, now);
      var p := PrepareCoordinates(db, data, true, resolve, now);
      var found := FindByNameAddress(db.rows, data.name, data.address);
      && r.db.cache == p.db.cache && r.db.queries == p.db.queries
      && (found.Some? ==>
            var k := found.value;
            && |r.db.rows| == |db.rows| && r.db.nextId == db.nextId
            && HoldsText(r.db.rows[k], data)
            && r.db.rows[k].lat == p.data.lat && r.db.rows[k].lon == p.data.lon
            && r.db.rows[k].id == db.rows[k].id
            && r.db.rows[k].createdAt == db.rows[k].createdAt && r.db.rows[k].updatedAt == now
            && (forall i :: 0 <= i < |db.rows| && i != k ==> r.db.rows[i] == db.rows[i])
            && FindByNameAddress(r.db.rows, data.name, data.address) == Some(k))
      && (found.None? ==>
            var n := |db.rows|;
            && |r.db.rows| == n + 1 && r.db.rows[..n] == db.rows
            && HoldsText(r.db.rows[n], data) && r.db.rows[n].id == db.nextId
            && r.db.rows[n].lat == p.data.lat && r.db.rows[n].lon == p.data.lon
            && r.db.rows[n].createdAt == now && r.db.rows[n].updatedAt == now
            && FindByNameAddress(r.db.rows, data.name, data.address) == Some(n))
  {
    var rows' := ImportEntry(db, t, data, resolve, now).db.rows;
    match FindByNameAddress(db.rows, data.name, data.address)
    case Some(k) =>
      UpsertUpdate(db, db.rows[k].id, data, true, resolve, now);
      ValidIdsDistinct(db);
      forall i | 0 <= i < |db.rows| && i != k ensures rows'[i] == db.rows[i] {
        assert db.rows[i].id != db.rows[k].id;
      }
      FindByNameAddressFirst(rows', data.name, data.address, k);
    case None =>
      UpsertInsert(db, data, true, resolve, now);
      var n := |db.rows|;
      forall i | 0 <= i < n ensures !HasNameAddress(rows'[i], data.name, data.address) {
        assert rows'[i] == rows'[..n][i];
      }
      FindByNameAddressFirst(rows', data.name, data.address, n);
  }

  /**
   * After an entry line, the row a lookup by the line's (name, address)
   * finds holds the line's fields, and its kind is `ambassadors` exactly
   * when the requested kind, lowered, starts with "amb".
   */
  lemma ImportLineWrites(db: Db, t: Tally, raw: string, defaultType: string, resolve: Oracle, now: string)
    requires Valid(db)
    ensures ParseLine(raw, defaultType).Entry? ==>
      var d := ParseLine(raw, defaultType).data;
      var rows' := ImportLine(db, t, raw, defaultType, resolve, now).db.rows;
      var found := FindByNameAddress(rows', d.name, d.address);
      && found.Some? && HoldsText(rows'[found.value], d)
      && rows'[found.value].kind == NormalizeKind(RequestedKind(raw, defaultType))
  {
    ParseLineCases(raw, defaultType);
    if ParseLine(raw, defaultType).Entry? {
      ImportEntryWrites(db, t, ParseLine(raw, defaultType).data, resolve, now);
    }
  }

  /**
   * Two lines with the same name and address: the second is an update, so
   * the pair adds at most one row, whatever the other fields say.
   */
  lemma ImportSameKeyTwice(db: Db, t: Tally, first: string, second: string, defaultType: string, resolve: Oracle, now: string)
    requires Valid(db)
    requires ParseLine(first, defaultType).Entry? && ParseLine(second, defaultType).Entry?
    requires ParseLine(first, defaultType).data.name == ParseLine(second, defaultType).data.name
    requires ParseLine(first, defaultType).data.address == ParseLine(second, defaultType).data.address
    ensures var r1 := ImportLine(db, t, first, defaultType, resolve, now);
      var r2 := ImportLine(r1.db, r1.tally, second, defaultType, resolve, now);
      && r2.tally.updated == r1.tally.updated + 1 && r2.tally.created == r1.tally.created
      && |r2.db.rows| == |r1.db.rows| <= |db.rows| + 1
  {
    var d1 := ParseLine(first, defaultType).data;
    ImportLineStep(db, t, first, defaultType, resolve, now);
    var r1 := ImportLine(db, t, first, defaultType, resolve, now);
    ImportEntryLeavesKey(db, t, d1, resolve, now);
    ImportLineStep(r1.db, r1.tally, second, defaultType, resolve, now);
  }
}
