/**
 * The `clinics` table operations: `get_clinic`, the `(name, address)` lookup
 * used by bulk import, `upsert_clinic` and `seed_demo_clinics`, as functions
 * of the database state.
 */
module ClinicTable {
  import opened Wrappers
  import opened Text
  import opened Schema
  import opened Geocoding

  /** `get_clinic`: the row with id `cid`, if any. */
  function GetClinic(rows: seq<Clinic>, cid: int): (r: Option<Clinic>)
    ensures r.Some? ==> r.value in rows && r.value.id == cid
    ensures r.None? <==> forall i :: 0 <= i < |rows| ==> rows[i].id != cid
  {
    if rows == [] then None
    else if rows[0].id == cid then Some(rows[0])
    else GetClinic(rows[1..], cid)
  }

  /** With distinct ids, `get_clinic` finds each row by its own id. */
  lemma {:induction false} GetClinicFindsRow(rows: seq<Clinic>, i: int)
    requires DistinctIds(rows) && 0 <= i < |rows|
    ensures GetClinic(rows, rows[i].id) == Some(rows[i])
  {
    if i > 0 {
      assert rows[0].id != rows[i].id;
      GetClinicFindsRow(rows[1..], i - 1);
    }
  }

  predicate HasNameAddress(row: Clinic, name: string, address: string) {
    row.name == name && row.address == address
  }

  /**
   * `SELECT id FROM clinics WHERE name=? AND address=?` followed by
   * `fetchone()`: the position of the first such row in rowid order.
   */
  function FindByNameAddress(rows: seq<Clinic>, name: string, address: string): (r: Option<nat>)
    ensures r.Some? ==> r.value < |rows| && HasNameAddress(rows[r.value], name, address)
    ensures r.Some? ==> forall i :: 0 <= i < r.value ==> !HasNameAddress(rows[i], name, address)
    ensures r.None? <==> forall i :: 0 <= i < |rows| ==> !HasNameAddress(rows[i], name, address)
  {
    if rows == [] then None
    else if HasNameAddress(rows[0], name, address) then Some(0)
    else
      match FindByNameAddress(rows[1..], name, address)
      case None => None
      case Some(k) => Some(k + 1)
  }

  /** A matching row with no match before it is the one `fetchone()` returns. */
  lemma FindByNameAddressFirst(rows: seq<Clinic>, name: string, address: string, k: int)
    requires 0 <= k < |rows| && HasNameAddress(rows[k], name, address)
    requires forall i :: 0 <= i < k ==> !HasNameAddress(rows[i], name, address)
    ensures FindByNameAddress(rows, name, address) == Some(k)
  {
  }

  /** The row an INSERT writes: every column from `data`, both timestamps `now`. */
  function NewRow(id: int, d: ClinicData, now: string): Clinic {
    Clinic(id, d.kind, d.name, d.address, d.city, d.phone, d.website, d.notes, d.lat, d.lon, now, now)
  }

  /** The row an UPDATE leaves: every column from `data`, id and `created_at` kept. */
  function Overwrite(row: Clinic, d: ClinicData, now: string): Clinic {
    NewRow(row.id, d, now).(createdAt := row.createdAt)
  }

  /** The row holds every non-coordinate column of `data`. */
  predicate HoldsText(row: Clinic, d: ClinicData) {
    && row.kind == d.kind && row.name == d.name && row.address == d.address
    && row.city == d.city && row.phone == d.phone && row.website == d.website && row.notes == d.notes
  }

  /** `UPDATE clinics SET ... WHERE id=cid`. */
  function UpdateRows(rows: seq<Clinic>, cid: int, d: ClinicData, now: string): (rows': seq<Clinic>)
    ensures |rows'| == |rows|
    ensures forall i :: 0 <= i < |rows| && rows[i].id != cid ==> rows'[i] == rows[i]
    ensures forall i :: 0 <= i < |rows| && rows[i].id == cid ==>
      HoldsText(rows'[i], d) && rows'[i].lat == d.lat && rows'[i].lon == d.lon
      && rows'[i].id == cid && rows'[i].createdAt == rows[i].createdAt && rows'[i].updatedAt == now
  {
    seq(|rows|, i requires 0 <= i < |rows| => if rows[i].id == cid then Overwrite(rows[i], d, now) else rows[i])
  }

  datatype Prepared = Prepared(data: ClinicData, db: Db)

  /**
   * The first step of `upsert_clinic`: when asked to and a coordinate is
   * falsy, geocode the address and adopt the answer only if both values are
   * truthy; otherwise `data`'s coordinates stay as given, NULL included.
   */
  function PrepareCoordinates(db: Db, data: ClinicData, geocodeIfMissing: bool, resolve: Oracle, now: string): (p: Prepared)
    // only the coordinates can change, and the clinics table is not touched
    ensures p.data == data.(lat := p.data.lat, lon := p.data.lon)
    ensures p.db.rows == db.rows && p.db.nextId == db.nextId
    // nothing is looked up when not asked to or when both coordinates are truthy
    ensures !geocodeIfMissing || (Truthy(data.lat) && Truthy(data.lon)) ==> p == Prepared(data, db)
    // otherwise the cache and the request log are those of one geocode_address call
    ensures geocodeIfMissing && !(Truthy(data.lat) && Truthy(data.lon)) ==>
      p.db == Geocode(db, data.address, resolve, now).db
    // the coordinates written are data's, or a pair of truthy ones from the geocoder
    ensures (p.data.lat, p.data.lon) == (data.lat, data.lon) || (Truthy(p.data.lat) && Truthy(p.data.lon))
    // after a lookup, the geocoder's pair is adopted exactly when both values are truthy
    ensures geocodeIfMissing && !(Truthy(data.lat) && Truthy(data.lon)) ==>
      var g := Geocode(db, data.address, resolve, now);
      (p.data.lat, p.data.lon) == if Truthy(g.lat) && Truthy(g.lon) then (g.lat, g.lon) else (data.lat, data.lon)
  {
    if geocodeIfMissing && (!Truthy(data.lat) || !Truthy(data.lon)) then
      var g := Geocode(db, data.address, resolve, now);
      if Truthy(g.lat) && Truthy(g.lon) then Prepared(data.(lat := g.lat, lon := g.lon), g.db)
      else Prepared(data, g.db)
    else
      Prepared(data, db)
  }

  datatype Upserted = Upserted(id: int, db: Db)

  /**
   * `upsert_clinic(cid, data, geocode_if_missing)`: `None` inserts a row under
   * the next AUTOINCREMENT id and returns it; `Some(c)` overwrites row `c`
   * (if there is one) and returns `c`.
   */
  function Upsert(db: Db, cid: Option<int>, data: ClinicData, geocodeIfMissing: bool, resolve: Oracle, now: string): (u: Upserted)
    ensures Valid(db) ==> Valid(u.db)
    // an insert returns the counter's id and adds one row; an update returns cid and adds none
    ensures u.id == (if cid.None? then db.nextId else cid.value)
    ensures |u.db.rows| == |db.rows| + (if cid.None? then 1 else 0)
    ensures u.db.cache == PrepareCoordinates(db, data, geocodeIfMissing, resolve, now).db.cache
    ensures u.db.queries == PrepareCoordinates(db, data, geocodeIfMissing, resolve, now).db.queries
  {
    var p := PrepareCoordinates(db, data, geocodeIfMissing, resolve, now);
    match cid
    case None =>
      var rows' := p.db.rows + [NewRow(p.db.nextId, p.data, now)];
      assert Valid(db) ==> TableValid(rows', p.db.nextId + 1) by {
        if Valid(db) {
          assert forall i :: 0 <= i < |p.db.rows| ==> rows'[i] == p.db.rows[i];
        }
      }
      Upserted(p.db.nextId, p.db.(rows := rows', nextId := p.db.nextId + 1))
    case Some(c) =>
      Upserted(c, p.db.(rows := UpdateRows(p.db.rows, c, p.data, now)))
  }

  /**
   * Inserting appends exactly one row, under a fresh id, holding every text
   * column of `data` and the coordinates the coordinate step settled on.
   */
  lemma UpsertInsert(db: Db, data: ClinicData, geocodeIfMissing: bool, resolve: Oracle, now: string)
    requires Valid(db)
    ensures var u := Upsert(db, None, data, geocodeIfMissing, resolve, now);
      var p := PrepareCoordinates(db, data, geocodeIfMissing, resolve, now);
      && u.id == db.nextId
      && (forall i :: 0 <= i < |db.rows| ==> db.rows[i].id != u.id)
      && |u.db.rows| == |db.rows| + 1 && u.db.rows[..|db.rows|] == db.rows
      && var row := u.db.rows[|db.rows|];
         && row.id == u.id && HoldsText(row, data) && row.createdAt == now && row.updatedAt == now
         && row.lat == p.data.lat && row.lon == p.data.lon
  {
  }

  /** Updating returns `cid`, rewrites every column of row `cid` and leaves every other row alone. */
  lemma UpsertUpdate(db: Db, cid: int, data: ClinicData, geocodeIfMissing: bool, resolve: Oracle, now: string)
    ensures var u := Upsert(db, Some(cid), data, geocodeIfMissing, resolve, now);
      var p := PrepareCoordinates(db, data, geocodeIfMissing, resolve, now);
      && u.id == cid && u.db.nextId == db.nextId
      && |u.db.rows| == |db.rows|
      && (forall i :: 0 <= i < |db.rows| && db.rows[i].id != cid ==> u.db.rows[i] == db.rows[i])
      && (forall i :: 0 <= i < |db.rows| && db.rows[i].id == cid ==>
            && u.db.rows[i].id == cid && HoldsText(u.db.rows[i], data)
            && u.db.rows[i].lat == p.data.lat && u.db.rows[i].lon == p.data.lon
            && u.db.rows[i].createdAt == db.rows[i].createdAt && u.db.rows[i].updatedAt == now)
      && (GetClinic(db.rows, cid).None? ==> u.db.rows == db.rows)
  {
    var u := Upsert(db, Some(cid), data, geocodeIfMissing, resolve, now);
    if GetClinic(db.rows, cid).None? {
      assert forall i :: 0 <= i < |db.rows| ==> u.db.rows[i] == db.rows[i];
    }
  }

  /**
   * An upsert can clear coordinates a row already had: when `data` brings no
   * coordinates and the geocoder gives no answer, the row is written with NULL.
   */
  lemma UpsertCanClearCoordinates(db: Db, i: int, data: ClinicData, resolve: Oracle, now: string)
    requires 0 <= i < |db.rows|
    requires data.lat.None? && data.lon.None?
    requires Strip(data.address) != [] && !IsHit(db.cache, Strip(data.address))
    requires resolve(Strip(data.address)).None?
    ensures var u := Upsert(db, Some(db.rows[i].id), data, true, resolve, now);
      u.db.rows[i].lat.None? && u.db.rows[i].lon.None?
  {
    var g := Geocode(db, data.address, resolve, now);
    GeocodeMiss(db, data.address, resolve, now);
    assert g.lat.None?;
  }

  /** The fixed demo list written into an empty table. */
  const DemoClinics: seq<ClinicData> := [
    ClinicData(Ambassadors, "X‑Levage Studio Warszawa", "ul. Marszałkowska 99, 00-693 Warszawa",
      Some("Warszawa"), Some("+48 500 111 222"), Some("https://example.com"), Some(""), Some(52.2297), Some(21.0122)),
    ClinicData(Authorized, "Klinika Estetyczna Kraków", "ul. Floriańska 44, 31-021 Kraków",
      Some("Kraków"), Some("+48 500 222 333"), Some("https://example.com"), Some(""), Some(50.0614), Some(19.9366)),
    ClinicData(Authorized, "Centrum Laserowe Wrocław", "ul. Świdnicka 12, 50-068 Wrocław",
      Some("Wrocław"), Some("+48 500 333 444"), Some("https://example.com"), Some(""), Some(51.1079), Some(17.0385)),
    ClinicData(Ambassadors, "Gabinet Premium Poznań", "ul. Półwiejska 2, 61-888 Poznań",
      Some("Poznań"), Some("+48 500 444 555"), Some("https://example.com"), Some(""), Some(52.4064), Some(16.9252)),
    ClinicData(Authorized, "X‑Levage Gdańsk", "ul. Długa 10, 80-827 Gdańsk",
      Some("Gdańsk"), Some("+48 500 555 666"), Some("https://example.com"), Some(""), Some(54.3520), Some(18.6466)),
    ClinicData(Authorized, "Dermalab Katowice", "ul. Mariacka 26, 40-014 Katowice",
      Some("Katowice"), Some("+48 500 666 777"), Some("https://example.com"), Some(""), Some(50.2649), Some(19.0238)),
    ClinicData(Ambassadors, "Instytut Urody Lublin", "ul. Krakowskie Przedmieście 15, 20-002 Lublin",
      Some("Lublin"), Some("+48 500 777 888"), Some("https://example.com"), Some(""), Some(51.2465), Some(22.5684)),
    ClinicData(Authorized, "Clinic Szczecin", "al. Wyzwolenia 23, 70-531 Szczecin",
      Some("Szczecin"), Some("+48 500 888 999"), Some("https://example.com"), Some(""), Some(53.4285), Some(14.5528))
  ]

  /** The demo rows numbered from `start`, as consecutive INSERTs number them. */
  function Numbered(start: int, ds: seq<ClinicData>, now: string): (rows: seq<Clinic>)
    ensures |rows| == |ds|
    ensures forall i :: 0 <= i < |ds| ==> rows[i] == NewRow(start + i, ds[i], now)
  {
    seq(|ds|, i requires 0 <= i < |ds| => NewRow(start + i, ds[i], now))
  }

  /** `seed_demo_clinics`: insert the demo list when the table is empty, else change nothing. */
  function Seed(db: Db, now: string): (db': Db)
    ensures db'.cache == db.cache && db'.queries == db.queries
    ensures |db.rows| > 0 ==> db' == db
    ensures |db.rows| == 0 ==> db'.rows == Numbered(db.nextId, DemoClinics, now) && db'.nextId == db.nextId + |DemoClinics|
    ensures Valid(db) ==> Valid(db')
  {
    if |db.rows| > 0 then db
    else
      NumberedKeepsValid(db.rows, db.nextId, DemoClinics, now);
      db.(rows := db.rows + Numbered(db.nextId, DemoClinics, now), nextId := db.nextId + |DemoClinics|)
  }

  /** Appending rows numbered from the counter keeps the ids increasing and below the advanced counter. */
  lemma NumberedKeepsValid(rows: seq<Clinic>, start: int, ds: seq<ClinicData>, now: string)
    ensures TableValid(rows, start) ==> TableValid(rows + Numbered(start, ds, now), start + |ds|)
  {
  }

  /** The demo rows are written with every column of the demo list and one of the two categories. */
  lemma SeedWritesDemoList(db: Db, now: string)
    requires |db.rows| == 0
    ensures KindsValid(Seed(db, now).rows)
    ensures |Seed(db, now).rows| == |DemoClinics|
    ensures forall i :: 0 <= i < |DemoClinics| ==>
      var row := Seed(db, now).rows[i];
      && HoldsText(row, DemoClinics[i]) && row.id == db.nextId + i
      && row.lat == DemoClinics[i].lat && row.lon == DemoClinics[i].lon
      && row.createdAt == now && row.updatedAt == now
  {
    var rows := Numbered(db.nextId, DemoClinics, now);
    assert Seed(db, now).rows == rows;
    var kinds := seq(|DemoClinics|, i requires 0 <= i < |DemoClinics| => DemoClinics[i].kind);
    assert kinds == [Ambassadors, Authorized, Authorized, Ambassadors, Authorized, Authorized, Ambassadors, Authorized];
    forall i | 0 <= i < |rows| ensures rows[i].kind == Ambassadors || rows[i].kind == Authorized {
      assert rows[i].kind == kinds[i];
    }
  }

  /** No two entries of the demo list share a name: they differ in first letter or length. */
  lemma DemoNamesDistinct()
    ensures forall i, j :: 0 <= i < j < |DemoClinics| ==> DemoClinics[i].name != DemoClinics[j].name
  {
    var heads := seq(|DemoClinics|, i requires 0 <= i < |DemoClinics| => (DemoClinics[i].name[0], |DemoClinics[i].name|));
    assert heads == [('X', 24), ('K', 25), ('C', 24), ('G', 22), ('X', 15), ('D', 17), ('I', 21), ('C', 15)];
  }

  /** So a freshly seeded table satisfies the (name, address) key invariant bulk import keeps. */
  lemma SeedNameAddressUnique(db: Db, now: string)
    requires |db.rows| == 0
    ensures NameAddressUnique(Seed(db, now).rows)
  {
    var rows := Numbered(db.nextId, DemoClinics, now);
    assert Seed(db, now).rows == rows;
    DemoNamesDistinct();
    forall i, j | 0 <= i < j < |rows| ensures rows[i].name != rows[j].name {
      assert rows[i].name == DemoClinics[i].name && rows[j].name == DemoClinics[j].name;
    }
  }

  /** Seeding twice leaves the table as seeding once. */
  lemma SeedIdempotent(db: Db, now: string, later: string)
    ensures Seed(Seed(db, now), later) == Seed(db, now)
  {
  }
}
