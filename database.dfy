/**
 * The database as one mutable object: the `clinics` table, its
 * AUTOINCREMENT counter, the `geocode_cache` table, the requests sent to the
 * geocoding service and the `leads` table. Each method is the source's
 * operation written step by step. The clinic and cache methods tie the new
 * state to the function that specifies it; the constructor and `SubmitLead`
 * state the new tables and counters directly.
 */
module Database {
  import opened Wrappers
  import opened Text
  import opened Schema
  import opened Geocoding
  import opened ClinicTable
  import opened BulkImport
  import opened Leads

  class Database {
    var rows: seq<Clinic>
    var nextId: int
    var cache: map<string, CacheEntry>
    var queries: seq<string>
    var leads: seq<Lead>
    var nextLeadId: int

    /** The directory state the specification functions act on. */
    function State(): Db
      reads this`rows, this`nextId, this`cache, this`queries
    {
      Db(rows, nextId, cache, queries)
    }

    ghost predicate Valid()
      reads this`rows, this`nextId, this`cache, this`queries
    {
      Schema.Valid(State())
    }

    /** Lead ids are positive, strictly increasing in rowid order and below the lead counter. */
    ghost predicate LeadsValid()
      reads this`leads, this`nextLeadId
    {
      && 0 < nextLeadId
      && (forall i :: 0 <= i < |leads| ==> 0 < leads[i].id < nextLeadId)
      && (forall i, j :: 0 <= i < j < |leads| ==> leads[i].id < leads[j].id)
    }

    /** Freshly created tables: empty, both counters at their first id. */
    constructor ()
      ensures Valid() && LeadsValid()
      ensures rows == [] && cache == map[] && queries == [] && leads == []
      ensures nextId == 1 && nextLeadId == 1
    {
      rows, nextId, cache, queries := [], 1, map[], [];
      leads, nextLeadId := [], 1;
    }

    /** `_save_geocode_cache`: INSERT OR REPLACE of one cache entry. */
    method SaveGeocodeCache(address: string, lat: Coord, lon: Coord, now: string)
      modifies this`cache
      ensures State() == SaveCache(old(State()), address, lat, lon, now)
    {
      cache := cache[address := CacheEntry(lat, lon, now)];
    }

    /** `geocode_address` */
    method GeocodeAddress(address: string, resolve: Oracle, now: string) returns (lat: Coord, lon: Coord)
      modifies this`cache, this`queries
      ensures Geocoded(lat, lon, State()) == Geocode(old(State()), address, resolve, now)
    {
      var key := Strip(address);
      if key == [] {
        return None, None;
      }
      if key in cache && Truthy(cache[key].lat) && Truthy(cache[key].lon) {
        return cache[key].lat, cache[key].lon;
      }
      queries := queries + [key];
      match resolve(key)
      case None =>
        SaveGeocodeCache(key, None, None, now);
        lat, lon := None, None;
      case Some((la, lo)) =>
        SaveGeocodeCache(key, Some(la), Some(lo), now);
        lat, lon := Some(la), Some(lo);
    }

    /** The coordinate step of `upsert_clinic`: geocode when a coordinate is falsy, adopt two truthy values. */
    method GeocodeIfMissing(data: ClinicData, geocodeIfMissing: bool, resolve: Oracle, now: string)
      returns (d: ClinicData)
      modifies this`cache, this`queries
      ensures Prepared(d, State()) == PrepareCoordinates(old(State()), data, geocodeIfMissing, resolve, now)
    {
      d := data;
      if geocodeIfMissing && (!Truthy(d.lat) || !Truthy(d.lon)) {
        var lat, lon := GeocodeAddress(d.address, resolve, now);
        if Truthy(lat) && Truthy(lon) {
          d := d.(lat := lat, lon := lon);
        }
      }
    }

    /** `upsert_clinic` */
    method UpsertClinic(cid: Option<int>, data: ClinicData, geocodeIfMissing: bool, resolve: Oracle, now: string)
      returns (id: int)
      requires Valid()
      modifies this`rows, this`nextId, this`cache, this`queries
      ensures Valid()
      ensures Upserted(id, State()) == Upsert(old(State()), cid, data, geocodeIfMissing, resolve, now)
    {
      var d := GeocodeIfMissing(data, geocodeIfMissing, resolve, now);
      match cid
      case None =>
        id := nextId;
        rows := rows + [NewRow(id, d, now)];
        nextId := nextId + 1;
      case Some(c) =>
        rows := UpdateRows(rows, c, d, now);
        id := c;
    }

    /** One parsed entry of `bulk_import`: update the row with its (name, address), else insert. */
    method ImportEntryRow(t: Tally, data: ClinicData, resolve: Oracle, now: string) returns (t': Tally)
      requires Valid()
      modifies this`rows, this`nextId, this`cache, this`queries
      ensures Valid()
      ensures Imported(State(), t') == ImportEntry(old(State()), t, data, resolve, now)
    {
      var existing := FindByNameAddress(rows, data.name, data.address);
      match existing {
        case Some(k) =>
          var _ := UpsertClinic(Some(rows[k].id), data, true, resolve, now);
          t' := t.(updated := t.updated + 1);
        case None =>
          var _ := UpsertClinic(None, data, true, resolve, now);
          t' := t.(created := t.created + 1);
      }
    }

    /** One iteration of the `bulk_import` loop. */
    method ImportOneLine(t: Tally, raw: string, defaultType: string, resolve: Oracle, now: string) returns (t': Tally)
      requires Valid()
      modifies this`rows, this`nextId, this`cache, this`queries
      ensures Valid()
      ensures Imported(State(), t') == ImportLine(old(State()), t, raw, defaultType, resolve, now)
    {
      match ParseLine(raw, defaultType) {
        case Ignored =>
          t' := t;
        case Malformed =>
          t' := t.(skipped := t.skipped + 1);
        case Entry(data) =>
          t' := ImportEntryRow(t, data, resolve, now);
      }
    }

    /** The loop of `bulk_import`: each line in turn, counting into `t`. */
    method ImportLines(lines: seq<string>, defaultType: string, resolve: Oracle, now: string) returns (t: Tally)
      requires Valid()
      modifies this`rows, this`nextId, this`cache, this`queries
      ensures Valid()
      ensures Imported(State(), t) == Import(old(State()), Tally(0, 0, 0), lines, defaultType, resolve, now)
    {
      ghost var goal := Import(State(), Tally(0, 0, 0), lines, defaultType, resolve, now);
      t := Tally(0, 0, 0);
      var i := 0;
      assert lines[0..] == lines;
      while i < |lines|
        invariant 0 <= i <= |lines| && Valid()
        invariant Import(State(), t, lines[i..], defaultType, resolve, now) == goal
      {
        ghost var rest := lines[i..];
        assert rest[0] == lines[i] && rest[1..] == lines[i + 1..];
        ImportUnfold(State(), t, rest, defaultType, resolve, now);
        t := ImportOneLine(t, lines[i], defaultType, resolve, now);
        i := i + 1;
      }
      assert lines[i..] == [];
    }

    /** `bulk_import`, over the input already split into lines. */
    method BulkImport(lines: seq<string>, defaultType: string, resolve: Oracle, now: string)
      returns (created: nat, updated: nat, skipped: nat)
      requires Valid()
      modifies this`rows, this`nextId, this`cache, this`queries
      ensures Valid()
      ensures Imported(State(), Tally(created, updated, skipped)) == Import(old(State()), Tally(0, 0, 0), lines, defaultType, resolve, now)
      ensures created + updated + skipped == CountedLines(lines)
      ensures |rows| == |old(rows)| + created
    {
      ImportTally(State(), Tally(0, 0, 0), lines, defaultType, resolve, now);
      var t := ImportLines(lines, defaultType, resolve, now);
      created, updated, skipped := t.created, t.updated, t.skipped;
    }

    /** The insert loop of `seed_demo_clinics`: one new row per entry, ids from the counter. */
    method InsertAll(ds: seq<ClinicData>, now: string)
      modifies this`rows, this`nextId
      ensures rows == old(rows) + Numbered(old(nextId), ds, now)
      ensures nextId == old(nextId) + |ds|
    {
      for k := 0 to |ds|
        invariant rows == old(rows) + Numbered(old(nextId), ds[..k], now)
        invariant nextId == old(nextId) + k
      {
        rows := rows + [NewRow(nextId, ds[k], now)];
        nextId := nextId + 1;
      }
      assert ds[..|ds|] == ds;
    }

    /** `seed_demo_clinics`: the demo list, only into an empty table. */
    method SeedDemoClinics(now: string)
      requires Valid()
      modifies this`rows, this`nextId
      ensures Valid()
      ensures State() == Seed(old(State()), now)
    {
      if |rows| > 0 {
        return;
      }
      InsertAll(DemoClinics, now);
    }

    /** The lead form: validate, then append one lead row. */
    method SubmitLead(name: string, email: string, phone: string, message: string, now: string)
      returns (r: Result<int, LeadError>)
      requires LeadsValid()
      modifies this`leads, this`nextLeadId
      ensures LeadsValid()
      ensures r.Success? ==> forall i :: 0 <= i < |old(leads)| ==> old(leads)[i].id != r.value
      ensures r.Failure? <==> ValidateLead(name, email, phone, message).Failure?
      ensures r.Failure? ==> leads == old(leads) && nextLeadId == old(nextLeadId)
      ensures r.Success? ==>
        var form := ValidateLead(name, email, phone, message).value;
        && r.value == old(nextLeadId) && nextLeadId == old(nextLeadId) + 1
        && leads == old(leads) + [Lead(r.value, form.name, form.email, form.phone, form.message, now)]
    {
      var v := ValidateLead(name, email, phone, message);
      match v
      case Failure(e) =>
        r := Failure(e);
      case Success(form) =>
        var id := nextLeadId;
        leads := leads + [Lead(id, form.name, form.email, form.phone, form.message, now)];
        nextLeadId := nextLeadId + 1;
        r := Success(id);
    }
  }
}
