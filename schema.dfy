/**
 * The rows of the `clinics` and `geocode_cache` tables, the `data` dictionary
 * the directory operations write from, and the database state they act on.
 */
module Schema {
  import opened Wrappers

  /** A REAL column: NULL or a number. Coordinates are never computed with. */
  type Coord = Option<real>

  /** Python truthiness of a coordinate: NULL (None) and 0.0 are falsy. */
  predicate Truthy(c: Coord) {
    c.Some? && c.value != 0.0
  }

  /** The two values of the `kind` column. */
  const Ambassadors: string := "ambassadors"
  const Authorized: string := "authorized"

  /** A row of the `clinics` table; the nullable TEXT columns are `Option`s. */
  datatype Clinic = Clinic(
    id: int,
    kind: string,
    name: string,
    address: string,
    city: Option<string>,
    phone: Option<string>,
    website: Option<string>,
    notes: Option<string>,
    lat: Coord,
    lon: Coord,
    createdAt: string,
    updatedAt: string)

  /**
   * The `data` dictionary handed to `upsert_clinic`, each optional column
   * already read with its `.get(key, "")` default (so `None` only where the
   * caller put `None`).
   */
  datatype ClinicData = ClinicData(
    kind: string,
    name: string,
    address: string,
    city: Option<string>,
    phone: Option<string>,
    website: Option<string>,
    notes: Option<string>,
    lat: Coord,
    lon: Coord)

  /** A row of `geocode_cache` without its key; NULL/NULL records a failed lookup. */
  datatype CacheEntry = CacheEntry(lat: Coord, lon: Coord, updatedAt: string)

  /**
   * The database as the directory code sees it: the `clinics` rows in rowid
   * order, the AUTOINCREMENT counter (the id the next insert receives), the
   * geocode cache keyed by address, and the log of queries sent to the
   * external geocoding service.
   */
  datatype Db = Db(
    rows: seq<Clinic>,
    nextId: int,
    cache: map<string, CacheEntry>,
    queries: seq<string>)

  /** Ids are positive, strictly increasing in rowid order and below the counter. */
  ghost predicate TableValid(rows: seq<Clinic>, nextId: int) {
    && 0 < nextId
    && (forall i :: 0 <= i < |rows| ==> 0 < rows[i].id < nextId)
    && (forall i, j :: 0 <= i < j < |rows| ==> rows[i].id < rows[j].id)
  }

  ghost predicate Valid(db: Db) {
    TableValid(db.rows, db.nextId)
  }

  /** No two rows carry the same id. */
  ghost predicate DistinctIds(rows: seq<Clinic>) {
    forall i, j :: 0 <= i < j < |rows| ==> rows[i].id != rows[j].id
  }

  /** Every row's kind is one of the two categories. */
  ghost predicate KindsValid(rows: seq<Clinic>) {
    forall i :: 0 <= i < |rows| ==> rows[i].kind == Ambassadors || rows[i].kind == Authorized
  }

  /** No two rows share the (name, address) pair that bulk import deduplicates on. */
  ghost predicate NameAddressUnique(rows: seq<Clinic>) {
    forall i, j :: 0 <= i < j < |rows| ==> rows[i].name != rows[j].name || rows[i].address != rows[j].address
  }
}
