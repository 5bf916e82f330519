/**
 * `geocode_address` and `_save_geocode_cache`: a memo table in front of the
 * external address-to-coordinates service.
 */
module Geocoding {
  import opened Wrappers
  import opened Text
  import opened Schema

  /**
   * The external service, seen from this code: for a query string, the
   * first candidate's coordinates, or `None` for an empty answer or any
   * failure (transport error, HTTP status, JSON or float parsing).
   */
  type Oracle = string -> Option<(real, real)>

  /** The pair `geocode_address` returns and the database after the call. */
  datatype Geocoded = Geocoded(lat: Coord, lon: Coord, db: Db)

  /** The cache lookup counts as a hit only when both stored coordinates are truthy. */
  predicate IsHit(cache: map<string, CacheEntry>, key: string) {
    key in cache && Truthy(cache[key].lat) && Truthy(cache[key].lon)
  }

  /** `_save_geocode_cache`: INSERT OR REPLACE of one entry. */
  function SaveCache(db: Db, address: string, lat: Coord, lon: Coord, now: string): (db': Db)
    ensures db'.rows == db.rows && db'.nextId == db.nextId && db'.queries == db.queries
    ensures address in db'.cache && db'.cache[address] == CacheEntry(lat, lon, now)
    ensures forall k :: k != address ==> (k in db'.cache <==> k in db.cache)
    ensures forall k :: k != address && k in db.cache ==> db'.cache[k] == db.cache[k]
  {
    db.(cache := db.cache[address := CacheEntry(lat, lon, now)])
  }

  /** `geocode_address`: the key is the stripped address, sent to the service as it is. */
  function Geocode(db: Db, address: string, resolve: Oracle, now: string): (g: Geocoded)
    // the clinics table is never touched
    ensures g.db.rows == db.rows && g.db.nextId == db.nextId
    // at most one request, for exactly the stripped address
    ensures g.db.queries == db.queries || g.db.queries == db.queries + [Strip(address)]
    // no cache key other than the stripped address changes
    ensures forall k :: k != Strip(address) ==> (k in g.db.cache <==> k in db.cache)
    ensures forall k :: k != Strip(address) && k in db.cache ==> g.db.cache[k] == db.cache[k]
    // the two coordinates are either both returned or both None
    ensures g.lat.Some? <==> g.lon.Some?
  {
    var key := Strip(address);
    if key == [] then
      Geocoded(None, None, db)
    else if IsHit(db.cache, key) then
      Geocoded(db.cache[key].lat, db.cache[key].lon, db)
    else
      var asked := db.(queries := db.queries + [key]);
      match resolve(key)
      case None => Geocoded(None, None, SaveCache(asked, key, None, None, now))
      case Some((lat, lon)) => Geocoded(Some(lat), Some(lon), SaveCache(asked, key, Some(lat), Some(lon), now))
  }

  /** An address that is blank after stripping returns (None, None) and touches nothing. */
  lemma GeocodeBlank(db: Db, address: string, resolve: Oracle, now: string)
    requires Strip(address) == []
    ensures Geocode(db, address, resolve, now) == Geocoded(None, None, db)
  {
  }

  /**
   * A hit returns the cached pair, sends no request, writes nothing, and so
   * does not depend on what the service would have answered.
   */
  lemma GeocodeHit(db: Db, address: string, resolve: Oracle, other: Oracle, now: string, later: string)
    requires Strip(address) != [] && IsHit(db.cache, Strip(address))
    ensures var g := Geocode(db, address, resolve, now);
      && g == Geocoded(db.cache[Strip(address)].lat, db.cache[Strip(address)].lon, db)
      && g == Geocode(db, address, other, later)
  {
  }

  /**
   * Every miss (a missing entry, or one with a falsy coordinate, including a
   * recorded failure) sends one request and leaves the cache mapping the
   * stripped address to exactly the returned pair.
   */
  lemma GeocodeMiss(db: Db, address: string, resolve: Oracle, now: string)
    requires Strip(address) != [] && !IsHit(db.cache, Strip(address))
    ensures var g := Geocode(db, address, resolve, now);
      && g.db.queries == db.queries + [Strip(address)]
      && g.db.cache == db.cache[Strip(address) := CacheEntry(g.lat, g.lon, now)]
      && (g.lat, g.lon) == (match resolve(Strip(address))
                            case None => (None, None)
                            case Some((lat, lon)) => (Some(lat), Some(lon)))
  {
  }

  /**
   * A lookup whose answer was truthy is memoised: asking again for the same
   * address returns the same pair and sends no second request.
   */
  lemma {:induction false} GeocodeMemoisesSuccess(db: Db, address: string, resolve: Oracle, now: string, later: string)
    requires Strip(address) != []
    requires var g := Geocode(db, address, resolve, now); Truthy(g.lat) && Truthy(g.lon)
    ensures var g := Geocode(db, address, resolve, now);
      var g2 := Geocode(g.db, address, resolve, later);
      g2 == Geocoded(g.lat, g.lon, g.db)
  {
    var key := Strip(address);
    var g := Geocode(db, address, resolve, now);
    if !IsHit(db.cache, key) {
      GeocodeMiss(db, address, resolve, now);
    }
    assert IsHit(g.db.cache, key);
  }

  /**
   * A recorded failure is not honoured: the NULL/NULL entry written by a
   * failed lookup makes the next call for the same address send another request.
   */
  lemma {:induction false} GeocodeRetriesFailure(db: Db, address: string, resolve: Oracle, now: string, later: string)
    requires Strip(address) != [] && !IsHit(db.cache, Strip(address))
    requires resolve(Strip(address)).None?
    ensures var g := Geocode(db, address, resolve, now);
      var g2 := Geocode(g.db, address, resolve, later);
      && g.db.cache[Strip(address)] == CacheEntry(None, None, now)
      && g2.db.queries == db.queries + [Strip(address), Strip(address)]
  {
    GeocodeMiss(db, address, resolve, now);
    var g := Geocode(db, address, resolve, now);
    assert !IsHit(g.db.cache, Strip(address));
    GeocodeMiss(g.db, address, resolve, later);
  }
}
