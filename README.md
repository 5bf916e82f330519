# Clinic directory bookkeeping, modelled in Dafny

This project models the data logic of a small clinic-directory web site
(`app.py`): a `clinics` table of aesthetic clinics in two categories
(`ambassadors` and `authorized`), a `geocode_cache` table that memoises an
external address-to-coordinates service, and a `leads` table filled by a
contact form. The model covers:

- `bulk_import`: the line parser, kind normalisation and per-line
  deduplication on `(name, address)`, with its three counters;
- `upsert_clinic`: the optional geocoding step, then the INSERT or UPDATE;
- `search_clinics`: the kind and text filter, the `ORDER BY city IS NULL,
  city, name` ordering and the `LIMIT`;
- `geocode_address` / `_save_geocode_cache`: the memo table keyed by the
  stripped address;
- `seed_demo_clinics`: the eight demo rows, written only into an empty table;
- `get_clinic` and the validation branch of the lead form.

Layout:

- `wrappers.dfy`: `Option` (SQL NULL / Python `None`) and `Result`.
- `text.dfy`: Python's `str.strip()` and `str.split("|")`,
  `lower().startswith(...)`, SQLite's ASCII case-insensitive `LIKE '%q%'` and
  SQLite's BINARY text order.
- `schema.dfy`: rows, the `data` dictionary, cache entries, the database state
  `Db` and its invariants. The `clinics` table is a sequence in rowid order.
  Ids are positive and strictly increasing, and below the AUTOINCREMENT counter
  `nextId`. SQLite promises no row order for a query without ORDER BY. The
  model assumes a scan in rowid order, so `fetchone()` returns the first match
  in that sequence.
  The cache is a map, so there is at most one entry per key.
- `geocoding.dfy`, `clinic_table.dfy`, `bulk_import.dfy`, `search.dfy`,
  `leads.dfy`: each operation as a function of the database state, with lemmas.
- `database.dfy`: the class `Database`, whose fields are the tables. Its
  methods perform the operations step by step, as the source does. For the
  clinic and cache operations, each method's postcondition equates the new
  state with the function above. The constructor and `SubmitLead` state the
  new tables and counters directly.

The geocoding service is a parameter `resolve: string -> Option<(real, real)>`.
It answers `None` for an empty result and for every failure: transport errors,
HTTP errors, and JSON or number parsing. The state also records the query
strings sent to the service, in order (`queries`). This log shows which calls
make a request and what text they send. Timestamps (`datetime.utcnow()`) are
passed in as the opaque string `now`.

The code does the following, which a reader may not expect:

- seeding is skipped whenever the table is non-empty; there is no
  reconciliation against a reference list (`app.py:534`);
- the query sent to the geocoder is the stripped address as it is, with no
  country suffix (`app.py:649`);
- a cached failure (NULL coordinates) is not honoured: the next lookup of the
  same address asks the service again (`app.py:641`);
- bulk import deduplicates on the exact `(name, address)` pair, not on
  `(name, address, city, phone)` (`app.py:699`);
- an update with no coordinates and no geocoding answer writes NULL over
  coordinates the row already had (`app.py:587-614`).

## Model

| member | source | states |
|---|---|---|
| Text.StripIsTrimmedSlice | app.py:683 | `strip()` returns a slice of its input. Everything outside the slice is whitespace, and the slice neither starts nor ends with whitespace. |
| Text.Strip | app.py:683 | `str.strip()`: the result is no longer than the input, and it is empty or starts and ends with a non-whitespace character. |
| Text.Lower | app.py:573-576 | SQLite's case folding for `LIKE` keeps the length. It turns each ASCII capital `A`–`Z` into its small letter and changes nothing else. |
| Text.StripTrimmedAt | app.py:683 | The stripped line is the slice that starts just after the leading whitespace. Only whitespace follows it. |
| Text.StripIdempotent | app.py:683-686 | Stripping an already stripped string changes nothing. |
| Text.ContainsIgnoreCase | app.py:573-576 | `x LIKE '%q%'` holds exactly when some slice of `x` equals `q` once ASCII letters are folded, in both directions. |
| Text.Contains | app.py:573-576 | The substring search holds exactly when `p` occurs in `s` at some index, in both directions. |
| Text.LexLeReflexive | app.py:579 | SQLite's BINARY text order is reflexive. |
| Text.LexLeTotal | app.py:579 | Any two texts are comparable in BINARY order. |
| Text.LexLeAntisymmetric | app.py:579 | Texts ordered both ways are equal. |
| Text.LexLeTransitive | app.py:579 | BINARY order is transitive. |
| Text.Split | app.py:686 | `line.split(...)` on the pipe character yields at least one field, and no field contains the separator. |
| Text.JoinSplit | app.py:686 | Splitting loses nothing: joining the fields with the pipe gives the line back. |
| Text.SplitSingleIff | app.py:686-688 | A line splits into fewer than two fields exactly when it has no pipe. |
| Geocoding.SaveCache | app.py:666-672 | INSERT OR REPLACE sets exactly one cache key to the given pair and time. Every other key, and the clinics table, is unchanged. |
| Geocoding.Geocode | app.py:634-664 | A lookup never touches the clinics table. It sends at most one request, for exactly the stripped address. It changes no cache key but that one, and returns both coordinates or neither. |
| Geocoding.GeocodeBlank | app.py:635-637 | An address that is blank after stripping returns `(None, None)` and changes nothing. |
| Geocoding.GeocodeHit | app.py:640-642 | A hit (both cached coordinates truthy) returns the cached pair. It sends no request and writes nothing, so the result does not depend on the service or the time. |
| Geocoding.GeocodeMiss | app.py:643-664 | Every miss sends one request for the stripped address. The cache then maps that address to exactly the returned pair: the answer, or `(None, None)` on failure. |
| Geocoding.GeocodeMemoisesSuccess | app.py:640-661 | After a truthy answer, a second lookup of the same address returns the same pair and sends no request. |
| Geocoding.GeocodeRetriesFailure | app.py:640-664 | A failed lookup stores NULL/NULL. The next lookup of the same address sends a second request. |
| ClinicTable.GetClinic | app.py:560-563 | `get_clinic(cid)` returns a row of the table with id `cid`. It returns `None` exactly when no row has that id. |
| ClinicTable.GetClinicFindsRow | app.py:560-563 | With distinct ids, looking up a row's id returns that row. |
| ClinicTable.FindByNameAddressFirst | app.py:699 | A matching row with no match before it is the row the lookup returns. |
| ClinicTable.FindByNameAddress | app.py:699 | The lookup returns the first row, in rowid order, with exactly that name and address. It returns `None` exactly when no row has them. |
| ClinicTable.UpdateRows | app.py:603-613 | The UPDATE rewrites every column of row `cid` from `data`. It keeps the row's id and `created_at` and sets `updated_at`. No other row changes. |
| ClinicTable.PrepareCoordinates | app.py:587-590 | Geocoding happens only when asked and a coordinate is falsy. After a lookup, the geocoder's pair replaces `data`'s coordinates exactly when both values are truthy. Otherwise `data`'s coordinates, NULL included, are kept. Nothing else in `data` changes, and the clinics table is not touched. |
| ClinicTable.Upsert | app.py:584-614 | An insert returns the counter's id and adds one row. An update returns `cid` and adds none. The id invariant is kept. The geocode cache and request log end up as after the coordinate step. |
| ClinicTable.UpsertInsert | app.py:591-602 | `cid = None` appends exactly one row with a fresh id and returns that id. The row holds every text column of `data`, the coordinates settled by the coordinate step, and `now` as both timestamps. |
| ClinicTable.UpsertUpdate | app.py:603-614 | An integer `cid` returns `cid` and leaves the counter and every other row alone. Row `cid` gets every text column from `data` and the coordinates settled by the coordinate step. It keeps `created_at` and gets a new `updated_at`. Without such a row the table is unchanged. |
| ClinicTable.UpsertCanClearCoordinates | app.py:587-614 | With no coordinates in `data` and no answer from the geocoder, an update writes NULL over the row's coordinates. |
| ClinicTable.Seed | app.py:529-554 | Seeding leaves a non-empty table unchanged. An empty table gets exactly the eight demo rows, numbered from the counter with every column of the demo list and `now` as timestamps. The counter advances by eight. The cache is untouched and the id invariant holds. |
| ClinicTable.NumberedKeepsValid | app.py:548-553 | Rows inserted one by one under consecutive counter values keep the ids increasing and below the counter. |
| ClinicTable.SeedWritesDemoList | app.py:538-553 | Each seeded row carries the text columns and coordinates of its demo entry, the next id in order, and `now` as both timestamps. Every seeded kind is one of the two categories. |
| ClinicTable.DemoNamesDistinct | app.py:538-547 | The eight demo names are pairwise distinct. |
| ClinicTable.SeedNameAddressUnique | app.py:538-553 | The seeded table has no two rows with the same (name, address). |
| ClinicTable.SeedIdempotent | app.py:534-535 | Running the seed twice gives the same table as running it once. |
| BulkImport.NormalizeKind | app.py:694-695 | The kind written is always one of the two categories. It is `ambassadors` exactly when the lowercased kind text starts with `amb`. |
| BulkImport.ParseLine | app.py:683-695 | A line is ignored exactly when it is blank or a `#` comment after stripping. An entry has one of the two categories, a stripped name and address, empty notes and no coordinates. |
| BulkImport.ParseLineCases | app.py:683-695 | A blank or `#` line is ignored. A counted line without a pipe is skipped. Every other line gives the first two stripped fields as name and address. City, phone and website are the third to fifth stripped fields, or `""` when the line has fewer. Its kind is `NormalizeKind` of the sixth field, or of `default_type` if that field is absent or empty, so it is `ambassadors` exactly when that text starts with `amb`. It has no coordinates. |
| BulkImport.ImportEntry | app.py:697-706 | One entry raises exactly one of `created` and `updated` by one and leaves the other counters as they were. It raises `created` exactly when no row has its (name, address). The id invariant is kept. |
| BulkImport.ImportLine | app.py:683-706 | A line that is not counted changes nothing. A counted line raises exactly one counter by one and leaves the other two as they were. No counter ever falls. The id invariant is kept. |
| BulkImport.Import | app.py:681-707 | Over the whole input the counters grow by exactly the number of counted lines, and the id invariant is kept. |
| BulkImport.ImportLineStep | app.py:683-706 | An ignored line changes nothing. A counted line raises exactly one counter. A skipped line leaves the database alone. The table grows by the rise in `created`. An entry is an update exactly when its (name, address) already exists. |
| BulkImport.ImportTally | app.py:681-707 | After the whole input, `created + updated + skipped` equals the number of non-blank, non-comment lines. `skipped` equals the number of such lines without a pipe. The table grows by exactly `created` rows. |
| BulkImport.UpdateByKeyKeepsKeys | app.py:699-703 | Updating the row found by (name, address) keeps every row's name and address. The updated row takes the line's kind, and every other row stays exactly as it was. |
| BulkImport.UpdateByKeyKeepsInvariants | app.py:699-703 | That update keeps every kind a category and keeps (name, address) unique. |
| BulkImport.InsertNewKeyKeepsInvariants | app.py:704-706 | Inserting a line whose (name, address) is new keeps both invariants. |
| BulkImport.ImportEntryKeepsInvariants | app.py:697-706 | Importing one entry keeps every kind a category and keeps (name, address) unique. |
| BulkImport.ImportLineKeepsInvariants | app.py:683-706 | Importing one line keeps both invariants. |
| BulkImport.ImportKeepsInvariants | app.py:681-707 | A whole import writes no kind other than the two categories. It never creates a second row for a (name, address) pair, whatever the lines repeat. |
| BulkImport.ImportEntryWrites | app.py:697-706 | The entry's address goes through the coordinate step of `upsert_clinic`, so the cache and request log are the ones the geocoder leaves. When a row has the entry's (name, address), the first such row gets every column of the entry (`notes` is `""`) and the settled coordinates, which are NULL unless geocoding succeeds. It keeps its id and `created_at`, and `updated_at` is `now`. The other rows stay unchanged. Otherwise one row with those columns is appended under the counter's id. Either way, a lookup by (name, address) then finds that row. |
| BulkImport.ImportLineWrites | app.py:686-706 | After an entry line, the row a lookup by the line's (name, address) finds holds the line's fields. Its kind is `NormalizeKind` of the sixth field, or of `default_type` when that field is absent or empty. |
| BulkImport.ImportEntryLeavesKey | app.py:697-706 | After an entry is imported, a row with its (name, address) exists. |
| BulkImport.ImportSameKeyTwice | app.py:697-706 | Two lines with the same name and address add at most one row: the second is an update, whatever its other fields say. |
| Search.Filter | app.py:569-578 | A row is returned exactly when it is in the table and passes the kind and text conditions. |
| Search.Insert | app.py:579 | Inserting into the ordered list adds exactly the one row: the result holds the input rows and `x`, counted with multiplicity. |
| Search.Sort | app.py:579 | The ORDER BY result holds exactly the filtered rows, counted with multiplicity. |
| Search.RowLeTotal | app.py:579 | Any two rows are comparable under `city IS NULL, city, name`. |
| Search.RowLeTransitive | app.py:579 | That row order is transitive. |
| Search.InsertMembers | app.py:579 | The ordered result holds the same rows as its input. |
| Search.InsertSorted | app.py:579 | Inserting a row into an ordered list keeps it ordered. |
| Search.SortSorted | app.py:579 | The ORDER BY result is ordered. |
| Search.Limit | app.py:579-580 | A non-negative `LIMIT n` keeps a prefix of the rows: exactly `n` of them when there are more than `n`. A negative limit, or one no smaller than the row count, keeps everything. |
| Search.SearchClinics | app.py:565-582 | The query returns no more rows than the table has, and at most `limit` when `limit` is non-negative. With a negative limit it returns every matching row, each as often as the filter keeps it (equal multisets). |
| Search.SearchReturnsMatchingRows | app.py:565-582 | Every returned row is a row of the table. When `view` names a category, the row has that kind. When `q` is non-empty, `q` occurs in the row's name, address or non-NULL city, ASCII case folded. |
| Search.SearchSorted | app.py:579-582 | Rows with a city come before rows without. Within those groups rows go by city, then by name. |
| Search.SortedPrefixBefore | app.py:579-580 | A row of an ordered list that is cut off by a prefix sorts after every row in the prefix. |
| Search.SearchIsSortedPrefix | app.py:579-582 | The result has at most `limit` rows. When no more than `limit` rows match, all of them are returned. A matching row left out sorts after every returned row. |
| Search.FilterDistinct | app.py:569-578 | Filtering keeps ids distinct. |
| Search.InsertDistinct | app.py:579 | Inserting a row with a new id keeps ids distinct. |
| Search.SortDistinct | app.py:579 | Ordering keeps ids distinct. |
| Search.SearchDistinct | app.py:565-582 | No row is returned twice. |
| Search.OtherViewsUnfiltered | app.py:569-571 | A view other than the two categories applies no kind filter: it returns what `"all"` returns. |
| Leads.ValidateLead | app.py:310-317 | A submission is rejected exactly when both the stripped e-mail and the stripped phone are empty. Otherwise every field is accepted stripped. |
| Leads.PhoneAloneAccepted | app.py:315-317 | A phone number without an e-mail address is accepted. |
| Database.Database.constructor | app.py:487-523 | New tables are empty, and both AUTOINCREMENT counters start at 1. |
| Database.Database.SaveGeocodeCache | app.py:666-672 | The method performs exactly `SaveCache` on the object's state. |
| Database.Database.GeocodeAddress | app.py:634-664 | The returned pair and the new cache and request log are those of `Geocode` on the old state. |
| Database.Database.GeocodeIfMissing | app.py:587-590 | The coordinate step leaves `data` and the state as `PrepareCoordinates` does. |
| Database.Database.UpsertClinic | app.py:584-614 | The returned id and the new state are those of `Upsert`, and the id invariant is kept. |
| Database.Database.ImportEntryRow | app.py:697-706 | One entry updates or inserts as `ImportEntry` does. |
| Database.Database.ImportOneLine | app.py:683-706 | One loop iteration changes the state and the counters as `ImportLine` does. |
| Database.Database.ImportLines | app.py:682-706 | The per-line loop, one line at a time, leaves the state and counters that `Import` gives from zero counters. |
| Database.Database.BulkImport | app.py:675-707 | The import leaves the state and counters that `Import` gives. The counters sum to the number of counted lines, and the table grows by `created`. |
| Database.Database.InsertAll | app.py:548-553 | The insert loop appends one row per entry under consecutive ids and advances the counter by the number of entries. |
| Database.Database.SeedDemoClinics | app.py:529-554 | The new state is `Seed` of the old state, and the id invariant is kept. |
| Database.Database.SubmitLead | app.py:309-326 | A rejected submission changes nothing. An accepted one appends exactly one lead row with the stripped fields under the next id, returns that id and advances the counter by one. The id is fresh: no earlier lead has it. The lead ids stay increasing and below the counter. |

## Left out

- Flask routing, sessions, admin login, flash messages, templates and
  `inject_globals`: these are request plumbing with no bookkeeping logic. The
  admin routes that call the modelled operations (create, edit, import) are
  covered through those operations. `admin_geocode` and the delete route are
  not modelled.
- SMTP delivery, `.eml` archiving and JSON archiving of leads: best-effort
  I/O.
- Storage-path selection, SQLite connection setup and PRAGMAs, and the DDL of
  `init_db`: the model starts from empty tables (`Database.constructor`).
- The HTTP request to the geocoder, `time.sleep(1.0)`, `resp.json()` and
  `float(...)` parsing: these are replaced by the oracle `resolve`.
  `resolve` gives the same answer for the same query string within one
  scenario, so answers that change over time are not modelled.
- `float()` parsing of form coordinates in `clinic_from_form`: the model takes
  `data` with its coordinates already parsed. `list_static_images` is not
  part of the model.
- Python's `splitlines()`: bulk import takes its input already split into
  lines.
- `LIKE` wildcards `%` and `_` inside `q`: the search treats `q` as plain
  text.
- Non-ASCII case folding: `LIKE` in SQLite folds only ASCII letters, which is
  what `Text.Lower` does. For the `amb` prefix test of the kind, Python's full
  `lower()` gives the same answer. No character other than `A`, `M` and `B`
  lowercases to `a`, `m` or `b`.
- Timestamps are opaque strings passed in as `now`. One `now` serves a whole
  operation: every line of a bulk import, and the cache write inside an
  upsert, use the same value. The source reads the clock again in each
  `upsert_clinic` call and in each cache write.
- `seed_demo_clinics` returns early when the COUNT query raises. The model has
  no failing database.
- SQLite's integer width and the coordinates' floating-point representation:
  ids are unbounded integers, and coordinates are reals that are only tested
  for being NULL or zero.
