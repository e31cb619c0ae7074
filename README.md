# Blood-pressure reading store

A model of the readings API of the blood-pressure tracker backend: the range
validation of a create request, and the five endpoints over one table of
readings keyed by integer id — list (newest first, with `skip`/`limit`
pagination), create, get by id, delete by id and delete-all.

The database is abstracted as a finite map from id to reading. The table lives
in a `ReadingStore` object whose methods change it in place: create, delete and
delete-all. The two read-only queries are functions of the map: the paged list
and get by id. The wall clock is the `now` parameter of create.

Modules:

- `Http` (`http.dfy`): `Option`, the `Result` of an endpoint, and field-level
  validation errors. `Ok` maps to the endpoint's success status (200, 201 or
  204), `NotFound` to 404 and `Invalid` to 422.
- `Schemas` (`schemas.dfy`): the record shapes (`Reading`, `ReadingCreate`,
  `CreateBody`, `ReadingList`), the range constants and `Validate`.
- `Ordering` (`ordering.dfy`): the table seen through `ORDER BY timestamp DESC`.
  SQL leaves the order of equal timestamps open, so `IsDescendingView` admits any
  tie order. `SortedView` computes one admissible ordering, breaking ties by
  larger id. The lemmas show that every admissible ordering lists the same
  timestamps, and that the ordering is unique when no two timestamps are equal.
- `Readings` (`readings.dfy`): query-parameter validation, the paged list, get by
  id, and the `ReadingStore` class with create, delete and delete-all.

Two facts about the record and the endpoints, read from the code:

- `Reading` has no `note` field. Neither the ORM model (src/models.py:13-17)
  nor src/schemas.py declares one. The data-migration script writes one, but
  that script is out of scope.
- Delete-all answers 204 with an empty body (src/routers/readings.py:124), so
  `DeleteAllReadings` returns nothing.

## Model

| member | source | states |
|---|---|---|
| `Http.CheckRequired` | src/schemas.py:11-13 | A required integer field with inclusive bounds gives no error exactly when it is present and in range. Otherwise it gives one error naming the field and saying correctly why it failed: missing, below the minimum or above the maximum. |
| `Schemas.Validate` | src/schemas.py:8-19 | A create body is accepted iff systolic is present and in 40..300, diastolic in 20..200 and heart_rate in 20..250. When accepted, the three values and the optional timestamp are carried over unchanged. When rejected, there are one to three errors, each one a true account of a failing field; every failing field is reported, and no field twice. |
| `Ordering.SortedView` | src/routers/readings.py:34-35 | Lists the whole table, with exactly as many entries as the table. |
| `Ordering.SortedViewIsDescending` | src/routers/readings.py:34-35 | The computed ordering is one that `ORDER BY timestamp DESC` may produce: every table entry exactly once, under its own id, with timestamps never increasing. |
| `Ordering.HeadIsLatest` | src/routers/readings.py:34-35 | In any admissible ordering, the first entry is at least as late as every entry of the table. |
| `Ordering.DescendingViewsAgree` | src/routers/readings.py:34-35 | Any two admissible orderings of the same table have the same length and the same timestamp at every position: only the order among ties is free. |
| `Ordering.DescendingViewUnique` | src/routers/readings.py:34-35 | When no two readings share a timestamp, there is exactly one admissible ordering. |
| `Readings.ParseListParams` | src/routers/readings.py:19-20 | A missing `skip` defaults to 0 and a missing `limit` to 100. The request is accepted iff skip >= 0 and 1 <= limit <= 100, and then carries exactly those values. Otherwise every error names `skip` or `limit` with the bound it breaks, and each offending parameter is reported exactly once. |
| `Readings.Window` | src/routers/readings.py:36 | OFFSET/LIMIT on an ordering: min(limit, max(0, n - skip)) entries, which are the ordering's entries from position `skip` on, in order. |
| `Readings.ListReadings` | src/routers/readings.py:34-36 | The page is the [skip, skip + limit) window of some admissible timestamp-descending ordering of the table. So it has min(limit, max(0, size of the table - skip)) entries, each a table entry under its own id, no id twice, with timestamps never increasing. |
| `Readings.ListAgreesWithEveryOrdering` | src/routers/readings.py:34-36 | Against every admissible ordering, the page has the window's length and the same timestamps at each position. With distinct timestamps it equals that window exactly. |
| `Readings.FirstPageIsMostRecent` | src/routers/readings.py:34-36 | With skip 0, no reading left off the page is later than any reading on it: the page holds the `limit` most recent readings. |
| `Readings.GetReadings` | src/routers/readings.py:17-38 | The list endpoint succeeds iff the query parameters pass their bounds. On success it returns the page for the defaulted parameters wrapped in a list response. On failure it returns the parameter errors, and never NotFound. |
| `Readings.GetReading` | src/routers/readings.py:88-95 | Returns Ok iff the id is in the table, and then the reading stored under that id, which carries that id. Otherwise it returns NotFound (404). |
| `Readings.ReadingStore.constructor` | src/models.py:8-17 | A new table is empty and satisfies the store invariant: entries under their own ids, with in-range measurements and ids already issued. |
| `Readings.ReadingStore.CreateReading` | src/routers/readings.py:56-67 | The new reading has an id not previously in the table. It copies systolic, diastolic and heart_rate verbatim, and its timestamp is the supplied one or `now`. The table gains exactly that entry, every other entry stays the same, the size grows by one, and a get of the new id returns it. |
| `Readings.ReadingStore.PostReading` | src/routers/readings.py:41-67 | A body that fails validation returns its validation errors and leaves the table unchanged. A valid body is created as in CreateReading, from the validated fields. |
| `Readings.ReadingStore.DeleteReading` | src/routers/readings.py:113-121 | Returns Ok iff the id was present, and then removes exactly that key, so the size drops by one. Otherwise it returns NotFound and the table is unchanged. Either way a later get, or a second delete, of that id finds nothing. |
| `Readings.ReadingStore.DeleteAllReadings` | src/routers/readings.py:134-135 | The table is empty afterwards, whatever it held before, and every page listed afterwards is empty. |

## Left out

- The HTTP framework, the database session and its transaction handling are
  not modelled. Each store method stands for one committed request. Concurrent
  requests, and the database's isolation between them, are out of scope.
- The wall clock is the `now` parameter. Timestamps are integers that count
  instants, and the model only compares them. Time zones, and mixing naive with
  aware datetimes, are not modelled.
- The raw body and query fields are modelled as integer-or-absent. The
  framework's coercion of other JSON types or strings to integers is not
  modelled, and neither are the errors for values that are not integers.
- Id generation: `nextId` stands for the primary-key sequence. The contracts
  promise only that a new id is fresh.
- `Readings.ReadingStore.CreateReading`: the 32-bit range of the integer
  columns is not modelled, so there is no database error for an id or value
  that would overflow them.
- `Readings.GetReadings`: the 64-bit range of SQL's OFFSET is not modelled.
  A `skip` of 2^63 or more passes the `ge=0` check
  (src/routers/readings.py:19), but PostgreSQL rejects it in `.offset(skip)`
  (line 36), so the request ends in a server error. The model returns `Ok`
  with an empty page instead.
- `Readings.ListReadings`: every request uses the same tie order, the one that
  `SortedView` computes (larger id first among equal timestamps). SQL leaves
  that order open, and the database may pick a different one for each request
  or each OFFSET/LIMIT. So pages from different requests can overlap, or skip
  readings that share a timestamp. The model's pages always fit together. Only
  what holds within a single request is promised: the page is a window of some
  admissible ordering.
- Response validation: the store invariant keeps every stored reading within
  the schema's ranges. So the response check on readings that the model itself
  stores cannot fail. Rows written by other means, such as the data-migration
  script, are not modelled.
- Process supervision (`scripts/local_server.py`), the SQLite-to-PostgreSQL
  copy (`scripts/migrate_sqlite_to_postgres.py`), engine and session setup
  (`src/database.py`), and app wiring with its CORS policy and two constant
  liveness endpoints (`src/main.py`) are not part of this model. They are all
  I/O or configuration.
