# Busconnects audit: trip collection and ghost-bus detection

This project models the two pieces of logic at the heart of the Busconnects
audit scripts, and proves properties about them in Dafny.

1. **Collecting trip observations** (`collect.py`, module `Collect`). One
   polling cycle takes decoded GTFS Realtime feed entities. It drops entities
   without a `trip_update` and routes outside the spine map. It classifies each
   kept trip by operator and spine letter. It then turns every
   `StopTimeUpdate` into one row of `trip_observations`. A decoded 0 in the
   direction, arrival time, departure time or delay becomes `None`, and the
   delay falls back from arrival to departure. The rows are appended with a
   plain `INSERT`, and an empty batch writes nothing. The three lookup tables
   are a `Tables` value. `SourceTables` holds the literal maps of the script.
   The nested loop is the method `BuildRows`, proved equal to the
   specification function `FeedRows`. The table is the class
   `TripObservationStore`.
2. **Detecting ghost buses** (`detect_ghosts.py`, modules `Ghosts` and
   `Aggregates`). One `INSERT ... SELECT` statement does all the work:
   - It keeps observations last seen more than 15 minutes before `now` on
     today's service date. This test applies to each row.
   - It joins each trip with the largest `total_stops` listed for it in
     `route_stop_counts`.
   - It groups by trip and route and computes the MIN and MAX aggregates.
   - It keeps the groups whose highest stop sequence is strictly below 80% of
     the expected stop count.
   - It inserts them with `ON CONFLICT (trip_id) DO NOTHING`, and `rowcount`
     is the number of new trips.

   The SELECT is the function `Select`. The insert is the function
   `InsertNew`. The table is the class `GhostCandidateTable`, a map keyed by
   trip id. `GhostScenarios` works the detector through concrete single-trip
   cases.

The clocks (`datetime.utcnow()`, `NOW()`, `CURRENT_DATE`) are parameters.
Timestamps are integers in seconds, and service dates are day numbers.

The model follows the code as written:
- A decoded 0 is treated as absent, so a delay of exactly 0 seconds is stored
  as `None`. Only the `trip_update` sub-message is tested for presence. The
  direction, the arrival and departure times and the delays are tested for
  truthiness (collect.py:79, 89, 99-100).
- The staleness test is applied to each observation row. A trip that reported
  a minute ago can still be flagged from its older rows
  (`GhostScenarios.RecentReportDoesNotSaveTrip`).
- Observations are written with a plain `INSERT`.
- Groups are keyed by trip and route. One trip id can therefore yield two
  proposed rows, and at most one of them is inserted.
- `scheduled_arrival_secs` receives the feed's arrival time, and
  `actual_arrival_secs` receives its departure time.
- A route missing from `ROUTE_AGENCY_MAP` is looked up under agency `""`. It
  gets `"Unknown"` only because `""` is not a key of `OPERATOR_MAP`
  (`Collect.OperatorFor`).

## Model

| member | source | states |
|---|---|---|
| `Collect.OperatorFor` | collect.py:84-85 | Classification never fails: the result is "Unknown" or a listed operator. When "" is not an agency key, it is `OPERATOR_MAP[ROUTE_AGENCY_MAP[route]]` if both lookups succeed and "Unknown" otherwise. |
| `Collect.StopDelay` | collect.py:89 | The delay is the arrival delay if non-zero, else the departure delay if non-zero, else None. It is None exactly when both are 0, and a stored delay is never 0. |
| `Collect.EventDelay` | collect.py:89 | Reading `delay` through an arrival or departure that may be absent gives 0 when it is absent, as protobuf does. `Collect.StopDelay` states the delay built from it. |
| `Collect.EventTime` | collect.py:99-100 | Reading `time` through an arrival or departure that may be absent gives 0 when it is absent. `Collect.RowFields` states the columns built from it. |
| `Collect.Kept` | collect.py:72-82 | The two `continue`s as one test: the entity has a trip update on a spine-map route. `Collect.DroppedEntityNoRows` and `Collect.FeedRowsCount` state its effect. |
| `Collect.NonZero` | collect.py:79 | Python's `x if x else None` on a decoded number. It has no contract of its own; `Collect.RowFields` and `Collect.StopDelay` state that a value is None exactly when it is 0 and is kept otherwise. |
| `Collect.MakeRow` | collect.py:91-103 | The row tuple of one stop-time update. Its columns are stated by `Collect.RowFields`. |
| `Collect.EntityRows` | collect.py:72-103 | The rows of one entity: none when it is dropped (`Collect.DroppedEntityNoRows`), else one per stop-time update in order. |
| `Collect.FeedRows` | collect.py:72-103 | The rows of a whole feed, entity by entity. It is specified by `Collect.FeedRowsCount`, `Collect.FeedRowsOrigin`, `Collect.FeedRowsComplete` and `Collect.FeedRowsSnoc`, and `Collect.BuildRows` is proved equal to it. |
| `Collect.DroppedEntityNoRows` | collect.py:72-82 | An entity without a trip update, or whose route is not in the spine map, yields no rows. |
| `Collect.RowFields` | collect.py:76-103 | A row carries the trip and route ids, the route's spine letter and operator, and the stop id and sequence. Direction, arrival time (scheduled column) and departure time (actual column) are None exactly when the decoded value is 0, and are unchanged otherwise. The delay is never 0. |
| `Collect.FeedRowsCount` | collect.py:72-103 | The number of rows equals the total number of stop-time updates of the kept trip updates. |
| `Collect.FeedRowsOrigin` | collect.py:69-103 | Every row has the cycle's common `collected_at`, lies on a spine-map route, carries that route's spine and operator, and is the row of some stop-time update of a kept entity. |
| `Collect.FeedRowsComplete` | collect.py:88-103 | Conversely, every stop-time update of a kept entity yields its row in the output. |
| `Collect.FeedRowsSnoc` | collect.py:72-103 | The rows of a feed extended by one entity are the earlier rows followed by that entity's rows: rows come in feed order. |
| `Collect.SourceOperatorsKnown` | collect.py:21-52 | With the script's own tables, every spine route has a known operator (Dublin Bus or Go-Ahead), never "Unknown". |
| `Collect.BuildRows` | collect.py:70-103 | The nested loop that appends rows produces exactly `FeedRows`: one row per kept stop-time update, in feed order. |
| `Collect.TripObservationStore.FetchAndStore` | collect.py:69-116 | The table becomes the old rows followed by the batch, with no deduplication. The number written is the number of kept stop-time updates. An empty batch leaves the table unchanged. |
| `Aggregates.MaxOf` | detect_ghosts.py:33-34 | SQL MAX over an integer column: an element of the group that no element exceeds. |
| `Aggregates.MinOf` | detect_ghosts.py:32 | SQL MIN over an integer column: an element of the group that no element undercuts. |
| `Aggregates.LexLe` | detect_ghosts.py:30-31 | The text order behind `MAX(t.operator)` and `MAX(t.spine)`, by character code. `Aggregates.LexLeTotal` and `Aggregates.LexLeTransitive` prove it total and transitive, and `Aggregates.MaxText` uses it. |
| `Aggregates.MaxText` | detect_ghosts.py:30-31 | SQL MAX over text: an element of the group that every element sorts before or equals. |
| `Ghosts.ExpectedTotal` | detect_ghosts.py:38-42 | The joined `MAX(total_stops)` of a trip: None exactly when the trip is not listed, else a listed count that no listed count for that trip exceeds. |
| `Ghosts.Qualifies` | detect_ghosts.py:43-45 | The WHERE clause on one row: last seen strictly more than 900 seconds before now, on today's service date. `Ghosts.NonQualifyingIgnored` and `Ghosts.SelectError` state its effect. |
| `Ghosts.Eligible` | detect_ghosts.py:38-45 | The WHERE clause together with the inner join. `Ghosts.EligibleRows` and `Ghosts.IneligibleIgnored` state its effect. |
| `Ghosts.EligibleRows` | detect_ghosts.py:42-45 | A row takes part exactly when it was last seen more than 15 minutes before now, is on today's service date, and its trip is listed in `route_stop_counts`. |
| `Ghosts.KeyOf` | detect_ghosts.py:46 | The GROUP BY key of a row: its trip and route. `Ghosts.GroupKeys` and `Ghosts.Members` state the grouping by it. |
| `Ghosts.GroupKeys` | detect_ghosts.py:46 | The group keys are exactly the (trip, route) pairs of the rows, each once. |
| `Ghosts.Members` | detect_ghosts.py:46 | A group holds exactly the rows with its (trip, route) key. |
| `Ghosts.GroupsWellFormed` | detect_ghosts.py:38-46 | Every group is non-empty and its trip has a listed stop count. |
| `Ghosts.BelowThreshold` | detect_ghosts.py:47 | The HAVING test, as a sign-aware cross-multiplication. `Ghosts.ThresholdIsRatio` states that it agrees with the division. |
| `Ghosts.ThresholdIsRatio` | detect_ghosts.py:47 | The integer HAVING test agrees with exact division `max_seq / total < 0.80` for either sign of the stop count. |
| `Ghosts.Aggregate` | detect_ghosts.py:27-36 | The select list for one group. `Ghosts.AggregateOfGroup` states each column. |
| `Ghosts.MaxStopSequence` | detect_ghosts.py:34 | `MAX(t.stop_sequence)` over a group is the stop sequence of one of its rows, and no row's is larger. |
| `Ghosts.MinFirstSeen` | detect_ghosts.py:32 | `MIN(t.first_seen_at)` over a group is one of its rows' values, and no row's is smaller. |
| `Ghosts.MaxLastSeen` | detect_ghosts.py:33 | `MAX(t.last_seen_at)` over a group is one of its rows' values, and no row's is larger. |
| `Ghosts.MaxOperator` | detect_ghosts.py:30 | `MAX(t.operator)` over a group is one of its rows' operators, and every row's operator sorts no later. |
| `Ghosts.MaxSpine` | detect_ghosts.py:31 | `MAX(t.spine)` over a group is one of its rows' spines, and every row's spine sorts no later. |
| `Ghosts.AggregateOfGroup` | detect_ghosts.py:27-36 | A candidate's stop sequence, first seen and last seen are the MAX, MIN and MAX over its group. Its operator and spine are the text MAX. It carries the expected count and `confirmed_ghost = TRUE`. |
| `Ghosts.SelectGroups` | detect_ghosts.py:46-47 | The groups in key order, each aggregated and kept when it passes HAVING. `Ghosts.SelectGroupsSound`, `Ghosts.SelectGroupsComplete` and `Ghosts.SelectGroupsError` state it. |
| `Ghosts.Select` | detect_ghosts.py:27-47 | The whole SELECT. `Ghosts.SelectSound`, `Ghosts.SelectComplete` and `Ghosts.SelectError` state what it proposes and when it fails. |
| `Ghosts.SelectGroupsSound` | detect_ghosts.py:27-47 | Every proposed row is the aggregate of one of the groups, with a non-zero listed count, and passes HAVING. |
| `Ghosts.SelectGroupsComplete` | detect_ghosts.py:27-47 | Every group that passes HAVING is proposed. |
| `Ghosts.SelectGroupsError` | detect_ghosts.py:47 | The HAVING division fails exactly when some group's stop count is 0. |
| `Ghosts.SelectError` | detect_ghosts.py:38-47 | The statement fails exactly when a stale observation of today belongs to a trip whose largest listed count is 0. |
| `Ghosts.SelectSound` | detect_ghosts.py:27-47 | A proposed candidate is confirmed and belongs to a listed trip whose largest count is its expected total. It is strictly below the 80% threshold. Its last stop sequence, first seen and last seen are the MAX, MIN and MAX over the qualifying observations of its (trip, route). |
| `Ghosts.SelectComplete` | detect_ghosts.py:27-47 | For a qualifying observation of a listed trip, its group's aggregate is proposed exactly when it passes HAVING. When it does not pass, no proposed row has that key. |
| `Ghosts.EligibleRowsAppend` | detect_ghosts.py:43-45 | The row filter distributes over concatenation. |
| `Ghosts.NonQualifyingIgnored` | detect_ghosts.py:43-45 | Adding an observation that is recent or from another service date, anywhere in the table, does not change the result. |
| `Ghosts.UnlistedTripIgnored` | detect_ghosts.py:38-42 | Adding an observation of a trip absent from `route_stop_counts`, anywhere in the table, does not change the result. |
| `Ghosts.IneligibleIgnored` | detect_ghosts.py:38-45 | An observation dropped by the WHERE clause or the join, wherever it sits, leaves the rows that take part unchanged. |
| `Ghosts.KeyedByTrip` | detect_ghosts.py:48 | The unique `trip_id` that `ON CONFLICT (trip_id)` relies on: every candidate is stored under its own trip id. `Ghosts.InsertNewKeyed` and `Ghosts.GhostCandidateTable.DetectGhosts` preserve it. |
| `Ghosts.InsertNew` | detect_ghosts.py:48 | `ON CONFLICT (trip_id) DO NOTHING`, row by row. `Ghosts.InsertNewKeys`, `Ghosts.InsertNewKeepsExisting`, `Ghosts.InsertNewFirstWins`, `Ghosts.InsertNewKeyed`, `Ghosts.InsertedCount` and `Ghosts.InsertIdempotent` state it. |
| `Ghosts.InsertNewKeys` | detect_ghosts.py:48 | After the insert, the table's trip ids are the old ones plus the proposed ones. |
| `Ghosts.InsertNewKeepsExisting` | detect_ghosts.py:48 | Existing candidates are never modified. |
| `Ghosts.InsertNewFirstWins` | detect_ghosts.py:48 | A new candidate is the first proposed row with its trip id. Later rows with that id conflict and are skipped. |
| `Ghosts.InsertNewKeyed` | detect_ghosts.py:48 | The table keeps every candidate under its own trip id: at most one per trip. |
| `Ghosts.InsertedCount` | detect_ghosts.py:51 | The number of rows added is the number of proposed trip ids not already present. |
| `Ghosts.InsertPresentNoop` | detect_ghosts.py:48 | Proposing only trip ids already present leaves the table unchanged. |
| `Ghosts.InsertIdempotent` | detect_ghosts.py:48 | Inserting the same proposed rows twice equals inserting them once. |
| `Ghosts.DetectTwiceInsertsNothing` | detect_ghosts.py:21-51 | A second run on unchanged data leaves the table as the first run left it, and its reported count is 0. |
| `Ghosts.GhostCandidateTable.DetectGhosts` | detect_ghosts.py:21-51 | If the statement fails, the table is unchanged and the error is reported. Otherwise the table becomes the insert of the SELECT's rows and the count is the number of new trip ids. Existing candidates are unchanged and the one-per-trip invariant holds. |
| `GhostScenarios.SingleRowAggregate` | detect_ghosts.py:30-36 | A group of one observation aggregates to that observation's own values. |
| `GhostScenarios.SingleRowSelect` | detect_ghosts.py:27-47 | With a non-zero stop count, a single qualifying observation of a listed trip forms one group, proposed exactly when it passes HAVING. |
| `GhostScenarios.SingleStaleTrip` | detect_ghosts.py:43-47 | For a positive stop count, a trip seen once 20 minutes ago is proposed exactly when 5 * stop sequence < 4 * total stops. |
| `GhostScenarios.ThresholdBoundary` | detect_ghosts.py:47 | 8 of 10 stops (exactly 0.80) is not flagged. 79 of 100 is flagged. |
| `GhostScenarios.FlagOnceThenNothing` | detect_ghosts.py:21-51 | A trip at stop 4 of 10, last seen 20 minutes ago: the first run inserts one confirmed candidate, and the second inserts none and leaves it unchanged. |
| `GhostScenarios.DetectTwice` | detect_ghosts.py:21-51 | Running the detector twice over the same data: if the first run succeeds, the second reports a `rowcount` of 0 and leaves the table as the first left it; if the first fails, the second fails with the same error and neither changes the table. |
| `GhostScenarios.FlagOnceThenNothingRun` | detect_ghosts.py:21-51 | On a fresh table, the stop-4-of-10 trip gives a `rowcount` of 1 on the first run and 0 on the second. |
| `GhostScenarios.RecentReportDoesNotSaveTrip` | detect_ghosts.py:44 | A trip with a recent report at stop 9 is still flagged from its stale observation at stop 3. |

## Left out

- The HTTP fetch (request, 30-second timeout, `raise_for_status`, `sys.exit(1)`) is network I/O. The decoded feed is an input.
- Protobuf decoding is a foreign library. Decoded messages are datatypes, and an unset numeric field reads as 0, as the protobuf accessors do.
- Database connections, cursors, commit and close are database I/O. Each statement is treated as atomic: a failed detection leaves the table unchanged.
- `dotenv`, `DB_CONFIG`, `API_KEY` and the `print` logging are configuration and output. The number of rows written and `rowcount` are returned instead of printed.
- Protobuf integer widths are not modelled. Direction and stop sequence (uint32), delay (int32) and time (int64) are unbounded integers. No value is truncated or wrapped in the code, so nothing depends on this.
- collect.py does not write the `first_seen_at`, `last_seen_at` and `service_date` columns. The detector takes them as inputs, and its `Observation` is separate from the collector's `ObservationRow`.
- Ghosts.ThresholdIsRatio: the HAVING clause divides in floating point. The model compares exact rationals by cross-multiplication, and IEEE rounding near 0.80 for astronomically large stop counts is not modelled.
- Aggregates.MaxText: the database collation is not modelled. Text is ordered by character code, as under the "C" collation.
- NULL values in `trip_observations` and `route_stop_counts` are not modelled. Every column read by the detector is present.
- The time zones behind `NOW()` and `CURRENT_DATE` are not modelled. Timestamps are seconds, and sub-second precision is not modelled.
- The order in which the SELECT produces its rows is unspecified. The model uses one fixed order. Which route's row is kept for a trip id that appears under two routes depends on that order. So does the trip named in `DivisionByZero` when several groups have a zero stop count: PostgreSQL's own error names no trip, and the model reports the first failing group in its order. The set of inserted trip ids and the count do not (`Ghosts.InsertNewKeys`, `Ghosts.InsertedCount`).
