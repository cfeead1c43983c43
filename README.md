# battery-portal, modelled in Dafny

This project models the bookkeeping and byte-level logic of the
battery-portal system. The system is a telemetry portal for battery packs:
ESP32 nodes read a battery gauge over I²C, join a mesh, and stream
readings over WebSockets to a Flask back end. The back end stores the
readings in one table per device, keeps a directory of which node hangs
off which root, serves chart series, and relays browser requests back to
the nodes.

There is one Dafny module per source file of that core:

- **Back end (`backend/app`)**
  - `QueryWindow` (`query_window.dfy`): `get_query_size`. It walks the
    newest timestamps back in batches of 60, splits each batch into runs
    at gaps of five minutes or more, and counts rows until the runs cover
    the target duration.
  - `TwinRules` (`twin_rules.dfy`): the other rules of `twin.py`:
    - the discharge-segment detector behind
      `low_depth_of_discharge_check`;
    - the idle-time and above-90 % accumulators;
    - the `add_to_prediction_features` gate.
  - `BackendBattery` (`backend_battery.dfy`): `update_battery_data`,
    `get_battery_data_table`, `info` and `chart_data`. The database is a
    map from device id to its info row, plus a map from device id to its
    rows in timestamp order.
  - `TimeTable`, `ChartWindow` and `MeshDirectory` hold what the web back
    ends share:
    - a timestamp-keyed table and its insert;
    - the newest-date chart window of `chart_data`;
    - the root/node view that `info` returns.
- **Website variant (`website`)**
  - `WebsiteDb` (`website_db.dfy`): `website/app/db.py`.
  - `HttpBattery` (`battery_http.dfy`): `website/app/battery_http.py`.
  - `BatteryWs` (`battery_ws.dfy`): `website/app/battery_ws.py`.
  - `DateFormat` (`date_format.dfy`): `website/utils.py`.
- **WebSocket registry (`test_website/app/ws.py`)**: `WsRegistry`
  (`ws_registry.dfy`). It keeps the dictionaries of ESP and browser
  sockets, in insertion order.
- **Firmware**
  - `SlotTables` (`slot_tables.dfy`): the ESP32 WebSocket server
    (`ESP32/main/src/WS.c`). This covers its client table, its LoRa
    message table, the handshake token check and `perform_request`.
  - `FirmwareUtils` (`firmware_utils.dfy`): `main/src/utils.c`.
  - `LinuxUtils` (`linux_utils.dfy`): `LINUX/main/src/utils.c`. Its
    `convert_uint_to_n_bytes` and `url_decode` are the same code as in
    `main/src/utils.c` (lines 88-91 and 93-110), so `FirmwareUtils` models
    both copies.
  - `Gps` (`gps.dfy`): the NMEA 0183 checksum and the `$GPRMC` field
    split.
  - `Dns` (`dns.dfy`): the captive-portal DNS answer, following RFC 1035.
  - `Bms` (`bms.dfy`): the gauge's seal state and telemetry decoding.
  - `BmsI2c` (`bms_i2c.dfy`): the ESP32 gauge frames.
  - `DataFlash` (`data_flash.dfy`): the `main/src` data-flash block
    read-modify-write with its checksum.
  - `Common` (`common.dfy`) holds `Option`, bytes, decimal notation and
    the ESP-IDF error codes.

Several things are modelled as explicit state:

- **Where the source changes state in place, the model does too.**
  - Registries, the database and the gauge bus are classes whose methods
    update fields.
  - Firmware buffers and tables are `array`s written slot by slot.
- **Every method is proved against a function.** The function states
  what the method computes. Lemmas then state what the source promises
  about that function.
- **Outside inputs are parameters.** These are clocks, random draws, bus
  results, socket failures and the database failures the source catches.
  Those failures are given as the set of batch positions, fetches or
  sockets that fail, or as a flag. An exception the source does not catch, which ends a batch, is not
  modelled (see "## Left out").
  Outgoing traffic is recorded in a log field.

## Model

| member | source | states |
|---|---|---|
| QueryWindow.CountUpTo | backend/app/twin.py:255-258 | the rows at or before the cursor are exactly the first `n` of the ascending table |
| QueryWindow.LastBatch | backend/app/twin.py:259 | a fetch returns at most 60 rows, and fewer only when fewer exist |
| QueryWindow.FetchBatch | backend/app/twin.py:255-267 | the batch holds min(60, rows up to the cursor) rows |
| QueryWindow.BatchAscending | backend/app/twin.py:262-265 | the batch, re-sorted, is strictly ascending |
| QueryWindow.BatchBeforeCursor | backend/app/twin.py:258 | every fetched row is a table row at or before the cursor |
| QueryWindow.BatchMostRecent | backend/app/twin.py:257-259 | every row up to the cursor that was not fetched is older than the whole batch |
| QueryWindow.CursorMovesRows | backend/app/twin.py:291-294 | after a full batch, the rows at or before the new cursor are all but the 59 newest rows before it |
| QueryWindow.CursorMoves | backend/app/twin.py:292-294 | after a full batch the cursor moves to its oldest row, which is fetched again by the next batch (hence the `-1`) |
| QueryWindow.CountUpToAt | backend/app/twin.py:258 | exactly `k+1` rows lie at or before the `k`-th timestamp |
| QueryWindow.Runs | backend/app/twin.py:272-280 | splitting yields no empty run, and yields no run exactly when the batch is empty |
| QueryWindow.RunsFlatten | backend/app/twin.py:272-280 | the runs, concatenated, give back the batch: no row lost, duplicated or reordered |
| QueryWindow.RunsAreTight | backend/app/twin.py:275-276 | consecutive rows inside a run are less than 5 minutes apart |
| QueryWindow.RunsAreSeparated | backend/app/twin.py:277-279 | consecutive runs are 5 minutes or more apart, so a gap of exactly 5 minutes starts a new run |
| QueryWindow.RunsSnoc | backend/app/twin.py:274-280 | appending a row extends the last run when the gap is under 5 minutes, and otherwise opens a new run |
| QueryWindow.LastRunEndsBatch | backend/app/twin.py:280 | the final run ends with the batch's newest row |
| QueryWindow.FlattenAppend | backend/app/twin.py:272-280 | flattening distributes over concatenation |
| QueryWindow.TightGrow | backend/app/twin.py:275-276 | extending the last run with a close row keeps every run tight |
| QueryWindow.SeparatedGrow | backend/app/twin.py:275-276 | extending the last run keeps the runs separated |
| QueryWindow.SeparatedNew | backend/app/twin.py:277-279 | a row 5 minutes or more after the last starts a run that stays separated |
| QueryWindow.ConsumeBounds | backend/app/twin.py:285-289 | consuming newest-first adds at least the newest run's length and at most the batch's length to the count |
| QueryWindow.WalkStops | backend/app/twin.py:252-269 | the walk returns the count so far once the target is covered or no rows are left |
| QueryWindow.WalkFullBatch | backend/app/twin.py:282-296 | a full batch is consumed, the count drops by one, and the walk continues from the batch's oldest row |
| QueryWindow.WalkShortBatch | backend/app/twin.py:295-296 | a batch shorter than 60 ends the walk after it is consumed |
| QueryWindow.WalkBounds | backend/app/twin.py:252-296 | the walk adds at least nothing and at most one less than the number of rows it sees |
| QueryWindow.WalkBoundsFull | backend/app/twin.py:252-296 | a walk that starts with a full batch adds at most one less than the rows it sees |
| QueryWindow.WalkFullStep | backend/app/twin.py:282-294 | a full batch leaves the walk to continue over all but 59 rows, with at most 59 more counted |
| QueryWindow.ConsumeBatchBounds | backend/app/twin.py:282-289 | consuming a nonempty batch adds at least one row and at most the whole batch |
| QueryWindow.SpanIsActive | backend/app/twin.py:286 | a run's span, last minus first timestamp, is the sum of its steps, each shorter than 5 minutes: its active time |
| QueryWindow.ConsumeCovers | backend/app/twin.py:282-289 | consuming runs newest-first takes the newest rows back to the start of a run: the count grows by their number and the covered time by their active time; it reaches the target or takes every row, and stopping at any later run start falls short |
| QueryWindow.ConsumeBatch | backend/app/twin.py:271-289 | the same for the runs of one fetched batch, stated on the batch's own rows |
| QueryWindow.BatchReach | backend/app/twin.py:255-294 | what one batch consumes is a suffix of all rows up to now that ends at a stopping point (a run start or the oldest row of a full batch), with every earlier stopping point short of the target |
| QueryWindow.WalkStep | backend/app/twin.py:252-296 | each batch either ends the walk at the least stopping point that covers the target (or at every row), or hands on to the next batch with every stopping point so far short of the target |
| QueryWindow.WalkCovers | backend/app/twin.py:252-296 | the batch loop ends at the least stopping point whose newest rows cover the target, or at every row |
| QueryWindow.QuerySizeIsLeastCover | backend/app/twin.py:231-301 | with a positive target and at least one row up to now, the query size counts the newest rows back to the least stopping point that covers the target, or every row when none does |
| QueryWindow.QuerySizeCoversTarget | backend/app/twin.py:248-296 | the newest `QuerySize` rows up to now hold at least the target's active time, or the query size is every such row (at least one) |
| QueryWindow.QuerySizeMonotone | backend/app/twin.py:252-289 | a longer target never gives a smaller query size |
| QueryWindow.WalkFailingFullBatch | backend/app/twin.py:252-296 | a full batch fetched without a raise is consumed and the walk continues from its oldest row with the next fetch number |
| QueryWindow.WalkFailingStops | backend/app/twin.py:252-300 | the count so far is returned once the target is covered, the fetch raises (caught by the `except` block) or no rows are left |
| QueryWindow.WalkFailingShortBatch | backend/app/twin.py:294-296 | a short batch fetched without a raise ends the walk after it is consumed |
| QueryWindow.WalkFailingWithoutFailures | backend/app/twin.py:250-300 | when no fetch raises, the walk with failures is the walk |
| QueryWindow.WalkFailingWithoutFailuresFull | backend/app/twin.py:252-296 | the same agreement when the walk goes on past a full batch |
| QueryWindow.WalkFailingUndercounts | backend/app/twin.py:297-300 | a caught raise only cuts the walk short: the count lies between the count so far and the count without failures |
| QueryWindow.WalkFailingUndercountsFull | backend/app/twin.py:252-296 | the same bounds when the walk goes on past a full batch fetched without a raise |
| QueryWindow.QuerySizeFailingBounds | backend/app/twin.py:248-300 | the returned size lies between 1 and `QuerySize`, equals it when nothing raises, and is 1 when the first fetch raises |
| QueryWindow.QuerySizeBounds | backend/app/twin.py:248-269 | the query size is at least 1 and at most the number of rows up to now; it is exactly 1 when there are no rows or the target is not positive |
| QueryWindow.ExampleRuns2 | backend/app/twin.py:274-280 | rows at minutes 0 and 1 form one run |
| QueryWindow.ExampleRuns3 | backend/app/twin.py:274-280 | rows at minutes 0, 1 and 2 form one run |
| QueryWindow.ExampleRuns4 | backend/app/twin.py:274-280 | a 21-minute gap starts a second run |
| QueryWindow.ExampleRuns5 | backend/app/twin.py:274-280 | minutes 0,1,2,23,24 split as [0,1,2] [23,24] |
| QueryWindow.ExampleRuns6 | backend/app/twin.py:274-280 | minutes 0,1,2,23,24,25 split as [0,1,2] [23,24,25] |
| QueryWindow.ExampleRuns7 | backend/app/twin.py:274-280 | minutes 0,1,2,23,24,25,26 split as [0,1,2] [23..26] |
| QueryWindow.SevenRowsExample | backend/app/twin.py:248-296 | rows at minutes 0,1,2,23,24,25,26 with a 5-hour target give a query size of 7 |
| QueryWindow.SplitIntoRuns | backend/app/twin.py:272-280 | the chunking loop computes `Runs` |
| QueryWindow.ConsumeNewestFirst | backend/app/twin.py:282-289 | the newest-first loop with its early break computes `Consume` |
| QueryWindow.ConsumeFetched | backend/app/twin.py:271-289 | one fetched batch, split into runs and consumed newest-first, advances the progress as `BatchStep` |
| QueryWindow.FetchRound | backend/app/twin.py:252-296 | one round of the outer loop: a raising, empty or short fetch ends the walk with the count `WalkFailing` gives; a full batch leaves the walk's outcome unchanged from the moved cursor and the next fetch number |
| QueryWindow.GetQuerySize | backend/app/twin.py:231-301 | the batch loop returns `QuerySizeFailing`: the count reached when the first raising fetch is caught, and `QuerySize` when no fetch raises; it lies between 1 and `QuerySize` |
| TwinRules.Scan | backend/app/twin.py:412-440 | the detector's pending start, pending stop and every recorded segment lie within the readings scanned, a stop only with a start |
| TwinRules.Depths | backend/app/twin.py:426-427 | one depth per recorded segment |
| TwinRules.ScanKeepsInvariant | backend/app/twin.py:412-440 | the detector's pending start and stop, and every recorded segment, stay consistent with the readings scanned so far |
| TwinRules.StepKeepsPending | backend/app/twin.py:415-440 | one reading keeps a pending start after a charging phase and a pending stop at a reading before charging resumes |
| TwinRules.StepKeepsSegments | backend/app/twin.py:417-428 | one reading records only a gap-free discharge segment |
| TwinRules.RecordedSegmentsAreDischarges | backend/app/twin.py:412-440 | every recorded segment starts after a charge, lies in a non-charging stretch and is gap-free; segments are in order and disjoint |
| TwinRules.NoChargeNoSegments | backend/app/twin.py:435-440 | data that never charges yields no segment, because a discharge already under way when the data begins is skipped |
| TwinRules.RecentRows | backend/app/twin.py:384-405 | the window is the newest `query_size` rows, in ascending order |
| TwinRules.Timestamps | backend/app/twin.py:384-405 | the timestamp column is the table's, row for row |
| TwinRules.HasLongGap | backend/app/twin.py:419-422 | the gap test is true exactly when two consecutive readings in the scanned range are more than 5 minutes apart |
| TwinRules.CollectDepths | backend/app/twin.py:410-440 | the loop collects the voltage drop of every recorded segment, in order |
| TwinRules.ScanRow | backend/app/twin.py:415-438 | one row moves the pending start and stop, and records the pending segment, exactly as the detector's step does |
| TwinRules.CollectRow | backend/app/twin.py:412-438 | one row takes the detector from its state after the rows before it to its state after this row, the depths following the recorded segments |
| TwinRules.DepthsSnoc | backend/app/twin.py:423 | recording one more segment appends its voltage drop to the depths |
| TwinRules.LowDepthOfDischargeCheck | backend/app/twin.py:375-451 | the check is true only when the 12-hour window, sized with the fetch failures `get_query_size` catches, yields more than 4 segments whose mean drop is below the threshold; a raise from the table load or the row fetch answers false |
| TwinRules.RunStart | backend/app/twin.py:135-145 | the above-90 run that is open at a reading began at the first reading of an unbroken stretch above 90 |
| TwinRules.IdleAndHighSoc | backend/app/twin.py:122-147 | an empty block gives no features; otherwise the loop returns the idle seconds and the above-90 seconds |
| TwinRules.IdleWithinSpan | backend/app/twin.py:130-133 | idle time is never negative and never exceeds the span of the block |
| TwinRules.HighWithinSpan | backend/app/twin.py:135-145 | closed above-90 time plus the still-open run never exceeds the span of the block |
| TwinRules.NeverHighNoHighTime | backend/app/twin.py:135-145 | a block that never exceeds 90 accumulates no above-90 time |
| TwinRules.NoLongGapNoIdle | backend/app/twin.py:130-133 | a block without a gap over 5 minutes accumulates no idle time |
| TwinRules.AfterFeatureAttempt | backend/app/twin.py:32-43 | a feature row is added only for a cycle of at least 200, divisible by 10, not already recorded and successfully computed; nothing else changes |
| TwinRules.FeatureStore.AddToPredictionFeatures | backend/app/twin.py:32-165 | the store becomes `AfterFeatureAttempt` of its old contents |
| TwinRules.OneDueCyclePerTen | backend/app/battery.py:176-187 | from cycle 200 on, exactly one cycle in every ten passes the gate: a first computed attempt at it records a feature row |
| TwinRules.GateCycle | backend/app/twin.py:32-35 | a first computed attempt records a row exactly for a cycle of at least 200 that is divisible by 10 |
| TimeTable.InsertByTimeContents | backend/app/battery.py:142-170 | an insert adds exactly the new row to the table's multiset |
| TimeTable.InsertByTimeOrdered | backend/app/battery.py:65-73 | an insert keeps the table strictly ordered by its timestamp primary key; a duplicate key leaves it unchanged |
| TimeTable.InsertByTimeStores | backend/app/battery.py:142-170 | after an insert, a row with the new timestamp is stored |
| ChartWindow.MostRecent | backend/app/battery.py:323-349 | the query returns the newest 250 rows (or all rows), newest first |
| ChartWindow.MostRecentIsNewestFirst | backend/app/battery.py:329 | over a chronological table those rows are strictly newest first |
| ChartWindow.Series | backend/app/battery.py:351-366 | the corrected series keeps no more points than were fetched, each a fetched point on the date of the newest fetched row |
| ChartWindow.SeriesAsWritten | backend/app/battery.py:351-366 | the series as written keeps no more points than were fetched, each a fetched point on the date of the last (oldest) fetched row |
| ChartWindow.CollectKeepsDayAndGap | backend/app/battery.py:354-363 | the loop keeps only rows on the chosen date, stops at the first gap beyond the limit, and keeps every step within it |
| ChartWindow.CollectNewestFirst | backend/app/battery.py:354-363 | the collected rows stay newest first |
| ChartWindow.SeriesIsChronological | backend/app/battery.py:365-366 | the reversed series is chronological |
| ChartWindow.CollectSeries | backend/app/battery.py:351-366 | the loop and reversal compute `SeriesOn` |
| ChartWindow.SeriesGapsBounded | backend/app/battery.py:358-360 | consecutive points of a series are never further apart than the gap limit |
| ChartWindow.SeriesEndsAtNewest | backend/app/battery.py:356 | the corrected filter keeps the newest row's date, so the series ends at the newest row |
| ChartWindow.AsWrittenShowsOldestDate | backend/app/battery.py:356 | the filter as written keeps the oldest fetched row's date: a table spanning midnight charts only the earlier day |
| ChartWindow.ChartOfChronological | backend/app/battery.py:349-366 | over a chronological table the corrected chart (newest date) is empty only for an empty table, chronological, gap-bounded, ends at the table's newest row and stays on its date |
| ChartWindow.OnDay | backend/app/battery.py:356-357 | the rows of one date, in order |
| ChartWindow.SameDayClose | backend/app/battery.py:359 | two instants on one date are less than a day apart |
| ChartWindow.DayLimitNeverBreaks | backend/app/battery.py:358-360 | with a one-day limit the `break` never fires: the series is the whole date |
| MeshDirectory.NodesOfMembers | backend/app/battery.py:258-265 | a root's nodes are exactly the records whose root is that root |
| MeshDirectory.ViewHoldsOnlyRoots | backend/app/battery.py:267-268 | the answer lists only records without a root, each carrying as nodes exactly the records that name it (when its id is truthy) |
| MeshDirectory.ViewHoldsEveryRoot | backend/app/battery.py:267-268 | every record without a root appears in the answer |
| MeshDirectory.EspDictFindsRows | backend/app/battery.py:250-257 | with distinct ids, the dictionary finds every record under its id |
| MeshDirectory.NodeIdsOfRoots | backend/app/battery.py:258-259 | the node lists are keyed by truthy root ids, and hold each root's node ids in order |
| MeshDirectory.Ids | backend/app/battery.py:259 | the id list is the records' ids, in order |
| MeshDirectory.CollectIds | backend/app/battery.py:250-259 | the first loop builds the record dictionary and the per-root node lists |
| MeshDirectory.LookUp | backend/app/battery.py:264-265 | looking node ids up yields the node records |
| MeshDirectory.AttachNodes | backend/app/battery.py:262-265 | only roots present in the dictionary get their nodes attached |
| MeshDirectory.KeepRoots | backend/app/battery.py:267-268 | the final filter returns `InfoView` |
| MeshDirectory.Info | backend/app/battery.py:237-268 | `info` returns `InfoView`: only roots, each with its nodes |
| BackendBattery.Scale | backend/app/battery.py:149-164 | each scaled value times the divisor is the raw value |
| BackendBattery.ToRow | backend/app/battery.py:142-168 | V, I, aT and cT are stored as raw/10, cell V, I and T as raw/100, and Q, H, C, OTC, CC, wifi and the position unchanged |
| BackendBattery.SetLiveEffect | backend/app/battery.py:131-133 | setting liveness changes only that device's live flag and time, and a failure changes nothing |
| BackendBattery.DirectoryStepEffect | backend/app/battery.py:123-133 | recording a device creates or updates exactly its info row with the given root; it is live exactly when the set_live commit goes through or it already was; other rows are untouched and the directory stays keyed |
| BackendBattery.EnsureTableEffect | backend/app/battery.py:58-102 | an existing table is reused; a missing one is created empty |
| BackendBattery.StoreStepFrame | backend/app/battery.py:138-173 | storing a reading touches only its own device's table |
| BackendBattery.StoreStepRows | backend/app/battery.py:138-173 | the table keeps every old row; when the insert goes through it holds the reading's timestamp, and when any exception in the try rolls the insert back the table is as before (created empty if it was missing) |
| BackendBattery.StoreStepOrdered | backend/app/battery.py:140-170 | storing keeps every table in timestamp order |
| BackendBattery.DirectoryStaysKeyed | backend/app/battery.py:116-136 | a batch keeps the directory consistent with its order list |
| BackendBattery.TablesOnlyGrow | backend/app/battery.py:116-173 | a batch only adds rows and keeps every table ordered |
| BackendBattery.OnlyReportingDevicesGetRows | backend/app/battery.py:120-121 | a batch creates info rows only for devices that sent an element with nonzero current |
| BackendBattery.OnlyReportingDevicesGetTables | backend/app/battery.py:120-121 | a batch creates data tables only for devices that sent an element with nonzero current |
| BackendBattery.OnlyReportingDevicesGetFeatures | backend/app/battery.py:120-121 | a batch records feature rows only for devices that sent an element with nonzero current |
| BackendBattery.ZeroCurrentSkipped | backend/app/battery.py:120-121 | an element with current exactly 0 changes nothing: battery_info, the tables and the feature rows after it equal those before it |
| BackendBattery.SilentDevicesKeepInfo | backend/app/battery.py:115-136 | the info row of a device with no nonzero-current element in the batch is left exactly as it was |
| BackendBattery.SilentDevicesKeepTables | backend/app/battery.py:115-173 | the table of a device with no nonzero-current element in the batch is left exactly as it was |
| BackendBattery.NewRowsComeFromReadings | backend/app/battery.py:138-170 | every row a batch adds to a table is the stored form of an element of that device with nonzero current and an insert that was not rolled back, under the element's timestamp |
| BackendBattery.RootsAfterBatch | backend/app/battery.py:114-133 | element 0's device ends up with no root and every later one with element 0's id (for its last successful write), and is live when that element's set_live commit goes through |
| BackendBattery.RowStays | backend/app/battery.py:134-173 | a stored row survives the rest of the batch, whatever later elements fail |
| BackendBattery.RowLands | backend/app/battery.py:139-170 | a reporting element with a parsable timestamp whose insert is not rolled back has a row of that timestamp in its table after the batch |
| BackendBattery.VisibleRows | backend/app/battery.py:244-250 | `info` sees exactly the rows a superuser or the owner may see, with distinct ids |
| BackendBattery.VisibleMembers | backend/app/battery.py:244-250 | a record is returned exactly when it belongs to a listed row the user may see (superuser, or owner) |
| BackendBattery.VisibleDistinct | backend/app/battery.py:244-250 | the returned records come from the listed rows and have distinct ids |
| BackendBattery.ZeroRootHidden | backend/app/battery.py:258 | a root id of 0 is falsy, so it gathers no nodes |
| BackendBattery.Project | backend/app/battery.py:324-339 | for a column of the table, the column is read row by row with its timestamp |
| BackendBattery.ColumnValueDefined | backend/app/battery.py:64-97 | a row has a value for a name exactly when the name is one of the table's 25 columns |
| BackendBattery.ChartOfTable | backend/app/battery.py:341-366 | a non-empty ordered table charts, with the corrected date filter, a chronological series on its newest date ending at its newest row |
| BackendBattery.ChartAnswerShape | backend/app/battery.py:318-369 | a known device and a column of the table chart its corrected series, and an empty table answers `{}` with 404 |
| BackendBattery.SentinelAnswered | backend/app/battery.py:315-316 | "unavailable!", "undefined" and "" answer `{}` with 200 |
| BackendBattery.ChartServerError | backend/app/battery.py:318-326 | the answer is a server error exactly when the id is not a sentinel and names no stored device, or the column is not one of the table's, whatever the table holds |
| BackendBattery.Backend.SetLiveWebsocket | backend/app/battery.py:131-133 | updates the directory as `SetLive`, tables unchanged |
| BackendBattery.Backend.GetBatteryDataTable | backend/app/battery.py:51-102 | returns the existing table unchanged, or creates an empty one |
| BackendBattery.Backend.RecordInfo | backend/app/battery.py:123-133 | updates the directory as `DirectoryStep`, the set_live commit failing or not |
| BackendBattery.Backend.StoreReading | backend/app/battery.py:138-173 | updates the tables as `StoreStep`: the table is kept or created, then the insert is rolled back on a bad or duplicate key or any other exception in the try |
| BackendBattery.Backend.FeatureGate | backend/app/battery.py:176-187 | a reading's cycle is `CC - 1`, passed through the feature gate |
| BackendBattery.Backend.UpdateBatteryData | backend/app/battery.py:108-187 | an empty batch changes nothing; otherwise the state becomes `IngestPrefix` of the whole batch, under the given info, set_live, insert and feature failures |
| BackendBattery.Backend.IngestElement | backend/app/battery.py:120-185 | one element moves the database from the state after the elements before it to the state after it, with its own info, set_live, insert and feature failures |
| BackendBattery.Backend.Info | backend/app/battery.py:235-268 | returns `InfoView` of the visible rows |
| BackendBattery.Backend.ChartData | backend/app/battery.py:308-369 | returns `ChartAnswer` |
| WebsiteDb.ToRow | website/app/db.py:79-101 | V, I, aT, cT and the cell values are all stored as raw/10; Q, H, OTC and wifi unchanged |
| WebsiteDb.SetLiveEffect | website/app/db.py:109-119 | only that device's live flag and time change; a failure changes nothing |
| WebsiteDb.InfoStepEffect | website/app/db.py:52-70 | the info row is created or updated with the given root and stamped now; it is live exactly when the set_live commit goes through or it already was; other rows are untouched |
| WebsiteDb.StoreStepFrame | website/app/db.py:75-106 | storing touches only the element's own table |
| WebsiteDb.StoreStepRows | website/app/db.py:75-106 | old rows stay, and the insert's timestamp is stored when it succeeds |
| WebsiteDb.StoreStepOrdered | website/app/db.py:137 | every table stays ordered by its timestamp key |
| WebsiteDb.DirectoryStaysKeyed | website/app/db.py:47-73 | a batch keeps the directory consistent |
| WebsiteDb.OnlyBatchDevicesGetRows | website/app/db.py:47-73 | only devices in the batch gain info rows |
| WebsiteDb.RootsAfterBatch | website/app/db.py:45-70 | every element is upserted (no zero-current filter): element 0 gets no root and the others element 0's id, live when that element's set_live commit goes through |
| WebsiteDb.TablesStayOrdered | website/app/db.py:75-106 | a batch keeps every table ordered |
| WebsiteDb.TablesForBatch | website/app/db.py:76 | after a batch, every batch device has a table and no other table appears |
| WebsiteDb.RowsAfterSuffix | website/app/db.py:104-106 | a stored row survives later failures in the batch |
| WebsiteDb.RowLands | website/app/db.py:77-103 | an element whose insert succeeds has its row in its table |
| WebsiteDb.RecordsDistinct | website/app/db.py:215 | the directory lists each device once, in order |
| WebsiteDb.Project | website/app/db.py:282 | for a column of the table, the column is read row by row with its key |
| WebsiteDb.ColumnValueDefined | website/app/db.py:137-157 | a row has a value for a name exactly when the name is one of the table's 21 columns, `t` and `wifi` included |
| WebsiteDb.ChartAnswerShape | website/app/db.py:274-310 | a known device and a column of the table chart the corrected series, chronological on the newest date with steps of at most 5 minutes; an empty table charts `[]` |
| WebsiteDb.ChartServerError | website/app/db.py:272-282 | the answer is a server error exactly when the id is not "unavailable!" and names no stored device, or the column is not one of the table's, whatever the table holds |
| WebsiteDb.Website.SetLiveWebsocket | website/app/db.py:109-119 | updates the directory as `SetLive` |
| WebsiteDb.Website.RecordInfo | website/app/db.py:52-73 | updates the directory as `InfoStep`, the set_live commit failing or not |
| WebsiteDb.Website.GetBatteryDataTable | website/app/db.py:122-162 | reuses an existing table or creates an empty one |
| WebsiteDb.Website.StoreReading | website/app/db.py:75-106 | updates the tables as `StoreStep` |
| WebsiteDb.Website.UpdateBatteryData | website/app/db.py:39-106 | an empty batch changes nothing; otherwise every element is processed, the directory and tables becoming `DirectoryAfter` and `TablesAfter` under the given failures |
| WebsiteDb.Website.Info | website/app/db.py:207-234 | returns only roots, each with its nodes |
| WebsiteDb.Website.ChartData | website/app/db.py:268-310 | returns `ChartAnswer`, 404 for "unavailable!" |
| HttpBattery.Lower | website/app/battery_http.py:111 | ASCII lower-casing keeps the length and maps each character |
| HttpBattery.UpsertEffect | website/app/battery_http.py:63-83 | an existing row is updated and a new one inserted, with temperature aT/10 and voltage V/10; the parent and position are kept or left empty |
| HttpBattery.RowOf | website/app/battery_http.py:92-98 | a data row holds soc Q and temperature, voltage and current as raw/10 |
| HttpBattery.ParentsUntouched | website/app/battery_http.py:59-88 | `update_database` never changes a parent id |
| HttpBattery.LatestReadingShown | website/app/battery_http.py:63-85 | the info row shows the element's last successful reading |
| HttpBattery.AppendEffect | website/app/battery_http.py:90-104 | a row is appended to the lower-cased table, which is created when missing |
| HttpBattery.DataTablesForBatch | website/app/battery_http.py:90 | after a batch, the tables are the old ones plus one per lower-cased id |
| HttpBattery.DataAppendOnly | website/app/battery_http.py:91-104 | every table after a batch is its old rows followed by the rows of the elements sharing its name, in batch order; a name with no table after the batch gains no rows |
| HttpBattery.DataStep | website/app/battery_http.py:90-104 | one element extends its table by exactly the rows it adds to that name's new rows |
| HttpBattery.NoRowsWithoutName | website/app/battery_http.py:111 | a table gets rows only from ids that lower-case to its name |
| HttpBattery.CaseFoldedIdsShareTable | website/app/battery_http.py:111 | ids differing only in case append to one table |
| HttpBattery.TreeRecordsListed | website/app/battery_http.py:138-154 | each battery appears once, with its parent, and online exactly when some client lists its id |
| HttpBattery.ResetFlattensTree | website/app/battery_http.py:34-38 | after a reset every battery is a root with no children |
| HttpBattery.BatteryDb.ResetStructure | website/app/battery_http.py:34-38 | every parent id becomes None and nothing else changes |
| HttpBattery.BatteryDb.UpdateDatabase | website/app/battery_http.py:55-104 | an empty list returns False; otherwise every element is upserted and appended |
| HttpBattery.BatteryDb.CreateBatteryDataTable | website/app/battery_http.py:107-131 | the table name is the lower-cased id; the table is created only when missing |
| HttpBattery.BatteryDb.StoreRow | website/app/battery_http.py:91-104 | updates the data as `Append` |
| HttpBattery.BatteryDb.GetBatteries | website/app/battery_http.py:134-170 | children attach only to parents present, and only parent-less batteries are returned |
| HttpBattery.OnlineIds | website/app/battery_http.py:138-144 | a battery is online exactly when its id is in some connected client's ids |
| BatteryWs.BroadcastEffect | website/app/battery_ws.py:16-26 | an empty id or no data does nothing; otherwise `{esp_id: data}` goes only to that id's browser, and a failed send evicts it |
| BatteryWs.FanoutAsAtStart | website/app/battery_ws.py:107-109 | broadcasting a batch sends each element to its watcher, evicting exactly the batch's failed watchers |
| BatteryWs.ExpectedOnlyToWatchers | website/app/battery_ws.py:19-24 | every message goes to a browser registered under a batch element's id, with that element's data |
| BatteryWs.Ids | website/app/battery_ws.py:102 | the id list is the batch's ids in order |
| BatteryWs.RegisteredMeshTimesOut | website/app/battery_ws.py:105-138 | a registered mesh survives a sweep exactly while it is at most 30 s old, keeping its ids |
| BatteryWs.FreshShrinksOverTime | website/app/battery_ws.py:134-138 | later sweeps keep fewer entries, and sweeping twice at once equals sweeping once |
| BatteryWs.OnlineAfterSweep | website/app/battery_ws.py:134-138 | after a sweep, an id is online exactly when a client updated within 30 s lists it |
| BatteryWs.Hub.BroadcastTo | website/app/battery_ws.py:16-26 | updates the browsers and sends as `Broadcast` |
| BatteryWs.Hub.EspMessage | website/app/battery_ws.py:93-117 | an empty batch is skipped; otherwise the mesh is registered, each element broadcast, the database updated and "Ok" sent |
| BatteryWs.Hub.Register | website/app/battery_ws.py:102-105 | `esp_clients[ids[0]]` becomes `{ws, ids, last_updated}` |
| BatteryWs.Hub.BroadcastBatch | website/app/battery_ws.py:107-109 | every element is broadcast in turn |
| BatteryWs.Hub.BrowserConnect | website/app/battery_ws.py:53-56 | a browser is registered under the `esp_id` it watches |
| BatteryWs.Hub.BrowserClose | website/app/battery_ws.py:70-72 | the handler's entry is deleted when present |
| BatteryWs.Hub.CheckOnline | website/app/battery_ws.py:124-139 | removes exactly the entries last updated more than 30 s ago |
| WsRegistry.Remove | test_website/app/ws.py:42 | removing a key from the order list keeps the other keys |
| WsRegistry.RemoveDistinct | test_website/app/ws.py:42 | removal keeps the order list duplicate-free |
| WsRegistry.RemoveKeepsOrdered | test_website/app/ws.py:140 | removal keeps the order list in step with the dictionary |
| WsRegistry.NotifyAsAtStart | test_website/app/ws.py:130-140 | notifying sends and evicts as decided by the registry at the start |
| WsRegistry.NotifySendsAsAtStart | test_website/app/ws.py:130-137 | the messages sent are those due to the browsers present at the start |
| WsRegistry.NotifyClientsAsAtStart | test_website/app/ws.py:138-140 | exactly the watchers whose send fails are deleted |
| WsRegistry.NotifyOneEffect | test_website/app/ws.py:131-140 | one browser is messaged if it watches the id, and deleted if its send fails |
| WsRegistry.Notify | test_website/app/ws.py:123-140 | the corrected walk deletes only watchers whose send fails, leaves every other entry as it was, and only appends to the sent log |
| WsRegistry.NotifyAsWritten | test_website/app/ws.py:123-140 | the walk as written agrees with the corrected one whenever no send fails; it only deletes entries and only appends to the log |
| WsRegistry.NotifyReachesEveryWatcher | test_website/app/ws.py:128-140 | the corrected loop messages every watcher of the id and deletes exactly the failed ones |
| WsRegistry.SendsExactlyToWatchers | test_website/app/ws.py:130-137 | a message is sent exactly to each live browser watching the id, tagged with its browser id |
| WsRegistry.SendsFrame | test_website/app/ws.py:130-137 | what is sent depends only on the listed browsers' entries |
| WsRegistry.AsWrittenSkipsLaterWatchers | test_website/app/ws.py:130-140 | as written, deleting during the dictionary iteration raises and skips later watchers |
| WsRegistry.Route | test_website/app/ws.py:59-60 | a route is a root whose mesh contains the node |
| WsRegistry.RouteIsFirstCarrier | test_website/app/ws.py:59-69 | the request goes to the first root (in insertion order) whose mesh contains the node, or nowhere if none does |
| WsRegistry.Owner | test_website/app/ws.py:112-113 | the owner is an entry holding that socket |
| WsRegistry.OwnerHoldsSocket | test_website/app/ws.py:112-119 | the first entry owned by the socket is found, or none exists |
| WsRegistry.NotifyEachKeepsOrdered | test_website/app/ws.py:100-101 | notifying each id keeps the registry consistent and only appends messages |
| WsRegistry.Registry.BrowserConnect | test_website/app/ws.py:23-29 | a browser is registered under its browser_id with its esp_id |
| WsRegistry.Registry.BrowserDisconnect | test_website/app/ws.py:40-43 | the browser's entry is removed when its handler exits |
| WsRegistry.Registry.UpdateBrowsers | test_website/app/ws.py:123-140 | updates the browser side as the corrected `Notify` |
| WsRegistry.Registry.UpdateBrowser | test_website/app/ws.py:130-140 | one step of the walk, in place: a watcher with a working socket gets a status update, a watcher whose send fails is deleted, any other browser is left alone |
| WsRegistry.Registry.ForwardToEsp | test_website/app/ws.py:46-69 | an empty target does nothing; otherwise one request goes to the first carrying root, tagged with root and node id |
| WsRegistry.Registry.RegisterMesh | test_website/app/ws.py:94-98 | `esp_clients[ids[0]]` holds the socket and every id of the batch |
| WsRegistry.Registry.UpdateEach | test_website/app/ws.py:100-101 | every batch id is notified in turn |
| WsRegistry.Registry.EspMessage | test_website/app/ws.py:86-107 | an empty batch is skipped; otherwise the mesh is registered, and the reply is "OK" only when storage succeeds, else "error" (browsers notified by the corrected walk) |
| WsRegistry.Registry.FindOwner | test_website/app/ws.py:112-119 | the first root entry, in registry order, whose socket is the closing one; none exactly when no entry holds that socket |
| WsRegistry.Registry.EspDisconnect | test_website/app/ws.py:110-120 | only the entry owned by the socket is removed; its mesh ids are reported offline and notified by the corrected walk |
| DateFormat.Pow10 | website/utils.py:51 | powers of ten are positive |
| DateFormat.Zeros | website/utils.py:51 | a run of zeros of the given length |
| DateFormat.ZeroPad | website/utils.py:51 | zero-padding never shortens below the width |
| DateFormat.FixedDigits | website/utils.py:51 | a fixed-width rendering is all digits |
| DateFormat.FixedDigitsOfZero | website/utils.py:51 | zero renders as all zeros |
| DateFormat.DecimalLength | website/utils.py:51 | a number below 10^w has at most w digits |
| DateFormat.ZeroPadIsFixedDigits | website/utils.py:51 | `{d:06d}` of a number below 10^6 is its six low digits |
| DateFormat.LastTwoDigits | website/utils.py:53-55 | the last two characters depend only on d mod 100 |
| DateFormat.RemainderDigits | website/utils.py:53-55 | the tens and units digits of a number are those of its remainder modulo 100 |
| DateFormat.SplitLastTwo | website/utils.py:53-55 | a fixed-width rendering splits into its head and its last two digits |
| DateFormat.TwoDigitsValue | website/utils.py:53-55 | two digits read back as their number |
| DateFormat.DateToString | website/utils.py:47-57 | the date is at least ten characters, ends in "-MM-DD", and begins "20" unless it is 0 |
| DateFormat.DateLayout | website/utils.py:51-57 | a non-zero DDMMYY date renders as "20YY-MM-DD", ten characters |
| DateFormat.DateReadsBack | website/utils.py:51-57 | the year, month and day fields read back as d mod 100, d/100 mod 100 and d/10000 mod 100 |
| DateFormat.ZeroPadDigitsOrDash | website/utils.py:51 | padding yields only digits and a sign |
| DateFormat.DateHasNoT | website/utils.py:47-57 | a rendered date never contains 'T' |
| DateFormat.Timestamp | website/utils.py:76 | the timestamp ends with 'T' and the time, after a date of at least ten characters |
| DateFormat.TimestampSplits | website/utils.py:74-76 | the timestamp is the date, 'T', then the time, and splits back at its first 'T' |
| DateFormat.CorrectedVoltage | website/utils.py:4-15 | the corrected voltage is never lower, and differs exactly below 25 °C |
| DateFormat.CorrectionShape | website/utils.py:4-15 | the corrected voltage is unchanged at 25 °C or above, grows as it gets colder, by at most 1.5 mV per degree |
| SlotTables.First | ESP32/main/src/WS.c:33-36 | the first slot satisfying the test, or none |
| SlotTables.Truncated | ESP32/main/src/WS.c:38-39 | the stored token is the prefix of at most length−1 characters |
| SlotTables.TruncatedIdempotent | ESP32/main/src/WS.c:38-39 | truncating twice equals truncating once |
| SlotTables.Added | ESP32/main/src/WS.c:32-47 | adding keeps the table's size |
| SlotTables.Removed | ESP32/main/src/WS.c:49-60 | removing keeps the table's size |
| SlotTables.AddFresh | ESP32/main/src/WS.c:32-47 | an unknown descriptor fills the first free slot, a full table is unchanged, and distinctness and tidiness are kept |
| SlotTables.AddThenRemove | ESP32/main/src/WS.c:32-60 | removing a just-added descriptor gives the table back |
| SlotTables.RemoveForgets | ESP32/main/src/WS.c:49-60 | after removal the descriptor is gone and the table stays well formed |
| SlotTables.LateDuplicateAdded | ESP32/main/src/WS.c:33-36 | a descriptor held after the first free slot is registered a second time |
| SlotTables.OccursInTail | ESP32/main/src/WS.c:68-69 | an occurrence after the first character is an occurrence in the tail |
| SlotTables.Find | ESP32/main/src/WS.c:68-78 | `strstr` finds the first occurrence, or reports there is none |
| SlotTables.SkipSpaces | ESP32/main/src/WS.c:75-77 | leading white space is dropped, and only that |
| SlotTables.Scan | ESP32/main/src/WS.c:75-77 | a `%50s` / `%50[^&]` conversion takes the longest prefix of at most 50 allowed characters |
| SlotTables.ScanTakesAll | ESP32/main/src/WS.c:75 | a short token without stop characters is taken whole |
| SlotTables.Handshake | ESP32/main/src/WS.c:62-94 | a URI with neither prefix is refused; an admitted client holds the current non-empty token, cut to the buffer, is a browser exactly for the browser prefix, and a mesh client only with "esp_id=" |
| SlotTables.AdmitsOnlyCurrentToken | ESP32/main/src/WS.c:85-90 | only a non-empty token equal to the current one is admitted, and no token is admitted when none is current |
| SlotTables.MeshWithoutEspIdRefused | ESP32/main/src/WS.c:78-82 | a mesh handshake without `esp_id=` fails |
| SlotTables.BrowserAdmitted | ESP32/main/src/WS.c:68-90 | a browser presenting the current token is admitted as a browser with id 0 |
| SlotTables.MessageSlot | ESP32/main/src/WS.c:153-168 | the slot chosen is the first that is the node's or empty, and none exactly when every slot belongs to another node |
| SlotTables.Upserted | ESP32/main/src/WS.c:153-168 | the message table keeps its size |
| SlotTables.UpsertKeepsOneSlotPerNode | ESP32/main/src/WS.c:153-168 | a node's message replaces its slot or takes the first empty one, else is dropped; one slot per node is kept |
| SlotTables.NewName | ESP32/main/src/WS.c:209-215 | the new device name is at most six characters |
| SlotTables.NewNameOfTwoDigits | ESP32/main/src/WS.c:211-212 | for 1 to 99 the name is "bms_" and two digits |
| SlotTables.NewNameReadsBack | ESP32/main/src/WS.c:211-213 | the name reads back as the new id |
| SlotTables.NewNameCutsLongIdentifiers | ESP32/main/src/WS.c:211-212 | an id of 100 or more is cut to two digits |
| SlotTables.TwoDigits | ESP32/main/src/WS.c:211 | a two-digit number renders as its two digits |
| SlotTables.PairValue | ESP32/main/src/WS.c:211 | two digits read as 10a+b |
| SlotTables.PairDigitsValue | ESP32/main/src/WS.c:211 | the two digits written for a number below 100 read back as it |
| SlotTables.PerformRequest | ESP32/main/src/WS.c:181-335 | a failed or unsupported request has no effect, and a request has at most two effects |
| SlotTables.RequestResult | ESP32/main/src/WS.c:189-331 | ESP_FAIL exactly for a missing type or content (or missing data where a request needs it), ESP_ERR_NOT_SUPPORTED for other types, and no effect on failure |
| SlotTables.DeviceNameRule | ESP32/main/src/WS.c:209-210 | the device is renamed exactly for a nonzero new id different from its own |
| SlotTables.ThresholdWritten | ESP32/main/src/WS.c:234-244 | the OTC threshold is written, as two little-endian bytes, exactly when it differs from the stored one |
| SlotTables.LowBytes | ESP32/main/src/WS.c:238-240 | two little-endian bytes hold the value mod 65536 |
| SlotTables.WsServer.AddClient | ESP32/main/src/WS.c:32-47 | the slot loop computes `Added` |
| SlotTables.WsServer.RemoveClient | ESP32/main/src/WS.c:49-60 | the slot loop computes `Removed` |
| SlotTables.WsServer.OpenSession | ESP32/main/src/WS.c:62-94 | a refused handshake fails and changes nothing; an admitted one adds the client and clears the token (single use) |
| SlotTables.WsServer.QueueMeshMessage | ESP32/main/src/WS.c:146-169 | no `esp_id` fails; otherwise the message is upserted |
| SlotTables.WsServer.HandleText | ESP32/main/src/WS.c:122-179 | a browser's message performs the request; a mesh client's is queued |
| FirmwareUtils.Pow256 | main/src/utils.c:146-149 | powers of 256 are positive |
| FirmwareUtils.LeastFirst | main/src/utils.c:146-149 | n bytes, least significant first |
| FirmwareUtils.Packed | main/src/utils.c:146-149 | the packing has n bytes |
| FirmwareUtils.ByteOfIsLeastFirst | main/src/utils.c:148 | byte k of the least-first packing is (x >> 8k) & 0xFF |
| FirmwareUtils.PackedRoundTrip | main/src/utils.c:146-149 | `little_endian` false packs least significant first and true most significant first; both read back as the input |
| FirmwareUtils.LeastFirstReadsBack | main/src/utils.c:146-149 | the least-significant-first bytes of a number below 256^n read back little-endian as the number |
| FirmwareUtils.ReversedReadsBack | main/src/utils.c:146-149 | those bytes reversed read back big-endian as the number |
| FirmwareUtils.ConvertUintToNBytes | main/src/utils.c:146-149 | the loop writes `Packed` into the first n bytes and nothing else |
| FirmwareUtils.FirstDifference | main/src/utils.c:294-300 | equal prefixes end before the first difference |
| FirmwareUtils.CompareFromMeaning | main/src/utils.c:295-299 | the comparison loop is 0 for equal, −1 for lexicographically smaller, 1 for larger |
| FirmwareUtils.CompareMacIsLexicographic | main/src/utils.c:294-300 | `compare_mac` is a lexicographic comparison returning −1, 0 or 1, and antisymmetric |
| FirmwareUtils.CompareFromRange | main/src/utils.c:295-299 | the result is −1, 0 or 1 |
| FirmwareUtils.GetBlockIsBlockOfOffset | main/src/utils.c:287-292 | `get_block(0)` is 0; otherwise it is (offset−1)/32, the block holding the offset |
| FirmwareUtils.TokenChars | main/src/utils.c:199-201 | one character per draw |
| FirmwareUtils.CharsetLayout | main/src/utils.c:196-197 | the charset has 62 characters, A–Z, a–z, 0–9 |
| FirmwareUtils.TokenIsAlphanumeric | main/src/utils.c:199-201 | every token character is alphanumeric |
| FirmwareUtils.CharsetHasEveryAlphanumeric | main/src/utils.c:196 | every alphanumeric character can be drawn |
| FirmwareUtils.RandomToken | main/src/utils.c:195-203 | the key holds charset characters and a null in its last position |
| FirmwareUtils.HexTable | main/src/utils.c:173 | the hex table maps each nibble to its uppercase digit |
| FirmwareUtils.HexDigitValue | main/src/utils.c:158-159 | a hex digit's value is below 16 |
| FirmwareUtils.HexDigitReadsBack | main/src/utils.c:159-186 | an uppercase hex digit reads back as its nibble |
| FirmwareUtils.Escape | main/src/utils.c:184-186 | an escape is three characters |
| FirmwareUtils.Encoded | main/src/utils.c:176-191 | the encoding never exceeds the room |
| FirmwareUtils.EncodedStep | main/src/utils.c:177-190 | unreserved characters (RFC 3986 section 2.3) are copied; others become %HH (section 2.1) if more than three places remain, otherwise encoding stops |
| FirmwareUtils.EncodeAt | main/src/utils.c:177-190 | one loop step writes one unit and nothing else |
| FirmwareUtils.EncodeStep | main/src/utils.c:177-190 | one loop pass either ends the encoding or writes its next unit, the rest of the source encoding the rest |
| FirmwareUtils.UrlEncode | main/src/utils.c:172-193 | the output is the encoding, null-terminated within `dest_size` |
| FirmwareUtils.EncodedIsWholeUnits | main/src/utils.c:183-189 | a cut-off encoding is the full encoding of a prefix: no partial escape |
| FirmwareUtils.EncodedAllWhenRoom | main/src/utils.c:176 | with enough room the whole string is encoded |
| FirmwareUtils.EncodedDecodesToPrefix | main/src/utils.c:151-193 | decoding an encoding gives a prefix of the input, and the whole input when the buffer suffices |
| FirmwareUtils.LeadingHexLength | main/src/utils.c:159 | `strtol` reads the leading hex digits |
| FirmwareUtils.Strtol16 | ESP32/main/src/GPS.c:37 | the hexadecimal value read lies within the 32-bit `long` range, saturating outside it |
| FirmwareUtils.HexByteOfDigits | main/src/utils.c:158-159 | two hex digits decode to 16a+b |
| FirmwareUtils.UrlDecoded | main/src/utils.c:151-170 | decoding never lengthens |
| FirmwareUtils.UrlDecodedStep | main/src/utils.c:155-167 | '%HH' becomes its byte, '+' a space, other characters themselves |
| FirmwareUtils.DecodeAt | main/src/utils.c:156-167 | one loop step writes one byte and nothing else |
| FirmwareUtils.UrlDecode | main/src/utils.c:151-170 | the output is the decoding, null-terminated |
| FirmwareUtils.EscapeDigitsReadBack | main/src/utils.c:159-186 | an escape decodes to the escaped byte |
| FirmwareUtils.DecodeUnit | main/src/utils.c:155-167 | decoding an encoded character gives the character |
| FirmwareUtils.EncodeDecodeRoundTrip | main/src/utils.c:151-193 | decode(encode(s)) = s |
| FirmwareUtils.FirstMatch | main/src/utils.c:267-275 | the first placeholder, in list order, that matches here |
| FirmwareUtils.IdentitySubstitution | main/src/utils.c:265-281 | substituting each placeholder by itself changes nothing |
| FirmwareUtils.NoPlaceholderNoChange | main/src/utils.c:265-281 | text without placeholders is copied unchanged |
| FirmwareUtils.SinglePlaceholderLength | main/src/utils.c:244-257 | with one placeholder the output length is the input's plus the count times the size difference |
| FirmwareUtils.SinglePlaceholderAllocation | main/src/utils.c:244-260 | with one placeholder the allocation is exact |
| FirmwareUtils.AsWrittenAllocationTooSmall | main/src/utils.c:244-258 | as written, overlapping placeholders are counted separately: "AB" with A→XXXX, AB→"" leaves room for 3 characters (`malloc` of 4 bytes) while the scan writes 5 characters and the terminating NUL |
| FirmwareUtils.MatchAt | main/src/utils.c:267-276 | the match loop finds `FirstMatch` |
| FirmwareUtils.ReplacedStep | main/src/utils.c:265-281 | one scan step copies a substitute or one character |
| FirmwareUtils.ReplacedLength | main/src/utils.c:244-257 | the corrected size pass computes the output's exact length |
| FirmwareUtils.ReplaceAt | main/src/utils.c:266-280 | one scan step writes its piece and keeps what is written |
| FirmwareUtils.ReplacePlaceholder | main/src/utils.c:241-285 | a NULL argument or a failed allocation gives NULL; otherwise a fresh buffer holding the substituted text and a null |
| LinuxUtils.CLength | LINUX/main/src/utils.c:20 | the length up to the first null |
| LinuxUtils.NewEspIdOfDigits | LINUX/main/src/utils.c:18-26 | after "bms_", the leading digits are the new id |
| LinuxUtils.NewEspIdOfDigitsOnly | LINUX/main/src/utils.c:18-26 | "bms_" and the digits of a number below 256 set ESP_ID to that number |
| LinuxUtils.NewEspIdReadsNumber | LINUX/main/src/utils.c:18-26 | "bms_" plus a number's notation gives that number (mod 256) |
| LinuxUtils.Device.ChangeEspId | LINUX/main/src/utils.c:13-27 | without the "bms_" prefix nothing changes; otherwise the name is cut at the first non-digit and ESP_ID is set to the number |
| Gps.XorAll | ESP32/main/src/GPS.c:32-35 | the XOR folded from the left equals the first byte XOR the fold of the rest |
| Gps.XorAllAppend | ESP32/main/src/GPS.c:32-35 | the XOR fold distributes over concatenation |
| Gps.SingleErrorDetected | ESP32/main/src/GPS.c:32-39 | a single changed character changes the checksum |
| Gps.IndexOf | ESP32/main/src/GPS.c:29 | `strchr` finds the first '*' |
| Gps.ChecksumValid | ESP32/main/src/GPS.c:26-40 | a valid sentence starts with '$' and holds a '*' after it |
| Gps.ValidateNmeaChecksum | ESP32/main/src/GPS.c:26-40 | true iff the XOR between '$' and '*' equals the low byte of the hex number after '*', read by a `strtol` that saturates to a 32-bit `long`; false without a leading '$' or a '*' |
| Gps.OverlongChecksumSaturates | ESP32/main/src/GPS.c:37 | a number after '*' beyond the 32-bit `long` saturates: "$*100000000" reads as 0x7FFFFFFF and is rejected |
| Gps.HexPairReadsBack | ESP32/main/src/GPS.c:37 | a two-digit uppercase hex checksum reads back |
| Gps.ChecksumRoundTrip | ESP32/main/src/GPS.c:26-40 | a sentence carrying its own XOR checksum validates |
| Gps.NmeaToDecimal | ESP32/main/src/GPS.c:42-50 | a non-negative coordinate becomes non-positive for 'S' and 'W' and non-negative otherwise |
| Gps.NmeaToDecimalMeaning | ESP32/main/src/GPS.c:42-50 | ddmm.mm becomes dd + mm/60, negated exactly for 'S' or 'W' |
| Gps.Clip | ESP32/main/src/GPS.c:69-72 | a field keeps at most 9 characters |
| Gps.Table | ESP32/main/src/GPS.c:56-61 | there are always 12 fields |
| Gps.Fields | ESP32/main/src/GPS.c:63-77 | splitting on ',' or '*' fills 12 fields |
| Gps.TableStep | ESP32/main/src/GPS.c:68-74 | each separator stores the next field |
| Gps.TableOfPrefix | ESP32/main/src/GPS.c:67 | separators after the twelfth are ignored |
| Gps.AtoiOfNotation | ESP32/main/src/GPS.c:92-94 | `atoi` reads a decimal notation back |
| Gps.OpenPiece | ESP32/main/src/GPS.c:67-76 | characters that are not separators add no field |
| Gps.SentenceSegments | ESP32/main/src/GPS.c:63-77 | joining fields with separators splits back into them |
| Gps.FieldsRoundTrip | ESP32/main/src/GPS.c:63-77 | twelve short fields split back exactly |
| Gps.AsWrittenAcceptsVoidFix | ESP32/main/src/GPS.c:78-81 | as written, the void test reads the time field, so a status 'V' sentence is accepted |
| Gps.SegmentsStep | ESP32/main/src/GPS.c:67-76 | one loop step of the split |
| Gps.SegmentsGrow | ESP32/main/src/GPS.c:67-76 | the split of a prefix is a prefix of the split |
| Gps.ParseGprmcAsWritten | ESP32/main/src/GPS.c:78-99 | as written, a decoded sentence has mode 'A' and a time field other than "V"; it agrees with the corrected decode whenever neither the time nor the status field is "V" |
| Gps.Decode | ESP32/main/src/GPS.c:78-99 | a decoded sentence has mode 'A', a status field other than "V", and its time, position and date fields as sent |
| Gps.ParseGprmc | ESP32/main/src/GPS.c:52-101 | the split loop computes `Decode`: NULL for a void status or a mode other than 'A' |
| Dns.PatchHeader | ESP32/main/src/DNS.c:23-27 | only header bytes 2, 3, 6 and 7 change |
| Dns.Answer | ESP32/main/src/DNS.c:39-66 | the answer record is 16 bytes |
| Dns.Reply | ESP32/main/src/DNS.c:23-69 | the buffer keeps its size |
| Dns.HandleDnsRequest | ESP32/main/src/DNS.c:18-72 | with room, the record is appended at `len` and `len+16` bytes are sent; otherwise nothing is sent |
| Dns.WriteAnswer | ESP32/main/src/DNS.c:39-66 | the offset loop writes exactly the 16 answer bytes |
| Dns.BigEndianPair | ESP32/main/src/DNS.c:41-63 | a two-byte field is big-endian, RFC 1035 section 2.3.2 |
| Dns.AnswerReadsBack | ESP32/main/src/DNS.c:39-66 | the record reads back as an A record, class IN, TTL 3600, pointing at offset 12, holding the address (RFC 1035 sections 4.1.3 and 4.1.4) |
| Dns.ReplyMeaning | ESP32/main/src/DNS.c:23-69 | the reply keeps the ID, QDCOUNT and question, says response / no error, answers one record, and sends `len+16` bytes (RFC 1035 section 4.1.1) |
| Bms.SealedStatus | ESP32/main/src/BMS.c:82-92 | the state's security bits are bits 1 and 0 of byte 1 |
| Bms.SealedStatusMeaning | ESP32/main/src/BMS.c:82-92 | SEC1,SEC0 = 11→0, 10→1, 01→2, 00→−1; only those two bits matter |
| Bms.Unsigned16 | ESP32/main/src/BMS.c:109-112 | an unsigned 16-bit field is below 65536 |
| Bms.Signed16 | ESP32/main/src/BMS.c:115 | a signed 16-bit field lies in −32768..32767 |
| Bms.Pair | ESP32/main/src/BMS.c:108-155 | a 16-bit value packs into two bytes |
| Bms.UnsignedIsLittleEndian | ESP32/main/src/BMS.c:108-155 | hi<<8 \| lo is the little-endian value of the pair |
| Bms.PairRoundTrip | ESP32/main/src/BMS.c:108-155 | a value packed into a pair reads back, signed or unsigned, and the sign is the top bit |
| Bms.Decode | ESP32/main/src/BMS.c:95-149 | each field of the record lies in the range of its register: a byte, an unsigned or a signed 16-bit value |
| Bms.DecodeReadsOnlyItsBytes | ESP32/main/src/BMS.c:120-149 | cell values come only from DAStatus1 bytes 0-7 and 12-19 and DAStatus2 bytes 2-11 |
| Bms.DaStatus1 | ESP32/main/src/BMS.c:120-135 | a DAStatus1 block is 32 bytes |
| Bms.CellReadingsRoundTrip | ESP32/main/src/BMS.c:120-135 | cell voltages and (signed) currents packed into DAStatus1 decode back |
| Bms.TelemetryData.ReadRegisters | ESP32/main/src/BMS.c:102-115 | Q and H are single bytes, aT and V unsigned and I signed 16-bit fields |
| Bms.TelemetryData.ReadCellStatus | ESP32/main/src/BMS.c:117-135 | the cell voltages and currents come from DAStatus1 |
| Bms.TelemetryData.ReadCellTemperatures | ESP32/main/src/BMS.c:137-149 | the temperatures come from DAStatus2 bytes 2-11 |
| Bms.TelemetryData.UpdateTelemetryData | ESP32/main/src/BMS.c:95-156 | the record becomes `Decode` of the bytes read |
| BmsI2c.ReverseTwice | ESP32/main/src/I2C.c:113 | reversing twice is the identity |
| BmsI2c.WireIsLittleEndian | ESP32/main/src/I2C.c:110-166 | a big-endian-packed word or address reaches the wire least significant byte first |
| BmsI2c.WriteBlockFrameLayout | ESP32/main/src/I2C.c:161-169 | [MBA, a+d, address reversed, data], 2+a+d bytes |
| BmsI2c.ReverseInto | ESP32/main/src/I2C.c:112-113 | the reversal loop writes only its span |
| BmsI2c.CopyInto | ESP32/main/src/I2C.c:168-169 | the copy loop writes only its span |
| BmsI2c.BmsBus.ReadSbsData | ESP32/main/src/I2C.c:87-104 | the probe's error returns at once; a null or empty buffer is rejected; otherwise the register is sent and the reply copied |
| BmsI2c.BmsBus.WriteWord | ESP32/main/src/I2C.c:106-120 | sends the command followed by the word reversed, or nothing when the probe fails |
| BmsI2c.BmsBus.ReadDataFlash | ESP32/main/src/I2C.c:122-155 | sends [MBA, a, address reversed] then MBA, and copies min(size, 32) bytes from offset 1+a |
| BmsI2c.BmsBus.WriteDataFlash | ESP32/main/src/I2C.c:157-175 | sends the write frame, or nothing when the probe fails |
| DataFlash.WriteFrame | main/src/I2C.c:83-88 | the frame is the register and n data bytes |
| DataFlash.WriteFrameReadsBack | main/src/I2C.c:83-88 | the data bytes are least significant first and read back as the value |
| DataFlash.ChecksumCompletesBlock | main/src/I2C.c:196-202 | the checksum is the one byte that brings the block's 8-bit sum to 0xFF |
| DataFlash.WithValue | main/src/I2C.c:184-185 | patching keeps the block's size |
| DataFlash.ValueReadsBack | main/src/I2C.c:184-185 | the value is stored big-endian at offset%32 and offset%32+1; other bytes stay as read |
| DataFlash.WithName | main/src/I2C.c:134-136 | patching keeps the block's size |
| DataFlash.NameReadsBack | main/src/I2C.c:134-136 | ten name bytes land at offset%32; other bytes stay as read |
| DataFlash.CommitFrames | main/src/I2C.c:139-159 | a write-back is 33 frames |
| DataFlash.CommitReadsBack | main/src/I2C.c:188-208 | the gauge, replaying the frames, holds the block with a valid checksum |
| DataFlash.Completed | main/src/I2C.c:189-193 | the writes done before the first failure |
| DataFlash.CompletedUnique | main/src/I2C.c:189-193 | that count is unique |
| DataFlash.Outcome | main/src/I2C.c:189-208 | the result is ESP_OK exactly when every write succeeds |
| DataFlash.ValueCommitted | main/src/I2C.c:167-215 | a committed value reads back and the rest of the block is kept |
| DataFlash.NameCommitted | main/src/I2C.c:120-165 | a committed name reads back and the rest of the block is kept |
| DataFlash.BlockChecksum | main/src/I2C.c:197-201 | the summing loop computes `Checksum` |
| DataFlash.GaugeBus.ReadData | main/src/I2C.c:56-75 | a null or empty buffer is rejected; otherwise the register is sent and the reply copied |
| DataFlash.GaugeBus.WriteData | main/src/I2C.c:77-97 | sends the register then n bytes least significant first, returning the transmit's result |
| DataFlash.GaugeBus.ReadBytes | main/src/I2C.c:99-118 | subclass 0 reads directly; otherwise class and block are selected and BLOCK_DATA_START + offset%32 is read |
| DataFlash.GaugeBus.ReadBlock | main/src/I2C.c:123-177 | selects the block and reads 32 bytes |
| DataFlash.GaugeBus.WriteBack | main/src/I2C.c:188-208 | writes the block and checksum, stopping at the first failed write with its error |
| DataFlash.GaugeBus.SetI2Value | main/src/I2C.c:167-215 | a failed read returns its error; otherwise the patched block is committed |
| DataFlash.GaugeBus.SetDeviceName | main/src/I2C.c:120-165 | a failed read returns its error; otherwise the renamed block is committed |
| Common.Reverse | ESP32/main/src/I2C.c:113 | reversal maps index i to n−1−i |
| Common.DigitChar | LINUX/main/src/utils.c:21 | a digit character reads back as its value |
| Common.DecimalStringShape | backend/app/battery.py:318 | decimal notation is non-empty digits without a leading zero, reading back as the number |
| Common.DecimalRoundTrip | backend/app/battery.py:318 | parsing a number's notation gives the number |
| Common.DecimalCanonical | backend/app/battery.py:318 | only the canonical notation parses to a number |
| Common.LeadingDigitPositive | backend/app/battery.py:318 | digits without a leading zero denote a positive number |
| Common.LeadingDigits | LINUX/main/src/utils.c:20-25 | the length of the leading run of digits |
| Common.LeadingDigitsUnique | LINUX/main/src/utils.c:20-25 | that length is unique |

## Left out

- I/O is not modelled. This covers sockets, HTTP, JSON and cJSON parsing, the database engine, logging, `print` and `vTaskDelay`. Socket send failures, the database failures the source catches in a try block, bus results, clocks and random draws are parameters. This includes the raising fetches of `get_query_size` and the raising table load or row fetch of `low_depth_of_discharge_check`.
- `BackendBattery.Backend.UpdateBatteryData` processes every element. An exception outside the try blocks ends the batch in the source, leaving later elements unprocessed: `get_battery_data_table` (backend/app/battery.py:139) and the `PredictionFeatures` query with `add_to_prediction_features` (backend/app/battery.py:180-187). The model does not include that abort.
- `BackendBattery.Backend.IngestElement` likewise completes its element; an uncaught exception from those calls would leave the element half done and end the batch.
- `WebsiteDb.Website.UpdateBatteryData` processes every element. An exception from `get_battery_data_table` (website/app/db.py:76), outside the try blocks, ends the batch in the source; the model does not include that abort.
- `HttpBattery.BatteryDb.UpdateDatabase` upserts and appends every element. An exception from `create_battery_data_table` (website/app/battery_http.py:90), outside the try blocks, ends the loop in the source; the model does not include that abort.
- The locks in the WebSocket handlers are left out. Every handler is a sequential state transition.
- Floating point is left out:
  - timestamps are whole seconds;
  - readings are `int` or `real`;
  - GPS coordinates other than the sign rule are kept as text;
  - `time_to_string`, `estimate_soc_per_cell` and the `process_telemetry_data` charge estimates are left out.
- The machine-learning parts of `twin.py` are left out: the features that need NumPy (capacity, temperature, depth over 50 cycles), `predict_soh` and training. `TwinRules.FeatureStore.AddToPredictionFeatures` takes "computed" as a parameter.
- `TwinRules.LowDepthOfDischargeCheck`: the mean-below-threshold test compares a real mean. The clean-start and segment logic are exact.
- `MeshDirectory.Info`, `WebsiteDb.Website.Info` and `HttpBattery.BatteryDb.GetBatteries` hold one level of nodes or children (`MeshDirectory.RootView` and its counterparts). The source's node objects are shared Python dictionaries: BackendBattery's `info`, the website's `info` (website/app/db.py:227-231) and `get_batteries` (website/app/battery_http.py:155-160). A node that is itself a root of others would carry its own nodes in the JSON.
- `BackendBattery.Backend.ChartData`: the device id must be the decimal notation of an integer key, as the integer primary key requires. The `timestamp` column is charted as seconds and `wifi` as 1 or 0, since every point value is a number here.
- `BackendBattery.Backend.ChartData` models the corrected date filter, the newest fetched row's date (`ChartWindow.Series`). The source filters on `rows[-1]`, the oldest fetched row (see Findings; `ChartWindow.SeriesAsWritten` is the filter as written).
- `BackendBattery.ChartAnswer` models the corrected date filter, as above.
- `BackendBattery.ChartOfTable` states the chart under the corrected date filter, as above.
- `BackendBattery.ChartAnswerShape` states the answer under the corrected date filter, as above.
- `ChartWindow.ChartOfChronological` states the chart under the corrected date filter, as above.
- `ChartWindow.MostRecent` takes the fetched rows to come newest first. The outer `select` over the subquery (backend/app/battery.py:341, website/app/db.py:285) has no ORDER BY, so SQL itself does not promise that order.
- `WebsiteDb.Website.ChartData` models the corrected date filter, as above; website/app/db.py:296 filters on `rows[-1]` as well.
- `WebsiteDb.ChartAnswer` models the corrected date filter, as above.
- `WebsiteDb.ChartAnswerShape` states the answer under the corrected date filter, as above.
- `WebsiteDb.Website.ChartData`: the rows are fetched after the connection's `with` block has closed. The model treats the fetch as buffered.
- `BatteryWs.Hub.CheckOnline` models the sweep without its first step, the call to `update_structure` (website/app/battery_ws.py:132-133). As written, that call raises ValueError when any registered mesh has an id list of other than two items, because its loop unpacks each list into two names (website/app/battery_http.py:46). The sweep then evicts nothing.
- In website/app/battery_ws.py, `update_structure` (website/app/battery_http.py:41-52) is not modelled because its loop unpacks its items incorrectly. `check_online` is modelled without that call. `forward_to_esp32` and the browser handler's request forwarding are left out for the same reason.
- `BatteryWs.Hub.BrowserClose` takes the key as a parameter. In the source the key is the last `esp_id` the handler read.
- `WsRegistry.Registry.UpdateBrowsers` models the corrected walk, `Notify`. As written, deleting a browser inside the dictionary iteration makes the next step raise RuntimeError, so later watchers are not messaged and the error propagates (`WsRegistry.NotifyAsWritten`, see Findings).
- `WsRegistry.Registry.EspMessage` notifies browsers with the corrected walk. As written, a failed browser send raises out of `update_browsers`: the reply stays "error" and the remaining ids are not notified; if the `update_browsers("LIST")` call raises, the handler ends.
- `WsRegistry.Registry.EspDisconnect` notifies browsers with the corrected walk. As written, a RuntimeError from `update_browsers` in the `finally` block skips the `del esp_clients[esp_id]` and the "LIST" update.
- test_website's `update_battery_data` and `set_live_websocket` belong to test_website/app/db.py, which is not part of this model. `WsRegistry.Registry.EspMessage` models storage as a `storeFails` flag and returns the set-not-live ids as `offline`.
- `SlotTables.WsServer` starts with an all-free client table. Where the firmware initialises `client_sockets` is not part of this model.
- `SlotTables.Truncated`: the `%50s` bound and the token-length truncation are modelled. The overflow of `auth_token` when `UTILS_AUTH_TOKEN_LENGTH` is below 51 is not.
- `SlotTables.ScanByte`: `%hhu` is modelled as decimal digits mod 256. Signs and saturation are not modelled.
- `SlotTables.QueueMeshMessage`: the `strcpy` overflow of payloads of 512 bytes or more is not modelled.
- `SlotTables.PerformRequest`:
  - the response object is built but never sent, so only the result and the effects are modelled;
  - a missing OTC item (a NULL dereference) is not modelled;
  - Wi-Fi joining, NVS and gauge reset/unseal are effects, not modelled behaviour;
  - the ESP32 `change_esp_id` is not part of this model, so the Linux one, `LinuxUtils.NewEspId`, is used.
- `LinuxUtils.Device.ChangeEspId`: `atoi` overflow is not modelled. ESP_ID is a byte, so the number is taken mod 256.
- `FirmwareUtils.ConvertUintToNBytes` requires n ≤ 4 and an input below 2^32. The shift of a 32-bit `uint` by 32 bits or more is undefined behaviour.
- `FirmwareUtils.UrlDecode` requires a well-escaped source. Both variants loop forever on a '%' not followed by two characters. Invalid hex digits decode through `Strtol16`, as `strtol` reads them.
- `FirmwareUtils.ReplacePlaceholder` requires non-empty placeholders, since `strstr` with an empty placeholder never advances. It allocates the exact output length (see Findings).
- `FirmwareUtils.RandomToken` takes the random draws and the token length as parameters.
- `Gps.ParseGprmc` models the corrected void test, on field 1 (the status). The source tests field 0, the time (see Findings; `Gps.ParseGprmcAsWritten` is the code as written).
- `Gps.ParseGprmc`:
  - the initialisation loop writes `data[i][10]`, one past each 10-byte row, and this out-of-bounds write is not modelled;
  - the float fields (time, coordinates, speed, course) are kept as text;
  - `get_gps` and the UART reads are left out.
- `Dns.HandleDnsRequest` takes the access point's address as a parameter.
- `HttpBattery.Lower` folds ASCII A–Z only, so the model takes ids to be ASCII. Python's `str.lower()` (website/app/battery_http.py:111) also folds other letters and can change the length ('İ' becomes two code points).
- `HttpBattery.BatteryDb.GetBatteries` gives each battery as a `MeshDirectory.InfoRecord`: id, parent, online status and update time. The name, position, temperature and voltage of each JSON node are not carried.
- `Bms.TelemetryData`: each read's bytes are a parameter. After a failed read the source's buffers keep the bytes of the previous read; the model does not carry buffer contents from one read to the next.
- `SlotTables.NewName` models the 7-byte `snprintf` as written: a new id of 100 or more is cut to its first two digits, so id 123 renames the node "bms_12" and ESP_ID becomes 12 (`SlotTables.NewNameCutsLongIdentifiers`).
- `BmsI2c.BmsBus.ReadSbsData` takes the gauge's reply as a parameter of the requested length.
- `BmsI2c.BmsBus.WriteDataFlash` requires the address and the data to be shorter than 256 bytes each, because the loop counters are bytes.
- `DataFlash.GaugeBus`:
  - a frame whose transmit fails is not distinguished from a failed probe, and only delivered frames are logged;
  - `check_device` is folded into each transfer's result.
- Frontend, radio, mesh, FreeRTOS tasks, authentication, payments and the SQL-execution endpoints are outside this model.

## Findings

| source | as written | input that shows it | evidently intended | confidence | as-written member | corrected member |
|---|---|---|---|---|---|---|
| backend/app/battery.py:356 | keeps only rows on the date of `rows[-1]`, the oldest of the 250 newest-first rows | two rows at 23:59:59 and 00:00:01 the next day: the chart shows only the earlier day | keep the newest row's date (`rows[0]`), as the comment says | not executed | ChartWindow.AsWrittenShowsOldestDate | ChartWindow.SeriesEndsAtNewest |
| website/app/db.py:296 | keeps only rows on the date of `rows[-1]`, the oldest of the 250 newest-first rows | two rows at 23:59:59 and 00:00:01 the next day: the chart shows only the earlier day | keep the newest row's date (`rows[0]`), as the comment says | not executed | ChartWindow.AsWrittenShowsOldestDate | ChartWindow.SeriesEndsAtNewest |
| test_website/app/ws.py:130-140 | deletes from `browser_clients` while iterating over it | two browsers watching the same id, the first one's send failing: the deletion raises on the next step and the second is never messaged | message every watcher and then drop the failed ones | not executed | WsRegistry.AsWrittenSkipsLaterWatchers | WsRegistry.NotifyReachesEveryWatcher |
| main/src/utils.c:244-258 | counts each placeholder's occurrences separately, although the scan consumes overlapping matches only once | "AB" with placeholders "A"→"XXXX" and "AB"→"": room for 3 characters (4 bytes), while 5 characters and the NUL are written | allocate the length the scan actually produces | not executed | FirmwareUtils.AsWrittenAllocationTooSmall | FirmwareUtils.ReplacePlaceholder |
| ESP32/main/src/GPS.c:78-81 | tests field 0 (the time) for "V" | `$GPRMC,123519,V,...,A*..` (status void, mode 'A') is accepted | test field 1, the status | not executed | Gps.AsWrittenAcceptsVoidFix | Gps.ParseGprmc |
