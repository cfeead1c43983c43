/**
 * The backend's telemetry ingest and its read endpoints: a batch of readings
 * from one mesh updates the battery_info directory, appends a row to each
 * device's battery_data_bms_<esp_id> table and may trigger a prediction
 * feature row; `info` regroups the directory into roots and nodes and
 * `chart_data` windows one column of a device's table.
 *
 * The database is three maps: battery_info by esp_id (with the order in which
 * a query returns its rows), each device's table in primary-key (timestamp)
 * order, and the prediction_features pairs.
 */
module BackendBattery {
  import opened Common
  import MeshDirectory
  import ChartWindow
  import TwinRules
  import opened TimeTable

  // ---------------------------------------------------------------------------
  // Readings and stored rows
  // ---------------------------------------------------------------------------

  /**
   * One reading as a device sends it, in the firmware's integer units:
   * pack V, I, aT and cT in tenths, the four cell voltages, currents and
   * temperatures in hundredths. `timestamp` is the reading's date and time
   * in seconds once formatted and parsed, None when parsing fails.
   */
  datatype Content = Content(
    Q: int, H: int, C: real, V: int, I: int, aT: int, cT: int,
    cellV: CellsRaw, cellI: CellsRaw, cellT: CellsRaw,
    OTC: int, CC: int, wifi: bool, lat: real, lon: real,
    timestamp: Option<int>)

  /** The raw values of the four cells, as sent in V1-V4, I1-I4 or T1-T4. */
  type CellsRaw = s: seq<int> | |s| == 4 witness [0, 0, 0, 0]

  /** The stored values of the four cells. */
  type Cells = s: seq<real> | |s| == 4 witness [0.0, 0.0, 0.0, 0.0]

  /** One element of a batch: the sending device and its reading. */
  datatype Element = Element(espId: int, content: Content)

  /** The columns of a battery_data_bms_<esp_id> row besides its timestamp, in physical units. */
  datatype Measures = Measures(
    lat: real, lon: real, Q: int, H: int, C: real,
    V: real, cellV: Cells, I: real, cellI: Cells,
    aT: real, cT: real, cellT: Cells, OTC: int, CC: int, wifi: bool)

  /** One row of a battery_data_bms_<esp_id> table, keyed by its timestamp. */
  type Row = Stamped<Measures>

  /** Each raw value divided by `divisor`. */
  function Scale(raw: seq<int>, divisor: real): (r: seq<real>)
    requires divisor > 0.0
    ensures |r| == |raw|
    ensures forall k :: 0 <= k < |raw| ==> r[k] * divisor == raw[k] as real
  {
    if raw == [] then [] else Scale(raw[..|raw| - 1], divisor) + [raw[|raw| - 1] as real / divisor]
  }

  /**
   * The stored row of a reading: pack V, I, aT and cT are a tenth of the raw
   * value, cell values a hundredth, and Q, H, C, OTC, CC, wifi and the
   * position are kept as sent.
   */
  function ToRow(c: Content, t: int): (r: Row)
    ensures r.timestamp == t
    ensures var m := r.values;
      && m.lat == c.lat && m.lon == c.lon && m.wifi == c.wifi
      && m.Q == c.Q && m.H == c.H && m.C == c.C && m.OTC == c.OTC && m.CC == c.CC
      && m.V * 10.0 == c.V as real && m.I * 10.0 == c.I as real
      && m.aT * 10.0 == c.aT as real && m.cT * 10.0 == c.cT as real
      && |m.cellV| == |c.cellV| && (forall k :: 0 <= k < |c.cellV| ==> m.cellV[k] * 100.0 == c.cellV[k] as real)
      && |m.cellI| == |c.cellI| && (forall k :: 0 <= k < |c.cellI| ==> m.cellI[k] * 100.0 == c.cellI[k] as real)
      && |m.cellT| == |c.cellT| && (forall k :: 0 <= k < |c.cellT| ==> m.cellT[k] * 100.0 == c.cellT[k] as real)
  {
    Stamped(t, Measures(c.lat, c.lon, c.Q, c.H, c.C,
        c.V as real / 10.0, Scale(c.cellV, 100.0), c.I as real / 10.0, Scale(c.cellI, 100.0),
        c.aT as real / 10.0, c.cT as real / 10.0, Scale(c.cellT, 100.0),
        c.OTC, c.CC, c.wifi))
  }

  // ---------------------------------------------------------------------------
  // The database and the steps of one element
  // ---------------------------------------------------------------------------

  /** A battery_info row: the directory fields and the owning user, if any. */
  datatype InfoRow = InfoRow(record: MeshDirectory.InfoRecord<int>, owner: Option<int>)

  /** battery_info: the rows by esp_id, and the order in which a query returns them. */
  datatype Directory = Directory(info: map<int, InfoRow>, order: seq<int>)

  /** The database: battery_info, the per-device tables, the prediction feature pairs. */
  datatype Db = Db(dir: Directory, tables: map<int, seq<Row>>, recorded: set<(int, int)>)

  /** battery_info is keyed by esp_id and every key is listed once in query order. */
  ghost predicate DirectoryKeyed(dir: Directory)
  {
    && (forall k :: k in dir.info <==> k in dir.order)
    && (forall i, j :: 0 <= i < j < |dir.order| ==> dir.order[i] != dir.order[j])
    && (forall k :: k in dir.info ==> dir.info[k].record.espId == k)
  }

  /** Every device table is in primary-key order. */
  ghost predicate TablesOrdered(tables: map<int, seq<Row>>)
  {
    forall k :: k in tables ==> TimeOrdered(tables[k])
  }

  /**
   * The first commit for an element: the row is created when missing (no
   * owner, not live) and its root set; the update time moves to `now` when
   * the row is new or its root changes.
   */
  function AssignRoot(dir: Directory, espId: int, root: Option<int>, now: int): Directory
  {
    if espId in dir.info then
      var row := dir.info[espId];
      var changed := row.record.rootId != root;
      dir.(info := dir.info[espId := row.(record := row.record.(
        rootId := root, lastUpdated := if changed then now else row.record.lastUpdated))])
    else
      Directory(dir.info[espId := InfoRow(MeshDirectory.InfoRecord(espId, root, now, false), None)], dir.order + [espId])
  }

  /**
   * `set_live_websocket`: the live flag of an existing row; the update time
   * moves to `now` when the flag changes. A missing row (or a failed commit,
   * `fails`) is rolled back: nothing changes.
   */
  function SetLive(dir: Directory, espId: int, live: bool, now: int, fails: bool): Directory
  {
    if fails || espId !in dir.info then dir
    else
      var row := dir.info[espId];
      var changed := row.record.live != live;
      dir.(info := dir.info[espId := row.(record := row.record.(
        live := live, lastUpdated := if changed then now else row.record.lastUpdated))])
  }

  /**
   * `set_live_websocket` touches only that device's row, and there only its
   * live flag and update time; the update time stays when the flag does.
   */
  lemma SetLiveEffect(dir: Directory, espId: int, live: bool, now: int, fails: bool)
    ensures var r := SetLive(dir, espId, live, now, fails);
      && r.order == dir.order && r.info.Keys == dir.info.Keys
      && (forall k :: k in dir.info && (k != espId || fails) ==> r.info[k] == dir.info[k])
      && (espId in dir.info && !fails ==>
            && r.info[espId].record.live == live
            && r.info[espId].record.(live := dir.info[espId].record.live, lastUpdated := dir.info[espId].record.lastUpdated)
               == dir.info[espId].record
            && r.info[espId].owner == dir.info[espId].owner
            && (dir.info[espId].record.live == live ==> r.info[espId] == dir.info[espId]))
  {
  }

  /** The root an element is given: none for the first element, the first element's device otherwise. */
  function RootFor(i: nat, rootId: int): Option<int>
  {
    if i == 0 then None else Some(rootId)
  }

  /**
   * The directory commits of an element: its row with the given root, then
   * marked live by `set_live_websocket`, whose own commit may fail
   * (`liveFails`) and then leaves the flag as it was.
   */
  function DirectoryStep(dir: Directory, espId: int, root: Option<int>, now: int, liveFails: bool): Directory
  {
    SetLive(AssignRoot(dir, espId, root, now), espId, true, now, liveFails)
  }

  /**
   * The directory commits give the device its root; it is live afterwards
   * exactly when `set_live_websocket` commits or it was live already (a new
   * row starts not live). A new row is listed last, no other row is touched,
   * and battery_info stays keyed.
   */
  lemma DirectoryStepEffect(dir: Directory, espId: int, root: Option<int>, now: int, liveFails: bool)
    ensures var r := DirectoryStep(dir, espId, root, now, liveFails);
      && r.info.Keys == dir.info.Keys + {espId}
      && r.info[espId].record.rootId == root
      && (r.info[espId].record.live <==> !liveFails || (espId in dir.info && dir.info[espId].record.live))
      && (forall k :: k in dir.info && k != espId ==> r.info[k] == dir.info[k])
      && r.order == (if espId in dir.info then dir.order else dir.order + [espId])
      && (DirectoryKeyed(dir) ==> DirectoryKeyed(r))
  {
  }

  /** `get_battery_data_table`: the device's table, created empty when missing. */
  function EnsureTable(tables: map<int, seq<Row>>, espId: int): map<int, seq<Row>>
  {
    if espId in tables then tables else tables[espId := []]
  }

  /** An existing table is reused as it is; a missing one is created empty; no other table changes. */
  lemma EnsureTableEffect(tables: map<int, seq<Row>>, espId: int)
    ensures var r := EnsureTable(tables, espId);
      && r.Keys == tables.Keys + {espId}
      && (forall k :: k in tables ==> r[k] == tables[k])
      && (espId !in tables ==> r[espId] == [])
  {
  }

  /**
   * The insert for an element, after its table exists: it is rolled back when
   * the timestamp does not parse or the key is already stored.
   */
  function InsertReading(tables: map<int, seq<Row>>, espId: int, c: Content): map<int, seq<Row>>
    requires espId in tables
  {
    var table := tables[espId];
    if c.timestamp.None? || HasTimestamp(table, c.timestamp.value) then tables
    else tables[espId := InsertByTime(table, ToRow(c, c.timestamp.value))]
  }

  /**
   * The table step of an element: its table, whose creation lies outside
   * the try and so stays, then the insert; `fails` stands for any exception
   * inside the try (process_telemetry_data raising, a database error), after
   * which the insert is rolled back.
   */
  function StoreStep(tables: map<int, seq<Row>>, e: Element, fails: bool): map<int, seq<Row>>
  {
    var t := EnsureTable(tables, e.espId);
    if fails then t else InsertReading(t, e.espId, e.content)
  }

  /** The table step touches only the device's table. */
  lemma StoreStepFrame(tables: map<int, seq<Row>>, e: Element, fails: bool)
    ensures var r := StoreStep(tables, e, fails);
      && r.Keys == tables.Keys + {e.espId}
      && (forall k :: k in tables && k != e.espId ==> r[k] == tables[k])
  {
  }

  /**
   * The table step keeps every stored row of the device; when the insert
   * goes through it leaves a row with the reading's timestamp whenever that
   * parses, and when it fails the device's table is as before (created
   * empty if it was missing).
   */
  lemma StoreStepRows(tables: map<int, seq<Row>>, e: Element, fails: bool)
    ensures var r := StoreStep(tables, e, fails);
      && e.espId in r
      && (e.espId in tables ==> multiset(tables[e.espId]) <= multiset(r[e.espId]))
      && (!fails && e.content.timestamp.Some? ==> HasTimestamp(r[e.espId], e.content.timestamp.value))
      && (fails ==> r[e.espId] == (if e.espId in tables then tables[e.espId] else []))
  {
    var t1 := EnsureTable(tables, e.espId);
    var table := t1[e.espId];
    if !fails && e.content.timestamp.Some? && !HasTimestamp(table, e.content.timestamp.value) {
      var row := ToRow(e.content, e.content.timestamp.value);
      InsertByTimeContents(table, row);
      InsertByTimeStores(table, row);
    }
  }

  /** The table step keeps every table in key order. */
  lemma StoreStepOrdered(tables: map<int, seq<Row>>, e: Element, fails: bool)
    requires TablesOrdered(tables)
    ensures TablesOrdered(StoreStep(tables, e, fails))
  {
    var t1 := EnsureTable(tables, e.espId);
    var table := t1[e.espId];
    if !fails && e.content.timestamp.Some? && !HasTimestamp(table, e.content.timestamp.value) {
      InsertByTimeOrdered(table, ToRow(e.content, e.content.timestamp.value));
    }
  }

  // ---------------------------------------------------------------------------
  // A batch
  // ---------------------------------------------------------------------------

  /**
   * battery_info after the first `n` elements of a batch: elements with zero
   * current and those whose first commit fails (indices in `infoFails`)
   * leave it as it was; for those in `liveFails` the live flag's commit
   * fails.
   */
  function DirectoryAfter(dir: Directory, batch: seq<Element>, n: nat, now: int, infoFails: set<nat>, liveFails: set<nat>): Directory
    requires 0 < |batch| && n <= |batch|
  {
    if n == 0 then dir
    else
      var prev := DirectoryAfter(dir, batch, n - 1, now, infoFails, liveFails);
      var e := batch[n - 1];
      if e.content.I == 0 || n - 1 in infoFails then prev
      else DirectoryStep(prev, e.espId, RootFor(n - 1, batch[0].espId), now, n - 1 in liveFails)
  }

  /**
   * The device tables after the first `n` elements: elements with zero
   * current leave them as they were; `insertFails` holds the indices whose
   * insert is rolled back; whether a directory commit failed does not
   * matter here.
   */
  function TablesAfter(tables: map<int, seq<Row>>, batch: seq<Element>, n: nat, insertFails: set<nat>): map<int, seq<Row>>
    requires n <= |batch|
  {
    if n == 0 then tables
    else
      var prev := TablesAfter(tables, batch, n - 1, insertFails);
      if batch[n - 1].content.I == 0 then prev else StoreStep(prev, batch[n - 1], n - 1 in insertFails)
  }

  /**
   * The prediction feature pairs after the first `n` elements: each element
   * with nonzero current tries the previous cycle (its CC minus 1);
   * `featureFails` holds the indices whose computation fails.
   */
  function RecordedAfter(recorded: set<(int, int)>, batch: seq<Element>, n: nat, featureFails: set<nat>): set<(int, int)>
    requires n <= |batch|
  {
    if n == 0 then recorded
    else
      var prev := RecordedAfter(recorded, batch, n - 1, featureFails);
      var e := batch[n - 1];
      if e.content.I == 0 then prev
      else TwinRules.AfterFeatureAttempt(prev, e.espId, e.content.CC - 1, n - 1 !in featureFails)
  }

  /** The database after the first `n` elements of a batch. */
  function IngestPrefix(db: Db, batch: seq<Element>, n: nat, now: int, infoFails: set<nat>, liveFails: set<nat>, insertFails: set<nat>, featureFails: set<nat>): Db
    requires 0 < |batch| && n <= |batch|
  {
    Db(DirectoryAfter(db.dir, batch, n, now, infoFails, liveFails), TablesAfter(db.tables, batch, n, insertFails),
       RecordedAfter(db.recorded, batch, n, featureFails))
  }

  // ---------------------------------------------------------------------------
  // Properties of ingest
  // ---------------------------------------------------------------------------

  /** A batch keeps battery_info keyed. */
  lemma {:induction false} DirectoryStaysKeyed(dir: Directory, batch: seq<Element>, n: nat, now: int, infoFails: set<nat>, liveFails: set<nat>)
    requires 0 < |batch| && n <= |batch| && DirectoryKeyed(dir)
    ensures DirectoryKeyed(DirectoryAfter(dir, batch, n, now, infoFails, liveFails))
  {
    if n > 0 {
      DirectoryStaysKeyed(dir, batch, n - 1, now, infoFails, liveFails);
      var e := batch[n - 1];
      DirectoryStepEffect(DirectoryAfter(dir, batch, n - 1, now, infoFails, liveFails), e.espId, RootFor(n - 1, batch[0].espId), now, n - 1 in liveFails);
    }
  }

  /** A batch keeps every table in key order and never removes a stored row. */
  lemma {:induction false} TablesOnlyGrow(tables: map<int, seq<Row>>, batch: seq<Element>, n: nat, insertFails: set<nat>)
    requires n <= |batch| && TablesOrdered(tables)
    ensures var r := TablesAfter(tables, batch, n, insertFails);
      && TablesOrdered(r)
      && (forall k :: k in tables ==> k in r && multiset(tables[k]) <= multiset(r[k]))
  {
    if n > 0 {
      TablesOnlyGrow(tables, batch, n - 1, insertFails);
      var prev := TablesAfter(tables, batch, n - 1, insertFails);
      if batch[n - 1].content.I != 0 {
        StoreStepFrame(prev, batch[n - 1], n - 1 in insertFails);
        StoreStepRows(prev, batch[n - 1], n - 1 in insertFails);
        StoreStepOrdered(prev, batch[n - 1], n - 1 in insertFails);
      }
    }
  }

  /** The devices among the first `n` elements that sent a reading with nonzero current. */
  function Reporting(batch: seq<Element>, n: nat): set<int>
    requires n <= |batch|
  {
    if n == 0 then {}
    else Reporting(batch, n - 1) + (if batch[n - 1].content.I != 0 then {batch[n - 1].espId} else {})
  }

  /** A batch creates directory rows only for devices that sent a reading with nonzero current. */
  lemma {:induction false} OnlyReportingDevicesGetRows(dir: Directory, batch: seq<Element>, n: nat, now: int, infoFails: set<nat>, liveFails: set<nat>)
    requires 0 < |batch| && n <= |batch|
    ensures DirectoryAfter(dir, batch, n, now, infoFails, liveFails).info.Keys <= dir.info.Keys + Reporting(batch, n)
  {
    if n > 0 {
      OnlyReportingDevicesGetRows(dir, batch, n - 1, now, infoFails, liveFails);
      var e := batch[n - 1];
      if e.content.I != 0 && n - 1 !in infoFails {
        DirectoryStepEffect(DirectoryAfter(dir, batch, n - 1, now, infoFails, liveFails), e.espId, RootFor(n - 1, batch[0].espId), now, n - 1 in liveFails);
      }
    }
  }

  /** A batch creates tables only for devices that sent a reading with nonzero current. */
  lemma {:induction false} OnlyReportingDevicesGetTables(tables: map<int, seq<Row>>, batch: seq<Element>, n: nat, insertFails: set<nat>)
    requires n <= |batch|
    ensures TablesAfter(tables, batch, n, insertFails).Keys <= tables.Keys + Reporting(batch, n)
  {
    if n > 0 {
      OnlyReportingDevicesGetTables(tables, batch, n - 1, insertFails);
      if batch[n - 1].content.I != 0 {
        StoreStepFrame(TablesAfter(tables, batch, n - 1, insertFails), batch[n - 1], n - 1 in insertFails);
      }
    }
  }

  /** A batch records feature pairs only for devices that sent a reading with nonzero current. */
  lemma {:induction false} OnlyReportingDevicesGetFeatures(recorded: set<(int, int)>, batch: seq<Element>, n: nat, featureFails: set<nat>)
    requires n <= |batch|
    ensures forall p :: p in RecordedAfter(recorded, batch, n, featureFails) && p !in recorded ==> p.0 in Reporting(batch, n)
  {
    if n > 0 {
      OnlyReportingDevicesGetFeatures(recorded, batch, n - 1, featureFails);
    }
  }

  /** Whether element `j` is the last among the first `n` whose directory commits go through for its device. */
  predicate LastDirectoryWrite(batch: seq<Element>, n: nat, infoFails: set<nat>, j: nat)
    requires n <= |batch|
  {
    && j < n
    && batch[j].content.I != 0 && j !in infoFails
    && forall k :: j < k < n && batch[k].espId == batch[j].espId ==> batch[k].content.I == 0 || k in infoFails
  }

  /**
   * After a batch, a device whose last successful directory commit came from
   * element `j` has no root when `j` is the first element and the first
   * element's device as root otherwise; it is live when that element's
   * `set_live_websocket` committed.
   */
  lemma {:induction false} RootsAfterBatch(dir: Directory, batch: seq<Element>, n: nat, now: int, infoFails: set<nat>, liveFails: set<nat>, j: nat)
    requires 0 < |batch| && n <= |batch|
    requires LastDirectoryWrite(batch, n, infoFails, j)
    ensures var r := DirectoryAfter(dir, batch, n, now, infoFails, liveFails);
      && batch[j].espId in r.info
      && r.info[batch[j].espId].record.rootId == RootFor(j, batch[0].espId)
      && (j !in liveFails ==> r.info[batch[j].espId].record.live)
  {
    var e := batch[n - 1];
    var prev := DirectoryAfter(dir, batch, n - 1, now, infoFails, liveFails);
    if !(e.content.I == 0 || n - 1 in infoFails) {
      DirectoryStepEffect(prev, e.espId, RootFor(n - 1, batch[0].espId), now, n - 1 in liveFails);
    }
    if j < n - 1 {
      RootsAfterBatch(dir, batch, n - 1, now, infoFails, liveFails, j);
    }
  }

  /** A row stored after `m` elements is still stored after `n`. */
  lemma {:induction false} RowStays(tables: map<int, seq<Row>>, batch: seq<Element>, insertFails: set<nat>, m: nat, n: nat, k: int, row: Row)
    requires m <= n <= |batch|
    requires k in TablesAfter(tables, batch, m, insertFails) && row in TablesAfter(tables, batch, m, insertFails)[k]
    ensures k in TablesAfter(tables, batch, n, insertFails) && row in TablesAfter(tables, batch, n, insertFails)[k]
  {
    if m < n {
      RowStays(tables, batch, insertFails, m, n - 1, k, row);
      var prev := TablesAfter(tables, batch, n - 1, insertFails);
      var e := batch[n - 1];
      if e.content.I != 0 {
        StoreStepFrame(prev, e, n - 1 in insertFails);
        if k == e.espId {
          StoreStepRows(prev, e, n - 1 in insertFails);
          assert row in multiset(prev[k]);
        }
      }
    }
  }

  /**
   * Whatever fails elsewhere in the batch, a reading with nonzero current, a
   * parsable timestamp and an insert that goes through ends up with a row
   * of that timestamp in its device's table (its own, or one already stored
   * under that key).
   */
  lemma RowLands(tables: map<int, seq<Row>>, batch: seq<Element>, n: nat, insertFails: set<nat>, j: nat)
    requires j < n <= |batch|
    requires batch[j].content.I != 0 && batch[j].content.timestamp.Some?
    ensures var r := TablesAfter(tables, batch, n, insertFails);
      j !in insertFails ==> batch[j].espId in r && HasTimestamp(r[batch[j].espId], batch[j].content.timestamp.value)
  {
    if j in insertFails {
      return;
    }
    var e := batch[j];
    var t := e.content.timestamp.value;
    StoreStepRows(TablesAfter(tables, batch, j, insertFails), e, j in insertFails);
    var after := TablesAfter(tables, batch, j + 1, insertFails);
    assert HasTimestamp(after[e.espId], t);
    var i :| 0 <= i < |after[e.espId]| && after[e.espId][i].timestamp == t;
    var row := after[e.espId][i];
    RowStays(tables, batch, insertFails, j + 1, n, e.espId, row);
  }

  /** An element with zero current is skipped whole: battery_info, the tables and the feature pairs stay as they were. */
  lemma ZeroCurrentSkipped(db: Db, batch: seq<Element>, k: nat, now: int, infoFails: set<nat>, liveFails: set<nat>, insertFails: set<nat>, featureFails: set<nat>)
    requires k < |batch| && batch[k].content.I == 0
    ensures IngestPrefix(db, batch, k + 1, now, infoFails, liveFails, insertFails, featureFails) == IngestPrefix(db, batch, k, now, infoFails, liveFails, insertFails, featureFails)
    ensures Reporting(batch, k + 1) == Reporting(batch, k)
  {
  }

  /** The battery_info row of a device that sent no reading with nonzero current is left as it was. */
  lemma {:induction false} SilentDevicesKeepInfo(dir: Directory, batch: seq<Element>, n: nat, now: int, infoFails: set<nat>, liveFails: set<nat>)
    requires 0 < |batch| && n <= |batch|
    ensures var r := DirectoryAfter(dir, batch, n, now, infoFails, liveFails);
      forall k :: k in dir.info && k !in Reporting(batch, n) ==> k in r.info && r.info[k] == dir.info[k]
  {
    if n > 0 {
      SilentDevicesKeepInfo(dir, batch, n - 1, now, infoFails, liveFails);
      var e := batch[n - 1];
      if e.content.I != 0 && n - 1 !in infoFails {
        DirectoryStepEffect(DirectoryAfter(dir, batch, n - 1, now, infoFails, liveFails), e.espId, RootFor(n - 1, batch[0].espId), now, n - 1 in liveFails);
      }
    }
  }

  /** The table of a device that sent no reading with nonzero current is left as it was. */
  lemma {:induction false} SilentDevicesKeepTables(tables: map<int, seq<Row>>, batch: seq<Element>, n: nat, insertFails: set<nat>)
    requires n <= |batch|
    ensures var r := TablesAfter(tables, batch, n, insertFails);
      forall k :: k in tables && k !in Reporting(batch, n) ==> k in r && r[k] == tables[k]
  {
    if n > 0 {
      SilentDevicesKeepTables(tables, batch, n - 1, insertFails);
      if batch[n - 1].content.I != 0 {
        StoreStepFrame(TablesAfter(tables, batch, n - 1, insertFails), batch[n - 1], n - 1 in insertFails);
      }
    }
  }

  /** Element `e` is a reading with nonzero current from device `k` whose row, under its own timestamp, is `row`. */
  predicate FromReading(e: Element, k: int, row: Row)
  {
    e.content.I != 0 && e.espId == k && e.content.timestamp.Some? && row == ToRow(e.content, e.content.timestamp.value)
  }

  /**
   * Every row a batch adds to a table is the reading of an element with
   * nonzero current from that device, stored under the element's timestamp.
   */
  lemma {:induction false} NewRowsComeFromReadings(tables: map<int, seq<Row>>, batch: seq<Element>, n: nat, insertFails: set<nat>, k: int, row: Row)
    requires n <= |batch|
    requires k in TablesAfter(tables, batch, n, insertFails) && row in TablesAfter(tables, batch, n, insertFails)[k]
    requires k !in tables || row !in tables[k]
    ensures exists j :: 0 <= j < n && j !in insertFails && FromReading(batch[j], k, row)
  {
    if n == 0 {
      assert false;
    }
    var prev := TablesAfter(tables, batch, n - 1, insertFails);
    var e := batch[n - 1];
    if k in prev && row in prev[k] {
      NewRowsComeFromReadings(tables, batch, n - 1, insertFails, k, row);
    } else {
      assert e.content.I != 0;
      StoreStepFrame(prev, e, n - 1 in insertFails);
      assert k == e.espId;
      var table := EnsureTable(prev, k)[k];
      assert row !in table;
      assert n - 1 !in insertFails;
      var t := e.content.timestamp.value;
      assert e.content.timestamp.Some? && !HasTimestamp(table, t);
      InsertByTimeContents(table, ToRow(e.content, t));
      assert row in multiset(InsertByTime(table, ToRow(e.content, t)));
      assert FromReading(batch[n - 1], k, row);
    }
  }

  // ---------------------------------------------------------------------------
  // info: what a user sees
  // ---------------------------------------------------------------------------

  /** Whether a row is listed for a user: a superuser sees every row, others the rows they own. */
  predicate VisibleTo(row: InfoRow, superuser: bool, userId: int)
  {
    superuser || row.owner == Some(userId)
  }

  /** The battery_info rows the query returns for a user, among the first `n` in query order. */
  function VisibleUpTo(dir: Directory, n: nat, superuser: bool, userId: int): seq<MeshDirectory.InfoRecord<int>>
    requires n <= |dir.order| && forall k :: k in dir.order ==> k in dir.info
  {
    if n == 0 then []
    else
      var k := dir.order[n - 1];
      assert k in dir.order;
      var row := dir.info[k];
      VisibleUpTo(dir, n - 1, superuser, userId) + (if VisibleTo(row, superuser, userId) then [row.record] else [])
  }

  /** The battery_info rows the query returns for a user. */
  function Visible(dir: Directory, superuser: bool, userId: int): seq<MeshDirectory.InfoRecord<int>>
    requires forall k :: k in dir.order ==> k in dir.info
  {
    VisibleUpTo(dir, |dir.order|, superuser, userId)
  }

  /** Whether `r` is the record of a row the user may see among the first `n` listed. */
  ghost predicate ShownAmong(dir: Directory, n: nat, superuser: bool, userId: int, r: MeshDirectory.InfoRecord<int>)
    requires DirectoryKeyed(dir) && n <= |dir.order|
  {
    exists i :: 0 <= i < n && dir.order[i] in dir.info && r == dir.info[dir.order[i]].record && VisibleTo(dir.info[dir.order[i]], superuser, userId)
  }

  /**
   * The rows returned for a user are exactly the records of the rows they may
   * see, among the first `n` listed, each once: their ids are distinct.
   */
  lemma VisibleRows(dir: Directory, n: nat, superuser: bool, userId: int)
    requires DirectoryKeyed(dir) && n <= |dir.order|
    ensures var v := VisibleUpTo(dir, n, superuser, userId);
      && (forall r :: r in v <==> ShownAmong(dir, n, superuser, userId, r))
      && (forall r :: r in v ==> r.espId in dir.order[..n])
      && MeshDirectory.DistinctIds(v)
  {
    VisibleMembers(dir, n, superuser, userId);
    VisibleDistinct(dir, n, superuser, userId);
  }

  /** The rows returned among the first `n` listed are the records of those the user may see. */
  lemma {:induction false} VisibleMembers(dir: Directory, n: nat, superuser: bool, userId: int)
    requires DirectoryKeyed(dir) && n <= |dir.order|
    ensures forall r :: r in VisibleUpTo(dir, n, superuser, userId) <==> ShownAmong(dir, n, superuser, userId, r)
  {
    if n > 0 {
      VisibleMembers(dir, n - 1, superuser, userId);
      var k := dir.order[n - 1];
      assert k in dir.order;
      var prev := VisibleUpTo(dir, n - 1, superuser, userId);
      var v := VisibleUpTo(dir, n, superuser, userId);
      assert v == prev + (if VisibleTo(dir.info[k], superuser, userId) then [dir.info[k].record] else []);
      forall r
        ensures r in v <==> ShownAmong(dir, n, superuser, userId, r)
      {
        if r in prev {
          assert ShownAmong(dir, n - 1, superuser, userId, r);
          var i :| 0 <= i < n - 1 && r == dir.info[dir.order[i]].record && VisibleTo(dir.info[dir.order[i]], superuser, userId);
          assert 0 <= i < n;
        } else if r in v {
          assert r == dir.info[dir.order[n - 1]].record && VisibleTo(dir.info[dir.order[n - 1]], superuser, userId);
        }
        if ShownAmong(dir, n, superuser, userId, r) {
          var i :| 0 <= i < n && r == dir.info[dir.order[i]].record && VisibleTo(dir.info[dir.order[i]], superuser, userId);
          if i == n - 1 {
            assert r in v;
          } else {
            assert ShownAmong(dir, n - 1, superuser, userId, r);
          }
        }
      }
    }
  }

  /** The rows returned among the first `n` listed come from those `n` and have distinct ids. */
  lemma {:induction false} VisibleDistinct(dir: Directory, n: nat, superuser: bool, userId: int)
    requires DirectoryKeyed(dir) && n <= |dir.order|
    ensures var v := VisibleUpTo(dir, n, superuser, userId);
      && (forall r :: r in v ==> r.espId in dir.order[..n])
      && MeshDirectory.DistinctIds(v)
  {
    if n > 0 {
      VisibleDistinct(dir, n - 1, superuser, userId);
      var k := dir.order[n - 1];
      var prev := VisibleUpTo(dir, n - 1, superuser, userId);
      assert dir.order[..n] == dir.order[..n - 1] + [k];
      forall r | r in prev
        ensures r.espId != k
      {
        var i :| 0 <= i < n - 1 && dir.order[..n - 1][i] == r.espId;
        assert dir.order[i] == r.espId;
      }
      assert k in dir.order;
      assert dir.info[k].record.espId == k;
    }
  }

  /**
   * The info answer never shows a row whose root is device 0: 0 is falsy, so
   * such a row is neither a root nor collected as anyone's node.
   */
  lemma ZeroRootHidden(records: seq<MeshDirectory.InfoRecord<int>>)
    ensures forall v :: v in MeshDirectory.InfoView(records, k => k != 0) ==>
      && v.record.rootId.None?
      && (forall m :: m in v.nodes ==> m.rootId != Some(0))
  {
    MeshDirectory.ViewHoldsOnlyRoots(records, |records|, k => k != 0);
  }

  // ---------------------------------------------------------------------------
  // chart_data: the answer
  // ---------------------------------------------------------------------------

  /** The three ids the frontend sends before a device is chosen. */
  predicate IsSentinel(arg: seq<char>)
  {
    arg == "unavailable!" || arg == "undefined" || arg == ""
  }

  /** The body and status of a `chart_data` answer. */
  datatype ChartResponse =
    | EmptyObject(status: int)         // `{}` with the given status
    | Points(points: seq<ChartWindow.Point>)
    | ServerError                      // an exception escapes the handler

  /** A cell index of a four-cell column name ("V1" is cell 0), if it is one. */
  function CellIndex(column: seq<char>, letter: char): Option<nat>
  {
    if |column| == 2 && column[0] == letter && '1' <= column[1] <= '4' then Some(DigitValue(column[1]) - 1)
    else None
  }

  /** The columns of a battery_data_bms_<esp_id> table. */
  const Columns: set<seq<char>> := {
    "timestamp", "lat", "lon", "Q", "H", "C", "V", "V1", "V2", "V3", "V4",
    "I", "I1", "I2", "I3", "I4", "aT", "cT", "T1", "T2", "T3", "T4", "OTC", "CC", "wifi"}

  /**
   * The value of a column of a row, as a number (the timestamp in seconds,
   * wifi as 1 or 0); None for a name that is not a column of the table.
   */
  function ColumnValue(row: Row, column: seq<char>): Option<real>
  {
    if column == "timestamp" then Some(row.timestamp as real)
    else if column == "wifi" then Some(if row.values.wifi then 1.0 else 0.0)
    else if column == "lat" then Some(row.values.lat)
    else if column == "lon" then Some(row.values.lon)
    else if column == "Q" then Some(row.values.Q as real)
    else if column == "H" then Some(row.values.H as real)
    else if column == "C" then Some(row.values.C)
    else if column == "V" then Some(row.values.V)
    else if column == "I" then Some(row.values.I)
    else if column == "aT" then Some(row.values.aT)
    else if column == "cT" then Some(row.values.cT)
    else if column == "OTC" then Some(row.values.OTC as real)
    else if column == "CC" then Some(row.values.CC as real)
    else if CellIndex(column, 'V').Some? then Cell(row.values.cellV, CellIndex(column, 'V').value)
    else if CellIndex(column, 'I').Some? then Cell(row.values.cellI, CellIndex(column, 'I').value)
    else if CellIndex(column, 'T').Some? then Cell(row.values.cellT, CellIndex(column, 'T').value)
    else None
  }

  /** One cell's value, when the row has that cell. */
  function Cell(cells: seq<real>, k: nat): Option<real>
  {
    if k < |cells| then Some(cells[k]) else None
  }

  /** Every row has a value for exactly the columns of the table. */
  lemma ColumnValueDefined(row: Row, column: seq<char>)
    ensures ColumnValue(row, column).Some? <==> column in Columns
  {
    if |column| == 2 && '1' <= column[1] <= '4' {
      assert column == [column[0], column[1]];
      assert column[1] in {'1', '2', '3', '4'};
    }
  }

  /** The timestamp and column value of each row. */
  function Project(table: seq<Row>, column: seq<char>): (points: seq<ChartWindow.Point>)
    requires column in Columns
    ensures |points| == |table|
    ensures forall i :: 0 <= i < |table| ==>
      points[i].timestamp == table[i].timestamp && Some(points[i].value) == ColumnValue(table[i], column)
  {
    if table == [] then []
    else
      var last := table[|table| - 1];
      ColumnValueDefined(last, column);
      Project(table[..|table| - 1], column) + [ChartWindow.Point(last.timestamp, ColumnValue(last, column).value)]
  }

  /** The table named by the request's id: it must be the decimal notation of a stored device. */
  function TableFor(tables: map<int, seq<Row>>, arg: seq<char>): Option<seq<Row>>
  {
    match ParseDecimal(arg)
    case Some(n) => if n in tables then Some(tables[n]) else None
    case None => None
  }

  /**
   * What `chart_data` answers: `{}` with 200 for a sentinel id; a server error
   * for a missing table or for a name that is not one of its columns, even
   * when the table is empty; `{}` with 404 for an empty table; otherwise
   * the series of the 250 most recent rows on the newest date, cut at a gap
   * over one day, in chronological order.
   */
  function ChartAnswer(tables: map<int, seq<Row>>, arg: seq<char>, column: seq<char>): ChartResponse
  {
    if IsSentinel(arg) then EmptyObject(200)
    else match TableFor(tables, arg)
      case None => ServerError
      case Some(table) =>
        if column !in Columns then ServerError
        else
          var rows := ChartWindow.MostRecent(Project(table, column));
          if rows == [] then EmptyObject(404)
          else Points(ChartWindow.Series(rows, ChartWindow.SecondsPerDay))
  }

  /**
   * The chart of a non-empty ordered table is a non-empty chronological
   * series of its points, all on the date of its newest row, ending at that
   * row.
   */
  lemma ChartOfTable(table: seq<Row>, column: seq<char>)
    requires TimeOrdered(table) && column in Columns && table != []
    ensures var s := ChartWindow.Series(ChartWindow.MostRecent(Project(table, column)), ChartWindow.SecondsPerDay);
      && s != [] && ChartWindow.Chronological(s)
      && s[|s| - 1].timestamp == table[|table| - 1].timestamp
      && (forall p :: p in s ==>
            (exists i :: 0 <= i < |table| && p.timestamp == table[i].timestamp)
            && ChartWindow.Day(p.timestamp) == ChartWindow.Day(table[|table| - 1].timestamp))
  {
    var points := Project(table, column);
    assert ChartWindow.Chronological(points);
    ChartWindow.ChartOfChronological(points, ChartWindow.SecondsPerDay);
    forall p | p in points
      ensures exists i :: 0 <= i < |table| && p.timestamp == table[i].timestamp
    {
      var k :| 0 <= k < |points| && points[k] == p;
    }
  }

  /**
   * For a stored device whose table is ordered, the request by its id is
   * answered with 404 exactly when the table is empty, and otherwise with
   * its chart.
   */
  lemma ChartAnswerShape(tables: map<int, seq<Row>>, espId: nat, column: seq<char>)
    requires espId in tables && column in Columns
    ensures var table := tables[espId];
      ChartAnswer(tables, DecimalString(espId), column)
        == if table == [] then EmptyObject(404)
           else Points(ChartWindow.Series(ChartWindow.MostRecent(Project(table, column)), ChartWindow.SecondsPerDay))
  {
    StoredIdFound(tables, espId);
    var rows := ChartWindow.MostRecent(Project(tables[espId], column));
    assert rows == [] <==> tables[espId] == [];
  }

  /** The decimal form of a stored device's id is no sentinel and finds its table. */
  lemma StoredIdFound(tables: map<int, seq<Row>>, espId: nat)
    requires espId in tables
    ensures !IsSentinel(DecimalString(espId)) && TableFor(tables, DecimalString(espId)) == Some(tables[espId])
  {
    DecimalRoundTrip(espId);
    DecimalStringShape(espId);
  }

  /** A sentinel id is answered with `{}` and 200 whatever is stored. */
  lemma SentinelAnswered(tables: map<int, seq<Row>>, arg: seq<char>, column: seq<char>)
    requires IsSentinel(arg)
    ensures ChartAnswer(tables, arg, column) == EmptyObject(200)
  {
  }

  /**
   * A request fails with a server error exactly when its id is not a
   * sentinel and it names no stored device or no column of the table,
   * whatever the table holds.
   */
  lemma ChartServerError(tables: map<int, seq<Row>>, arg: seq<char>, column: seq<char>)
    ensures ChartAnswer(tables, arg, column).ServerError?
      <==> !IsSentinel(arg) && (TableFor(tables, arg).None? || column !in Columns)
  {
  }

  // ---------------------------------------------------------------------------
  // The backend's state and endpoints
  // ---------------------------------------------------------------------------

  /** The backend's database: battery_info, the device tables and prediction_features. */
  class Backend {
    var dir: Directory
    var tables: map<int, seq<Row>>
    const features: TwinRules.FeatureStore

    /** A fresh, empty database. */
    constructor ()
      ensures dir == Directory(map[], []) && tables == map[] && fresh(features) && features.recorded == {}
    {
      dir := Directory(map[], []);
      tables := map[];
      features := new TwinRules.FeatureStore();
    }

    /** battery_info, the device tables and prediction_features as one value. */
    function State(): Db
      reads this, features
    {
      Db(dir, tables, features.recorded)
    }

    /** `set_live_websocket`: a missing row or a failed commit changes nothing. */
    method SetLiveWebsocket(espId: int, live: bool, now: int, fails: bool)
      modifies this
      ensures dir == SetLive(old(dir), espId, live, now, fails) && tables == old(tables)
    {
      if fails || espId !in dir.info {
        return;
      }
      var row := dir.info[espId];
      var lastUpdated := if row.record.live != live then now else row.record.lastUpdated;
      dir := dir.(info := dir.info[espId := row.(record := row.record.(live := live, lastUpdated := lastUpdated))]);
    }

    /** `get_battery_data_table`: the device's table is reused, or created empty. */
    method GetBatteryDataTable(espId: int) returns (table: seq<Row>)
      modifies this
      ensures tables == EnsureTable(old(tables), espId) && dir == old(dir)
      ensures espId in tables && table == tables[espId]
      ensures espId in old(tables) ==> table == old(tables)[espId]
    {
      if espId !in tables {
        tables := tables[espId := []];
      }
      table := tables[espId];
    }

    /** The battery_info commits of one element: its row and root, then live unless that commit fails. */
    method RecordInfo(espId: int, root: Option<int>, now: int, liveFails: bool)
      modifies this
      ensures dir == DirectoryStep(old(dir), espId, root, now, liveFails) && tables == old(tables)
    {
      dir := AssignRoot(dir, espId, root, now);
      SetLiveWebsocket(espId, true, now, liveFails);
    }

    /**
     * The table work of one element: its table, then the insert, rolled back
     * on a bad or duplicate key or when `fails` (any other exception in the
     * try).
     */
    method StoreReading(e: Element, fails: bool)
      modifies this
      ensures tables == StoreStep(old(tables), e, fails) && dir == old(dir)
    {
      var table := GetBatteryDataTable(e.espId);
      var t := e.content.timestamp;
      if !fails && t.Some? && !HasTimestamp(table, t.value) {
        tables := tables[e.espId := InsertByTime(table, ToRow(e.content, t.value))];
      }
    }

    /** The feature gate of one element: the previous cycle, when due and not yet recorded. */
    method FeatureGate(e: Element, computed: bool)
      modifies features
      ensures features.recorded == TwinRules.AfterFeatureAttempt(old(features.recorded), e.espId, e.content.CC - 1, computed)
    {
      var cycle := e.content.CC - 1;
      if cycle >= TwinRules.FirstFeatureCycle && cycle % TwinRules.FeatureEvery == 0 && (e.espId, cycle) !in features.recorded {
        features.AddToPredictionFeatures(e.espId, cycle, computed);
      }
    }

    /**
     * One pass of `update_battery_data`'s loop: element `i` moves the
     * database from the state after `i` elements to the state after `i + 1`.
     */
    method IngestElement(batch: seq<Element>, i: nat, now: int, infoFails: set<nat>, liveFails: set<nat>, insertFails: set<nat>, featureFails: set<nat>, ghost db0: Db)
      requires i < |batch|
      requires State() == IngestPrefix(db0, batch, i, now, infoFails, liveFails, insertFails, featureFails)
      modifies this, features
      ensures State() == IngestPrefix(db0, batch, i + 1, now, infoFails, liveFails, insertFails, featureFails)
    {
      var e := batch[i];
      if e.content.I == 0 {
        return;
      }
      if i !in infoFails {
        RecordInfo(e.espId, if i == 0 then None else Some(batch[0].espId), now, i in liveFails);
      }
      StoreReading(e, i in insertFails);
      FeatureGate(e, i !in featureFails);
    }

    /**
     * `update_battery_data` for one batch. An empty batch fails before any
     * change (`handled` is false); otherwise every element is processed in
     * turn, `infoFails`, `liveFails`, `insertFails` and `featureFails`
     * naming the elements whose battery_info commit, live-flag commit, data
     * insert or feature computation fails.
     */
    method UpdateBatteryData(batch: seq<Element>, now: int, infoFails: set<nat>, liveFails: set<nat>, insertFails: set<nat>, featureFails: set<nat>) returns (handled: bool)
      modifies this, features
      ensures handled <==> batch != []
      ensures !handled ==> State() == old(State())
      ensures handled ==> State() == IngestPrefix(old(State()), batch, |batch|, now, infoFails, liveFails, insertFails, featureFails)
    {
      if batch == [] {
        return false;
      }
      ghost var db0 := State();
      var i := 0;
      while i < |batch|
        invariant 0 <= i <= |batch|
        invariant State() == IngestPrefix(db0, batch, i, now, infoFails, liveFails, insertFails, featureFails)
      {
        IngestElement(batch, i, now, infoFails, liveFails, insertFails, featureFails, db0);
        i := i + 1;
      }
      return true;
    }

    /** `info`: the roots of the rows a user may see, each with its nodes. */
    method Info(superuser: bool, userId: int) returns (roots: seq<MeshDirectory.RootView<int>>)
      requires DirectoryKeyed(dir)
      ensures roots == MeshDirectory.InfoView(Visible(dir, superuser, userId), k => k != 0)
    {
      VisibleRows(dir, |dir.order|, superuser, userId);
      roots := MeshDirectory.Info(Visible(dir, superuser, userId), k => k != 0);
    }

    /** `chart_data`: one column of a device's most recent rows. */
    method ChartData(arg: seq<char>, column: seq<char>) returns (resp: ChartResponse)
      ensures resp == ChartAnswer(tables, arg, column)
    {
      if IsSentinel(arg) {
        return EmptyObject(200);
      }
      var id := ParseDecimal(arg);
      if id.None? || id.value !in tables {
        return ServerError;
      }
      var table := tables[id.value];
      if column !in Columns {
        return ServerError;
      }
      var rows := ChartWindow.MostRecent(Project(table, column));
      if rows == [] {
        return EmptyObject(404);
      }
      var data := ChartWindow.CollectSeries(rows, ChartWindow.Day(rows[0].timestamp), ChartWindow.SecondsPerDay);
      return Points(data);
    }
  }
}
