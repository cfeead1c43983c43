/**
 * The website's earlier database layer: the same ingest, `info` and
 * `chart_data` as the backend, with its own differences. Device ids are
 * strings (the empty id is falsy); every element is stored, whatever its
 * current; every update stamps the row with the wall clock; a row's key is
 * the time of its insert; cell values are scaled by a tenth; and
 * `chart_data` cuts its series at a gap over five minutes.
 */
module WebsiteDb {
  import opened Common
  import opened TimeTable
  import MeshDirectory
  import ChartWindow
  import BackendBattery

  /** A device id: a battery_info primary key. */
  type Id = seq<char>

  /** One element of a batch: the sending device and its reading. */
  datatype Reading = Reading(espId: Id, content: BackendBattery.Content)

  /** The columns of a battery_data_<esp_id> row besides its key `t`. */
  datatype Measures = Measures(
    Q: int, H: int, V: real, cellV: BackendBattery.Cells, I: real, cellI: BackendBattery.Cells,
    aT: real, cT: real, cellT: BackendBattery.Cells, OTC: int, wifi: bool)

  /** One row of a battery_data_<esp_id> table, keyed by the time of its insert. */
  type Row = Stamped<Measures>

  /**
   * The stored row of a reading inserted at time `t`: every voltage,
   * current and temperature, pack or cell, is a tenth of the raw value; Q,
   * H, OTC and wifi are kept as sent.
   */
  function ToRow(c: BackendBattery.Content, t: int): (r: Row)
    ensures r.timestamp == t
    ensures var m := r.values;
      && m.Q == c.Q && m.H == c.H && m.OTC == c.OTC && m.wifi == c.wifi
      && m.V * 10.0 == c.V as real && m.I * 10.0 == c.I as real
      && m.aT * 10.0 == c.aT as real && m.cT * 10.0 == c.cT as real
      && |m.cellV| == |c.cellV| && (forall k :: 0 <= k < |c.cellV| ==> m.cellV[k] * 10.0 == c.cellV[k] as real)
      && |m.cellI| == |c.cellI| && (forall k :: 0 <= k < |c.cellI| ==> m.cellI[k] * 10.0 == c.cellI[k] as real)
      && |m.cellT| == |c.cellT| && (forall k :: 0 <= k < |c.cellT| ==> m.cellT[k] * 10.0 == c.cellT[k] as real)
  {
    Stamped(t, Measures(c.Q, c.H,
      c.V as real / 10.0, BackendBattery.Scale(c.cellV, 10.0),
      c.I as real / 10.0, BackendBattery.Scale(c.cellI, 10.0),
      c.aT as real / 10.0, c.cT as real / 10.0, BackendBattery.Scale(c.cellT, 10.0),
      c.OTC, c.wifi))
  }

  // ---------------------------------------------------------------------------
  // The database and the steps of one element
  // ---------------------------------------------------------------------------

  /** battery_info: the rows by esp_id, and the order in which a query returns them. */
  datatype Directory = Directory(info: map<Id, MeshDirectory.InfoRecord<Id>>, order: seq<Id>)

  /** battery_info is keyed by esp_id and every key is listed once in query order. */
  ghost predicate DirectoryKeyed(dir: Directory)
  {
    && (forall k :: k in dir.info <==> k in dir.order)
    && (forall i, j :: 0 <= i < j < |dir.order| ==> dir.order[i] != dir.order[j])
    && (forall k :: k in dir.info ==> dir.info[k].espId == k)
  }

  /**
   * The first commit for an element: the row is created when missing (not
   * live), given its root, and stamped with the time of the commit.
   */
  function Upsert(dir: Directory, espId: Id, root: Option<Id>, now: int): Directory
  {
    if espId in dir.info then
      dir.(info := dir.info[espId := dir.info[espId].(rootId := root, lastUpdated := now)])
    else
      Directory(dir.info[espId := MeshDirectory.InfoRecord(espId, root, now, false)], dir.order + [espId])
  }

  /**
   * `set_live_websocket`: the live flag of an existing row, the update time
   * moving when the flag changes; a missing row or a failed commit changes
   * nothing.
   */
  function SetLive(dir: Directory, espId: Id, live: bool, now: int, fails: bool): Directory
  {
    if fails || espId !in dir.info then dir
    else
      var r := dir.info[espId];
      dir.(info := dir.info[espId := r.(live := live, lastUpdated := if r.live != live then now else r.lastUpdated)])
  }

  /** `set_live_websocket` touches only that device's live flag and update time. */
  lemma SetLiveEffect(dir: Directory, espId: Id, live: bool, now: int, fails: bool)
    ensures var r := SetLive(dir, espId, live, now, fails);
      && r.order == dir.order && r.info.Keys == dir.info.Keys
      && (forall k :: k in dir.info && (k != espId || fails) ==> r.info[k] == dir.info[k])
      && (espId in dir.info && !fails ==>
            && r.info[espId].live == live
            && r.info[espId].(live := dir.info[espId].live, lastUpdated := dir.info[espId].lastUpdated) == dir.info[espId]
            && (dir.info[espId].live == live ==> r.info[espId] == dir.info[espId]))
  {
  }

  /** The root an element is given: none for the first element, the first element's device otherwise. */
  function RootFor(i: nat, rootId: Id): Option<Id>
  {
    if i == 0 then None else Some(rootId)
  }

  /**
   * The battery_info commits of an element: its row, root and time, then
   * marked live, unless that second commit fails (`liveFails`).
   */
  function InfoStep(dir: Directory, espId: Id, root: Option<Id>, now: int, liveFails: bool): Directory
  {
    SetLive(Upsert(dir, espId, root, now), espId, true, now, liveFails)
  }

  /**
   * The commits give the device its root and stamp it with the time; it is
   * live when the second commit goes through or it already was (a new row
   * starts not live); a new row is listed last, no other row is touched, and
   * battery_info stays keyed.
   */
  lemma InfoStepEffect(dir: Directory, espId: Id, root: Option<Id>, now: int, liveFails: bool)
    ensures var r := InfoStep(dir, espId, root, now, liveFails);
      && r.info.Keys == dir.info.Keys + {espId}
      && r.info[espId].rootId == root && r.info[espId].lastUpdated == now
      && (r.info[espId].live <==> !liveFails || (espId in dir.info && dir.info[espId].live))
      && (forall k :: k in dir.info && k != espId ==> r.info[k] == dir.info[k])
      && r.order == (if espId in dir.info then dir.order else dir.order + [espId])
      && (DirectoryKeyed(dir) ==> DirectoryKeyed(r))
  {
  }

  /** `get_battery_data_table`: the device's table, created empty when missing. */
  function EnsureTable(tables: map<Id, seq<Row>>, espId: Id): map<Id, seq<Row>>
  {
    if espId in tables then tables else tables[espId := []]
  }

  /**
   * The table step of an element inserted at time `t`: its table, then the
   * insert, rolled back when it fails (`fails`) or the key is already stored.
   */
  function StoreStep(tables: map<Id, seq<Row>>, e: Reading, t: int, fails: bool): map<Id, seq<Row>>
  {
    var ts := EnsureTable(tables, e.espId);
    if fails || HasTimestamp(ts[e.espId], t) then ts
    else ts[e.espId := InsertByTime(ts[e.espId], ToRow(e.content, t))]
  }

  /** The table step touches only the device's table. */
  lemma StoreStepFrame(tables: map<Id, seq<Row>>, e: Reading, t: int, fails: bool)
    ensures var r := StoreStep(tables, e, t, fails);
      && r.Keys == tables.Keys + {e.espId}
      && (forall k :: k in tables && k != e.espId ==> r[k] == tables[k])
  {
  }

  /** The table step keeps the device's rows and leaves a row at `t` unless the insert fails. */
  lemma StoreStepRows(tables: map<Id, seq<Row>>, e: Reading, t: int, fails: bool)
    ensures var r := StoreStep(tables, e, t, fails);
      && e.espId in r
      && (e.espId in tables ==> forall x :: x in tables[e.espId] ==> x in r[e.espId])
      && (!fails ==> HasTimestamp(r[e.espId], t))
  {
    var ts := EnsureTable(tables, e.espId);
    if !fails && !HasTimestamp(ts[e.espId], t) {
      InsertByTimeStores(ts[e.espId], ToRow(e.content, t));
    }
  }

  /** Every device table is in primary-key order. */
  ghost predicate TablesOrdered(tables: map<Id, seq<Row>>)
  {
    forall k :: k in tables ==> TimeOrdered(tables[k])
  }

  /** The table step keeps every table in key order. */
  lemma StoreStepOrdered(tables: map<Id, seq<Row>>, e: Reading, t: int, fails: bool)
    requires TablesOrdered(tables)
    ensures TablesOrdered(StoreStep(tables, e, t, fails))
  {
    var ts := EnsureTable(tables, e.espId);
    if !fails && !HasTimestamp(ts[e.espId], t) {
      InsertByTimeOrdered(ts[e.espId], ToRow(e.content, t));
    }
  }

  // ---------------------------------------------------------------------------
  // A batch
  // ---------------------------------------------------------------------------

  /**
   * battery_info after the first `n` elements of a batch, element `i`
   * committing at `clock[i]`; the elements in `infoFails` are rolled back,
   * and those in `liveFails` are not marked live.
   */
  function DirectoryAfter(dir: Directory, batch: seq<Reading>, n: nat, clock: seq<int>, infoFails: set<nat>, liveFails: set<nat>): Directory
    requires 0 < |batch| && n <= |batch| == |clock|
  {
    if n == 0 then dir
    else
      var prev := DirectoryAfter(dir, batch, n - 1, clock, infoFails, liveFails);
      if n - 1 in infoFails then prev
      else InfoStep(prev, batch[n - 1].espId, RootFor(n - 1, batch[0].espId), clock[n - 1], n - 1 in liveFails)
  }

  /**
   * The device tables after the first `n` elements, element `i` inserted at
   * `clock[i]`; the inserts in `insertFails` are rolled back.
   */
  function TablesAfter(tables: map<Id, seq<Row>>, batch: seq<Reading>, n: nat, clock: seq<int>, insertFails: set<nat>): map<Id, seq<Row>>
    requires n <= |batch| == |clock|
  {
    if n == 0 then tables
    else StoreStep(TablesAfter(tables, batch, n - 1, clock, insertFails), batch[n - 1], clock[n - 1], n - 1 in insertFails)
  }

  /** The ids of the first `n` elements. */
  function BatchIds(batch: seq<Reading>, n: nat): set<Id>
    requires n <= |batch|
  {
    if n == 0 then {} else BatchIds(batch, n - 1) + {batch[n - 1].espId}
  }

  // ---------------------------------------------------------------------------
  // Properties of ingest
  // ---------------------------------------------------------------------------

  /** A batch keeps battery_info keyed. */
  lemma {:induction false} DirectoryStaysKeyed(dir: Directory, batch: seq<Reading>, n: nat, clock: seq<int>, infoFails: set<nat>, liveFails: set<nat>)
    requires 0 < |batch| && n <= |batch| == |clock| && DirectoryKeyed(dir)
    ensures DirectoryKeyed(DirectoryAfter(dir, batch, n, clock, infoFails, liveFails))
  {
    if n > 0 {
      DirectoryStaysKeyed(dir, batch, n - 1, clock, infoFails, liveFails);
      if n - 1 !in infoFails {
        InfoStepEffect(DirectoryAfter(dir, batch, n - 1, clock, infoFails, liveFails), batch[n - 1].espId, RootFor(n - 1, batch[0].espId), clock[n - 1], n - 1 in liveFails);
      }
    }
  }

  /** A batch adds battery_info rows only for its own devices. */
  lemma {:induction false} OnlyBatchDevicesGetRows(dir: Directory, batch: seq<Reading>, n: nat, clock: seq<int>, infoFails: set<nat>, liveFails: set<nat>)
    requires 0 < |batch| && n <= |batch| == |clock|
    ensures DirectoryAfter(dir, batch, n, clock, infoFails, liveFails).info.Keys <= dir.info.Keys + BatchIds(batch, n)
  {
    if n > 0 {
      OnlyBatchDevicesGetRows(dir, batch, n - 1, clock, infoFails, liveFails);
      if n - 1 !in infoFails {
        InfoStepEffect(DirectoryAfter(dir, batch, n - 1, clock, infoFails, liveFails), batch[n - 1].espId, RootFor(n - 1, batch[0].espId), clock[n - 1], n - 1 in liveFails);
      }
    }
  }

  /** Whether element `j` is the last among the first `n` whose commit goes through for its device. */
  predicate LastInfoWrite(batch: seq<Reading>, n: nat, infoFails: set<nat>, j: nat)
    requires n <= |batch|
  {
    && j < n && j !in infoFails
    && forall k :: j < k < n && batch[k].espId == batch[j].espId ==> k in infoFails
  }

  /**
   * Whatever its current, a device whose last successful commit came from
   * element `j` is stamped with that commit's time, is live when that
   * element's second commit goes through, and has no root when `j` is the
   * first element and the first element's device otherwise.
   */
  lemma {:induction false} RootsAfterBatch(dir: Directory, batch: seq<Reading>, n: nat, clock: seq<int>, infoFails: set<nat>, liveFails: set<nat>, j: nat)
    requires 0 < |batch| && n <= |batch| == |clock|
    requires LastInfoWrite(batch, n, infoFails, j)
    ensures var r := DirectoryAfter(dir, batch, n, clock, infoFails, liveFails);
      && batch[j].espId in r.info
      && r.info[batch[j].espId].rootId == RootFor(j, batch[0].espId)
      && (j !in liveFails ==> r.info[batch[j].espId].live)
      && r.info[batch[j].espId].lastUpdated == clock[j]
  {
    var prev := DirectoryAfter(dir, batch, n - 1, clock, infoFails, liveFails);
    if n - 1 !in infoFails {
      InfoStepEffect(prev, batch[n - 1].espId, RootFor(n - 1, batch[0].espId), clock[n - 1], n - 1 in liveFails);
    }
    if j < n - 1 {
      RootsAfterBatch(dir, batch, n - 1, clock, infoFails, liveFails, j);
    }
  }

  /** A batch keeps every table in key order. */
  lemma {:induction false} TablesStayOrdered(tables: map<Id, seq<Row>>, batch: seq<Reading>, n: nat, clock: seq<int>, insertFails: set<nat>)
    requires n <= |batch| == |clock|
    requires TablesOrdered(tables)
    ensures TablesOrdered(TablesAfter(tables, batch, n, clock, insertFails))
  {
    if n > 0 {
      TablesStayOrdered(tables, batch, n - 1, clock, insertFails);
      var prev := TablesAfter(tables, batch, n - 1, clock, insertFails);
      StoreStepOrdered(prev, batch[n - 1], clock[n - 1], n - 1 in insertFails);
    }
  }

  /** A batch creates a table for each of its devices, whatever the current, and no other. */
  lemma {:induction false} TablesForBatch(tables: map<Id, seq<Row>>, batch: seq<Reading>, n: nat, clock: seq<int>, insertFails: set<nat>)
    requires n <= |batch| == |clock|
    ensures TablesAfter(tables, batch, n, clock, insertFails).Keys == tables.Keys + BatchIds(batch, n)
  {
    if n > 0 {
      TablesForBatch(tables, batch, n - 1, clock, insertFails);
      StoreStepFrame(TablesAfter(tables, batch, n - 1, clock, insertFails), batch[n - 1], clock[n - 1], n - 1 in insertFails);
    }
  }

  /** A row stored after `m` elements is still stored after `n`. */
  lemma {:induction false} RowsAfterSuffix(tables: map<Id, seq<Row>>, batch: seq<Reading>, m: nat, n: nat, clock: seq<int>, insertFails: set<nat>, k: Id, x: Row)
    requires m <= n <= |batch| == |clock|
    requires var p := TablesAfter(tables, batch, m, clock, insertFails); k in p && x in p[k]
    ensures var r := TablesAfter(tables, batch, n, clock, insertFails); k in r && x in r[k]
  {
    if m < n {
      RowsAfterSuffix(tables, batch, m, n - 1, clock, insertFails, k, x);
      var prev := TablesAfter(tables, batch, n - 1, clock, insertFails);
      StoreStepFrame(prev, batch[n - 1], clock[n - 1], n - 1 in insertFails);
      if k == batch[n - 1].espId {
        StoreStepRows(prev, batch[n - 1], clock[n - 1], n - 1 in insertFails);
      }
    }
  }

  /**
   * Whatever its current, an element whose insert does not fail leaves a row
   * keyed by its insert time in its device's table.
   */
  lemma RowLands(tables: map<Id, seq<Row>>, batch: seq<Reading>, n: nat, clock: seq<int>, insertFails: set<nat>, j: nat)
    requires j < n <= |batch| == |clock| && j !in insertFails
    ensures var r := TablesAfter(tables, batch, n, clock, insertFails);
      batch[j].espId in r && HasTimestamp(r[batch[j].espId], clock[j])
  {
    var e := batch[j];
    StoreStepRows(TablesAfter(tables, batch, j, clock, insertFails), e, clock[j], false);
    var table: seq<Row> := TablesAfter(tables, batch, j + 1, clock, insertFails)[e.espId];
    var i: int :| 0 <= i < |table| && table[i].timestamp == clock[j];
    var row := table[i];
    RowsAfterSuffix(tables, batch, j + 1, n, clock, insertFails, e.espId, row);
  }

  // ---------------------------------------------------------------------------
  // info and chart_data
  // ---------------------------------------------------------------------------

  /** The battery_info rows in query order. */
  function Records(dir: Directory, n: nat): seq<MeshDirectory.InfoRecord<Id>>
    requires n <= |dir.order| && forall k :: k in dir.order ==> k in dir.info
  {
    if n == 0 then []
    else
      var k := dir.order[n - 1];
      assert k in dir.order;
      Records(dir, n - 1) + [dir.info[k]]
  }

  /** Every row is listed once, in query order: the ids of the listed rows are distinct. */
  lemma {:induction false} RecordsDistinct(dir: Directory, n: nat)
    requires DirectoryKeyed(dir) && n <= |dir.order|
    ensures var v := Records(dir, n);
      && |v| == n
      && (forall i :: 0 <= i < n ==> v[i] == dir.info[dir.order[i]] && v[i].espId == dir.order[i])
      && MeshDirectory.DistinctIds(v)
  {
    if n > 0 {
      RecordsDistinct(dir, n - 1);
      assert dir.order[n - 1] in dir.order;
    }
  }

  /** The series window of this variant: five minutes. */
  const MaxGap: int := 300

  /** The columns of a battery_data_<esp_id> table. */
  const Columns: set<seq<char>> := {
    "t", "Q", "H", "V", "V1", "V2", "V3", "V4", "I", "I1", "I2", "I3", "I4",
    "aT", "cT", "T1", "T2", "T3", "T4", "OTC", "wifi"}

  /**
   * The value of a column of a row, as a number (the key `t` in seconds,
   * wifi as 1 or 0); None for a name that is not a column of the table.
   */
  function ColumnValue(row: Row, column: seq<char>): Option<real>
  {
    var m := row.values;
    if column == "t" then Some(row.timestamp as real)
    else if column == "wifi" then Some(if m.wifi then 1.0 else 0.0)
    else if column == "Q" then Some(m.Q as real)
    else if column == "H" then Some(m.H as real)
    else if column == "V" then Some(m.V)
    else if column == "I" then Some(m.I)
    else if column == "aT" then Some(m.aT)
    else if column == "cT" then Some(m.cT)
    else if column == "OTC" then Some(m.OTC as real)
    else if BackendBattery.CellIndex(column, 'V').Some? then BackendBattery.Cell(m.cellV, BackendBattery.CellIndex(column, 'V').value)
    else if BackendBattery.CellIndex(column, 'I').Some? then BackendBattery.Cell(m.cellI, BackendBattery.CellIndex(column, 'I').value)
    else if BackendBattery.CellIndex(column, 'T').Some? then BackendBattery.Cell(m.cellT, BackendBattery.CellIndex(column, 'T').value)
    else None
  }

  /** Every row has a value for exactly the columns of the table. */
  lemma ColumnValueDefined(row: Row, column: seq<char>)
    ensures ColumnValue(row, column).Some? <==> column in Columns
  {
    if |column| == 2 && '1' <= column[1] <= '4' {
      assert column == [column[0], column[1]];
      assert column[1] in {'1', '2', '3', '4'};
    }
  }

  /** The key and column value of each row. */
  function Project(table: seq<Row>, column: seq<char>): (points: seq<ChartWindow.Point>)
    requires column in Columns
    ensures |points| == |table|
    ensures forall i :: 0 <= i < |table| ==>
      points[i].timestamp == table[i].timestamp && Some(points[i].value) == ColumnValue(table[i], column)
  {
    if table == [] then []
    else
      var last := table[|table| - 1];
      ColumnValueDefined(last, column);
      Project(table[..|table| - 1], column) + [ChartWindow.Point(last.timestamp, ColumnValue(last, column).value)]
  }

  /**
   * What `chart_data` answers: `{}` with 404 for the "unavailable!" id; a
   * server error for a missing table or for a name that is not one of
   * its columns, even when the table is empty; otherwise, with status 200,
   * the series of the 250 most recent rows on the newest date, cut at a gap
   * over five minutes, in chronological order, which is empty for an empty
   * table (the result object tested is always truthy).
   */
  function ChartAnswer(tables: map<Id, seq<Row>>, arg: seq<char>, column: seq<char>): BackendBattery.ChartResponse
  {
    if arg == "unavailable!" then BackendBattery.EmptyObject(404)
    else if arg !in tables || column !in Columns then BackendBattery.ServerError
    else BackendBattery.Points(ChartWindow.Series(ChartWindow.MostRecent(Project(tables[arg], column)), MaxGap))
  }

  /**
   * For a stored device with an ordered table, the chart is empty exactly
   * when the table is; otherwise it is a chronological series of the table's
   * points on the date of its newest row, ending at that row, with no two
   * consecutive points more than five minutes apart.
   */
  lemma ChartAnswerShape(tables: map<Id, seq<Row>>, espId: Id, column: seq<char>)
    requires espId in tables && espId != "unavailable!"
    requires TimeOrdered(tables[espId]) && column in Columns
    ensures var table := tables[espId];
      ChartAnswer(tables, espId, column).Points?
      && var s := ChartAnswer(tables, espId, column).points;
      && (s == [] <==> table == [])
      && ChartWindow.Chronological(s)
      && (forall k :: 0 <= k < |s| - 1 ==> s[k + 1].timestamp - s[k].timestamp <= MaxGap)
      && (table != [] ==>
            && s[|s| - 1].timestamp == table[|table| - 1].timestamp
            && forall p :: p in s ==> ChartWindow.Day(p.timestamp) == ChartWindow.Day(table[|table| - 1].timestamp))
  {
    var points := Project(tables[espId], column);
    assert ChartWindow.Chronological(points);
    ChartWindow.ChartOfChronological(points, MaxGap);
  }

  /**
   * A request fails with a server error exactly when its id is not
   * "unavailable!" and it names no stored device or no column of the table,
   * whatever the table holds.
   */
  lemma ChartServerError(tables: map<Id, seq<Row>>, arg: seq<char>, column: seq<char>)
    ensures ChartAnswer(tables, arg, column).ServerError?
      <==> arg != "unavailable!" && (arg !in tables || column !in Columns)
  {
  }

  // ---------------------------------------------------------------------------
  // The website's state and endpoints
  // ---------------------------------------------------------------------------

  /** The website's database: battery_info and the device tables. */
  class Website {
    var dir: Directory
    var tables: map<Id, seq<Row>>

    /** A fresh, empty database. */
    constructor ()
      ensures dir == Directory(map[], []) && tables == map[]
    {
      dir := Directory(map[], []);
      tables := map[];
    }

    /** `set_live_websocket`: a missing row or a failed commit changes nothing. */
    method SetLiveWebsocket(espId: Id, live: bool, now: int, fails: bool)
      modifies this
      ensures dir == SetLive(old(dir), espId, live, now, fails) && tables == old(tables)
    {
      if fails || espId !in dir.info {
        return;
      }
      var r := dir.info[espId];
      var lastUpdated := if r.live != live then now else r.lastUpdated;
      dir := dir.(info := dir.info[espId := r.(live := live, lastUpdated := lastUpdated)]);
    }

    /** The battery_info commits of one element. */
    method RecordInfo(espId: Id, root: Option<Id>, now: int, liveFails: bool)
      modifies this
      ensures dir == InfoStep(old(dir), espId, root, now, liveFails) && tables == old(tables)
    {
      dir := Upsert(dir, espId, root, now);
      SetLiveWebsocket(espId, true, now, liveFails);
    }

    /** `get_battery_data_table`: the device's table is reused, or created empty. */
    method GetBatteryDataTable(espId: Id) returns (table: seq<Row>)
      modifies this
      ensures tables == EnsureTable(old(tables), espId) && dir == old(dir)
      ensures espId in tables && table == tables[espId]
      ensures espId in old(tables) ==> table == old(tables)[espId]
    {
      if espId !in tables {
        tables := tables[espId := []];
      }
      table := tables[espId];
    }

    /** The table work of one element inserted at `t`: its table, then the insert. */
    method StoreReading(e: Reading, t: int, fails: bool)
      modifies this
      ensures tables == StoreStep(old(tables), e, t, fails) && dir == old(dir)
    {
      var table := GetBatteryDataTable(e.espId);
      if !fails && !HasTimestamp(table, t) {
        tables := tables[e.espId := InsertByTime(table, ToRow(e.content, t))];
      }
    }

    /**
     * `update_battery_data` for one batch, element `i` handled at time
     * `clock[i]`. An empty batch fails before any change (`handled` is
     * false); otherwise every element is processed in turn.
     */
    method UpdateBatteryData(batch: seq<Reading>, clock: seq<int>, infoFails: set<nat>, liveFails: set<nat>, insertFails: set<nat>) returns (handled: bool)
      requires |clock| == |batch|
      modifies this
      ensures handled <==> batch != []
      ensures !handled ==> dir == old(dir) && tables == old(tables)
      ensures handled ==> dir == DirectoryAfter(old(dir), batch, |batch|, clock, infoFails, liveFails)
      ensures tables == TablesAfter(old(tables), batch, |batch|, clock, insertFails)
    {
      if batch == [] {
        return false;
      }
      var rootId := batch[0].espId;
      ghost var dir0, tables0 := dir, tables;
      var i := 0;
      while i < |batch|
        invariant 0 <= i <= |batch|
        invariant dir == DirectoryAfter(dir0, batch, i, clock, infoFails, liveFails)
        invariant tables == TablesAfter(tables0, batch, i, clock, insertFails)
      {
        var e := batch[i];
        if i !in infoFails {
          RecordInfo(e.espId, RootFor(i, rootId), clock[i], i in liveFails);
        }
        StoreReading(e, clock[i], i in insertFails);
        i := i + 1;
      }
      return true;
    }

    /** `info`: every row without a root, each with the rows naming it as root. */
    method Info() returns (roots: seq<MeshDirectory.RootView<Id>>)
      requires DirectoryKeyed(dir)
      ensures roots == MeshDirectory.InfoView(Records(dir, |dir.order|), k => k != "")
    {
      RecordsDistinct(dir, |dir.order|);
      roots := MeshDirectory.Info(Records(dir, |dir.order|), k => k != "");
    }

    /** `chart_data`: one column of a device's most recent rows. */
    method ChartData(arg: seq<char>, column: seq<char>) returns (resp: BackendBattery.ChartResponse)
      ensures resp == ChartAnswer(tables, arg, column)
    {
      if arg == "unavailable!" {
        return BackendBattery.EmptyObject(404);
      }
      if arg !in tables || column !in Columns {
        return BackendBattery.ServerError;
      }
      var rows := ChartWindow.MostRecent(Project(tables[arg], column));
      var data: seq<ChartWindow.Point> := [];
      if rows != [] {
        data := ChartWindow.CollectSeries(rows, ChartWindow.Day(rows[0].timestamp), MaxGap);
      }
      return BackendBattery.Points(data);
    }
  }
}
