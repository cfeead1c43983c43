/**
 * The website's battery API (`battery_http`): its own battery_info table
 * (id, name, last temperature and voltage, parent), one append-only
 * battery_data_<id> table per device, the upsert of a batch from the
 * websocket handler, the reset of the structure, and the tree of batteries
 * served by `/list`, where a battery is online when a connected mesh lists
 * it.
 */
module HttpBattery {
  import opened Common
  import MeshDirectory
  import WebsiteDb

  /** A device id: the battery_info primary key. */
  type Id = seq<char>

  /** A websocket, known only by its identity. */
  type Socket = nat

  /** A connected mesh, registered under its root: its socket, its devices, its last message (seconds). */
  datatype EspClient = EspClient(ws: Socket, ids: seq<Id>, lastUpdated: real)

  /** A battery_info row. Temperature, voltage and position may be NULL. */
  datatype Battery = Battery(
    id: Id, name: Id, temperature: Option<real>, voltage: Option<real>,
    lastUpdated: int, lat: Option<real>, lon: Option<real>, parentId: Option<Id>)

  /** A battery_data_<id> row (its auto-increment key left aside). */
  datatype DataRow = DataRow(timestamp: int, soc: int, temperature: real, voltage: real, current: real)

  /** battery_info: rows by id, and the order in which a query returns them. */
  datatype Directory = Directory(info: map<Id, Battery>, order: seq<Id>)

  /** battery_info is keyed by id and every key is listed once in query order. */
  ghost predicate DirectoryKeyed(dir: Directory)
  {
    && (forall k :: k in dir.info <==> k in dir.order)
    && (forall i, j :: 0 <= i < j < |dir.order| ==> dir.order[i] != dir.order[j])
    && (forall k :: k in dir.info ==> dir.info[k].id == k)
  }

  /** An ASCII letter in lower case; other characters as they are. */
  function LowerChar(c: char): char
  {
    if 'A' <= c <= 'Z' then (c as int + 32) as char else c
  }

  /** The id in lower case: the suffix of its data table's name. */
  function Lower(s: Id): (r: Id)
    ensures |r| == |s| && forall i :: 0 <= i < |s| ==> r[i] == LowerChar(s[i])
  {
    if s == [] then [] else Lower(s[..|s| - 1]) + [LowerChar(s[|s| - 1])]
  }

  // ---------------------------------------------------------------------------
  // update_database
  // ---------------------------------------------------------------------------

  /**
   * The battery_info commit of an element at time `now`: an existing row
   * gets its name, temperature aT/10, voltage V/10 and time; a missing one is
   * inserted with these and no position or parent.
   */
  function Upsert(dir: Directory, e: WebsiteDb.Reading, now: int): Directory
  {
    var temperature := e.content.aT as real / 10.0;
    var voltage := e.content.V as real / 10.0;
    if e.espId in dir.info then
      dir.(info := dir.info[e.espId := dir.info[e.espId].(
        name := e.espId, temperature := Some(temperature), voltage := Some(voltage), lastUpdated := now)])
    else
      Directory(dir.info[e.espId := Battery(e.espId, e.espId, Some(temperature), Some(voltage), now, None, None, None)],
                dir.order + [e.espId])
  }

  /**
   * The commit stores the reading's id as name, a tenth of its temperature
   * and voltage and the time, keeps position and parent, lists a new row
   * last, touches no other row, and keeps battery_info keyed.
   */
  lemma UpsertEffect(dir: Directory, e: WebsiteDb.Reading, now: int)
    ensures var r := Upsert(dir, e, now);
      && r.info.Keys == dir.info.Keys + {e.espId}
      && var b := r.info[e.espId];
      && b.name == e.espId && b.lastUpdated == now
      && b.temperature.Some? && b.temperature.value * 10.0 == e.content.aT as real
      && b.voltage.Some? && b.voltage.value * 10.0 == e.content.V as real
      && (e.espId in dir.info ==> b.parentId == dir.info[e.espId].parentId && b.lat == dir.info[e.espId].lat && b.lon == dir.info[e.espId].lon)
      && (e.espId !in dir.info ==> b.parentId.None? && b.lat.None? && b.lon.None?)
      && (forall k :: k in dir.info && k != e.espId ==> r.info[k] == dir.info[k])
      && r.order == (if e.espId in dir.info then dir.order else dir.order + [e.espId])
      && (DirectoryKeyed(dir) ==> DirectoryKeyed(r))
  {
  }

  /** The battery_data row of an element at time `now`: soc Q, and a tenth of aT, V and I. */
  function RowOf(e: WebsiteDb.Reading, now: int): (row: DataRow)
    ensures row.timestamp == now && row.soc == e.content.Q
    ensures row.temperature * 10.0 == e.content.aT as real && row.voltage * 10.0 == e.content.V as real
    ensures row.current * 10.0 == e.content.I as real
  {
    DataRow(now, e.content.Q, e.content.aT as real / 10.0, e.content.V as real / 10.0, e.content.I as real / 10.0)
  }

  /**
   * The data work of an element at time `now`: its table (named by the id in
   * lower case) is created when missing, then the row soc Q, temperature
   * aT/10, voltage V/10, current I/10 is appended unless the insert fails.
   */
  function Append(data: map<Id, seq<DataRow>>, e: WebsiteDb.Reading, now: int, fails: bool): map<Id, seq<DataRow>>
  {
    var name := Lower(e.espId);
    var table := if name in data then data[name] else [];
    data[name := if fails then table
                 else table + [RowOf(e, now)]]
  }

  /** battery_info after the first `n` elements, element `i` committing at `clock[i]` unless in `infoFails`. */
  function DirectoryAfter(dir: Directory, batch: seq<WebsiteDb.Reading>, n: nat, clock: seq<int>, infoFails: set<nat>): Directory
    requires n <= |batch| == |clock|
  {
    if n == 0 then dir
    else
      var prev := DirectoryAfter(dir, batch, n - 1, clock, infoFails);
      if n - 1 in infoFails then prev else Upsert(prev, batch[n - 1], clock[n - 1])
  }

  /** The data tables after the first `n` elements; the inserts in `insertFails` are rolled back. */
  function DataAfter(data: map<Id, seq<DataRow>>, batch: seq<WebsiteDb.Reading>, n: nat, clock: seq<int>, insertFails: set<nat>): map<Id, seq<DataRow>>
    requires n <= |batch| == |clock|
  {
    if n == 0 then data
    else Append(DataAfter(data, batch, n - 1, clock, insertFails), batch[n - 1], clock[n - 1], n - 1 in insertFails)
  }

  /** A batch keeps battery_info keyed and never changes a parent. */
  lemma {:induction false} ParentsUntouched(dir: Directory, batch: seq<WebsiteDb.Reading>, n: nat, clock: seq<int>, infoFails: set<nat>)
    requires n <= |batch| == |clock| && DirectoryKeyed(dir)
    ensures var r := DirectoryAfter(dir, batch, n, clock, infoFails);
      && DirectoryKeyed(r)
      && dir.info.Keys <= r.info.Keys
      && (forall k :: k in r.info ==> r.info[k].parentId == if k in dir.info then dir.info[k].parentId else None)
  {
    if n > 0 {
      ParentsUntouched(dir, batch, n - 1, clock, infoFails);
      if n - 1 !in infoFails {
        UpsertEffect(DirectoryAfter(dir, batch, n - 1, clock, infoFails), batch[n - 1], clock[n - 1]);
      }
    }
  }

  /** Whether element `j` is the last among the first `n` whose commit goes through for its device. */
  predicate LastInfoWrite(batch: seq<WebsiteDb.Reading>, n: nat, infoFails: set<nat>, j: nat)
    requires n <= |batch|
  {
    && j < n && j !in infoFails
    && forall k :: j < k < n && batch[k].espId == batch[j].espId ==> k in infoFails
  }

  /**
   * After a batch, a device whose last successful commit came from element
   * `j` shows that element's temperature and voltage, scaled by a tenth, and
   * that commit's time.
   */
  lemma {:induction false} LatestReadingShown(dir: Directory, batch: seq<WebsiteDb.Reading>, n: nat, clock: seq<int>, infoFails: set<nat>, j: nat)
    requires n <= |batch| == |clock| && LastInfoWrite(batch, n, infoFails, j)
    ensures var r := DirectoryAfter(dir, batch, n, clock, infoFails);
      && batch[j].espId in r.info
      && var b := r.info[batch[j].espId];
      && b.name == batch[j].espId && b.lastUpdated == clock[j]
      && b.temperature == Some(batch[j].content.aT as real / 10.0)
      && b.voltage == Some(batch[j].content.V as real / 10.0)
  {
    var prev := DirectoryAfter(dir, batch, n - 1, clock, infoFails);
    if n - 1 !in infoFails {
      UpsertEffect(prev, batch[n - 1], clock[n - 1]);
    }
    if j < n - 1 {
      LatestReadingShown(dir, batch, n - 1, clock, infoFails, j);
    }
  }

  /** The rows a batch appends to a table: those of its elements with that table whose insert goes through. */
  function NewRows(batch: seq<WebsiteDb.Reading>, n: nat, clock: seq<int>, insertFails: set<nat>, name: Id): seq<DataRow>
    requires n <= |batch| == |clock|
  {
    if n == 0 then []
    else
      var e := batch[n - 1];
      NewRows(batch, n - 1, clock, insertFails, name)
      + (if Lower(e.espId) == name && n - 1 !in insertFails
         then [RowOf(e, clock[n - 1])] else [])
  }

  /** Appending an element touches only its own table, which gains its row unless the insert fails. */
  lemma AppendEffect(data: map<Id, seq<DataRow>>, e: WebsiteDb.Reading, now: int, fails: bool, name: Id)
    ensures var r := Append(data, e, now, fails);
      && (name in r <==> name in data || name == Lower(e.espId))
      && (name in r ==>
            r[name] == (if name in data then data[name] else []) + (if name == Lower(e.espId) && !fails then [RowOf(e, now)] else []))
  {
  }

  /** The table names of the first `n` elements. */
  function BatchNames(batch: seq<WebsiteDb.Reading>, n: nat): set<Id>
    requires n <= |batch|
  {
    if n == 0 then {} else BatchNames(batch, n - 1) + {Lower(batch[n - 1].espId)}
  }

  /** A batch creates a data table for each of its ids, whether or not the insert goes through, and no other. */
  lemma {:induction false} DataTablesForBatch(data: map<Id, seq<DataRow>>, batch: seq<WebsiteDb.Reading>, n: nat, clock: seq<int>, insertFails: set<nat>)
    requires n <= |batch| == |clock|
    ensures forall k :: k in DataAfter(data, batch, n, clock, insertFails) <==> k in data || k in BatchNames(batch, n)
  {
    if n > 0 {
      DataTablesForBatch(data, batch, n - 1, clock, insertFails);
    }
  }

  /** The rows of the table `name` in `data`, none when it has no such table. */
  function TableOf(data: map<Id, seq<DataRow>>, name: Id): seq<DataRow>
  {
    if name in data then data[name] else []
  }

  /**
   * Data tables are append-only: after a batch, each table is its old rows
   * followed by the rows of the batch's elements that share its name, in
   * batch order; a name that has no table after the batch had none before
   * and gains no rows.
   */
  lemma {:induction false} DataAppendOnly(data: map<Id, seq<DataRow>>, batch: seq<WebsiteDb.Reading>, n: nat, clock: seq<int>, insertFails: set<nat>, name: Id)
    requires n <= |batch| == |clock|
    ensures TableOf(DataAfter(data, batch, n, clock, insertFails), name)
      == TableOf(data, name) + NewRows(batch, n, clock, insertFails, name)
  {
    if n == 0 {
      assert TableOf(data, name) + [] == TableOf(data, name);
    } else {
      var extra := DataStep(data, batch, n, clock, insertFails, name);
      DataAppendOnly(data, batch, n - 1, clock, insertFails, name);
      AppendAssociates(TableOf(data, name), NewRows(batch, n - 1, clock, insertFails, name), extra);
    }
  }

  /** Concatenation is associative. */
  lemma AppendAssociates<T>(a: seq<T>, b: seq<T>, c: seq<T>)
    ensures (a + b) + c == a + (b + c)
  {
  }

  /** One element of the batch appends the same rows to a table as it adds to that table's `NewRows`. */
  lemma DataStep(data: map<Id, seq<DataRow>>, batch: seq<WebsiteDb.Reading>, n: nat, clock: seq<int>, insertFails: set<nat>, name: Id)
    returns (extra: seq<DataRow>)
    requires 0 < n <= |batch| == |clock|
    ensures NewRows(batch, n, clock, insertFails, name) == NewRows(batch, n - 1, clock, insertFails, name) + extra
    ensures TableOf(DataAfter(data, batch, n, clock, insertFails), name)
      == TableOf(DataAfter(data, batch, n - 1, clock, insertFails), name) + extra
  {
    var e := batch[n - 1];
    var fails := n - 1 in insertFails;
    var prev := DataAfter(data, batch, n - 1, clock, insertFails);
    extra := if Lower(e.espId) == name && !fails then [RowOf(e, clock[n - 1])] else [];
    assert DataAfter(data, batch, n, clock, insertFails) == Append(prev, e, clock[n - 1], fails);
    AppendEffect(prev, e, clock[n - 1], fails, name);
    if name !in prev && name != Lower(e.espId) {
      assert TableOf(prev, name) + [] == TableOf(prev, name);
    }
  }

  /** No rows are appended under a name the batch does not use. */
  lemma {:induction false} NoRowsWithoutName(batch: seq<WebsiteDb.Reading>, n: nat, clock: seq<int>, insertFails: set<nat>, name: Id)
    requires n <= |batch| == |clock| && name !in BatchNames(batch, n)
    ensures NewRows(batch, n, clock, insertFails, name) == []
  {
    if n > 0 {
      NoRowsWithoutName(batch, n - 1, clock, insertFails, name);
    }
  }

  /** Two ids differing only in letter case share one data table. */
  lemma CaseFoldedIdsShareTable(data: map<Id, seq<DataRow>>, a: WebsiteDb.Reading, b: WebsiteDb.Reading, now: int)
    requires Lower(a.espId) == Lower(b.espId)
    ensures var r := Append(Append(data, a, now, false), b, now, false);
      |r[Lower(a.espId)]| == (if Lower(a.espId) in data then |data[Lower(a.espId)]| else 0) + 2
  {
  }

  // ---------------------------------------------------------------------------
  // The tree served by /list
  // ---------------------------------------------------------------------------

  /** Whether some connected mesh lists `id`. */
  predicate Online(clients: map<Id, EspClient>, id: Id)
  {
    exists m :: m in clients && id in clients[m].ids
  }

  /** A battery as the tree shows it: its id, parent, time, and whether it is online. */
  function TreeRecord(b: Battery, clients: map<Id, EspClient>): MeshDirectory.InfoRecord<Id>
  {
    MeshDirectory.InfoRecord(b.id, b.parentId, b.lastUpdated, Online(clients, b.id))
  }

  /** The first `n` batteries in query order, as the tree shows them. */
  function TreeRecords(dir: Directory, n: nat, clients: map<Id, EspClient>): seq<MeshDirectory.InfoRecord<Id>>
    requires n <= |dir.order| && forall k :: k in dir.order ==> k in dir.info
  {
    if n == 0 then []
    else
      var k := dir.order[n - 1];
      assert k in dir.order;
      TreeRecords(dir, n - 1, clients) + [TreeRecord(dir.info[k], clients)]
  }

  /** The tree's records are the batteries in query order, each once, online exactly when some mesh lists it. */
  lemma {:induction false} TreeRecordsListed(dir: Directory, n: nat, clients: map<Id, EspClient>)
    requires DirectoryKeyed(dir) && n <= |dir.order|
    ensures var v := TreeRecords(dir, n, clients);
      && |v| == n
      && (forall i :: 0 <= i < n ==> v[i].espId == dir.order[i] && v[i].rootId == dir.info[dir.order[i]].parentId)
      && (forall i :: 0 <= i < n ==> (v[i].live <==> Online(clients, dir.order[i])))
      && MeshDirectory.DistinctIds(v)
  {
    if n > 0 {
      TreeRecordsListed(dir, n - 1, clients);
      assert dir.order[n - 1] in dir.order;
    }
  }

  /** After a reset every battery is a root without children. */
  lemma ResetFlattensTree(records: seq<MeshDirectory.InfoRecord<Id>>)
    requires forall r :: r in records ==> r.rootId.None?
    ensures var tree := MeshDirectory.InfoView(records, k => k != "");
      && (forall v :: v in tree ==> v.nodes == [])
      && (forall i :: 0 <= i < |records| ==> exists v :: v in tree && v.record == records[i])
  {
    var tree := MeshDirectory.InfoView(records, k => k != "");
    MeshDirectory.ViewHoldsOnlyRoots(records, |records|, k => k != "");
    MeshDirectory.ViewHoldsEveryRoot(records, |records|, k => k != "");
    forall v | v in tree
      ensures v.nodes == []
    {
      NothingListed(v.nodes);
    }
  }

  /** A non-empty sequence lists its first element. */
  lemma FirstListed<T>(s: seq<T>)
    ensures s == [] || s[0] in s
  {
  }

  /** A sequence with no member is empty. */
  lemma NothingListed<T>(s: seq<T>)
    requires forall x :: x !in s
    ensures s == []
  {
    FirstListed(s);
  }

  // ---------------------------------------------------------------------------
  // The tables and their operations
  // ---------------------------------------------------------------------------

  /** The website's battery tables. */
  class BatteryDb {
    var dir: Directory
    var data: map<Id, seq<DataRow>>

    /** Empty tables. */
    constructor ()
      ensures dir == Directory(map[], []) && data == map[]
    {
      dir := Directory(map[], []);
      data := map[];
    }

    /** `reset_structure`: every battery loses its parent; nothing else changes. */
    method ResetStructure()
      requires DirectoryKeyed(dir)
      modifies this
      ensures dir.order == old(dir.order) && dir.info.Keys == old(dir.info.Keys) && data == old(data)
      ensures forall k :: k in dir.info ==> dir.info[k] == old(dir.info[k]).(parentId := None)
    {
      ghost var done: set<Id> := {};
      var i := 0;
      while i < |dir.order|
        invariant 0 <= i <= |dir.order| && dir.order == old(dir.order) && dir.info.Keys == old(dir.info.Keys)
        invariant data == old(data)
        invariant forall j :: 0 <= j < i ==> dir.order[j] in done
        invariant forall k :: k in dir.info ==>
          dir.info[k] == if k in done then old(dir.info[k]).(parentId := None) else old(dir.info[k])
      {
        var k := dir.order[i];
        assert k in dir.info;
        dir := dir.(info := dir.info[k := dir.info[k].(parentId := None)]);
        done := done + {k};
        i := i + 1;
      }
      forall k | k in dir.info
        ensures k in done
      {
        var j :| 0 <= j < |dir.order| && dir.order[j] == k;
      }
    }

    /**
     * `update_database` for one batch, element `i` handled at `clock[i]`:
     * an empty batch answers False and changes nothing; otherwise every
     * element is upserted and its row appended, and the answer is None.
     */
    method UpdateDatabase(batch: seq<WebsiteDb.Reading>, clock: seq<int>, infoFails: set<nat>, insertFails: set<nat>)
      returns (result: Option<bool>)
      requires |clock| == |batch|
      modifies this
      ensures batch == [] <==> result == Some(false)
      ensures batch != [] ==> result.None?
      ensures dir == DirectoryAfter(old(dir), batch, |batch|, clock, infoFails)
      ensures data == DataAfter(old(data), batch, |batch|, clock, insertFails)
    {
      if batch == [] {
        return Some(false);
      }
      ghost var dir0, data0 := dir, data;
      var i := 0;
      while i < |batch|
        invariant 0 <= i <= |batch|
        invariant dir == DirectoryAfter(dir0, batch, i, clock, infoFails)
        invariant data == DataAfter(data0, batch, i, clock, insertFails)
      {
        var e := batch[i];
        if i !in infoFails {
          dir := Upsert(dir, e, clock[i]);
        }
        StoreRow(e, clock[i], i in insertFails);
        i := i + 1;
      }
      return None;
    }

    /** `create_battery_data_table`: the table named by the id in lower case, created empty when missing. */
    method CreateBatteryDataTable(espId: Id) returns (name: Id)
      modifies this
      ensures name == Lower(espId) && name in data && dir == old(dir)
      ensures data == if name in old(data) then old(data) else old(data)[name := []]
    {
      name := Lower(espId);
      if name !in data {
        data := data[name := []];
      }
    }

    /** The data work of one element: its table, then the row unless the insert fails. */
    method StoreRow(e: WebsiteDb.Reading, now: int, fails: bool)
      modifies this
      ensures data == Append(old(data), e, now, fails) && dir == old(dir)
    {
      var name := CreateBatteryDataTable(e.espId);
      if !fails {
        data := data[name := data[name] + [RowOf(e, now)]];
      }
    }

    /** `get_batteries`: the tree of batteries, roots first, each with its children. */
    method GetBatteries(clients: map<Id, EspClient>) returns (tree: seq<MeshDirectory.RootView<Id>>)
      requires DirectoryKeyed(dir)
      ensures tree == MeshDirectory.InfoView(TreeRecords(dir, |dir.order|, clients), k => k != "")
    {
      var online := OnlineIds(clients);
      var records: seq<MeshDirectory.InfoRecord<Id>> := [];
      var i := 0;
      while i < |dir.order|
        invariant 0 <= i <= |dir.order|
        invariant records == TreeRecords(dir, i, clients)
      {
        var b := dir.info[dir.order[i]];
        records := records + [MeshDirectory.InfoRecord(b.id, b.parentId, b.lastUpdated, b.id in online)];
        i := i + 1;
      }
      TreeRecordsListed(dir, |dir.order|, clients);
      tree := MeshDirectory.Info(records, k => k != "");
    }
  }

  /** The ids of every connected mesh: `online_esp_ids`. */
  method OnlineIds(clients: map<Id, EspClient>) returns (online: set<Id>)
    ensures forall id :: id in online <==> Online(clients, id)
  {
    online := {};
    var rest := clients.Keys;
    while rest != {}
      invariant rest <= clients.Keys
      invariant forall id :: id in online <==> exists m :: m in clients.Keys - rest && id in clients[m].ids
      decreases |rest|
    {
      var m :| m in rest;
      online := online + set id | id in clients[m].ids;
      rest := rest - {m};
    }
  }
}
