/**
 * The mesh directory served by the `info` endpoints: the battery_info rows
 * regrouped as a list of roots, each carrying the rows that name it as their
 * root. The same algorithm appears in the backend (integer ids, where id 0 is
 * falsy) and in the website (string ids, where "" is falsy), so the key type
 * and Python's truthiness of a key are parameters.
 */
module MeshDirectory {
  import opened Common

  /** One battery_info row. */
  datatype InfoRecord<K> = InfoRecord(espId: K, rootId: Option<K>, lastUpdated: int, live: bool)

  /** One entry of the answer: a root row and the rows attached to it as nodes. */
  datatype RootView<K> = RootView(record: InfoRecord<K>, nodes: seq<InfoRecord<K>>)

  /** battery_info is keyed by esp_id: no two rows share one. */
  ghost predicate DistinctIds<K>(records: seq<InfoRecord<K>>)
  {
    forall i, j :: 0 <= i < j < |records| ==> records[i].espId != records[j].espId
  }

  /** The rows that name `root` as their root, in query order. */
  function NodesOf<K(==)>(records: seq<InfoRecord<K>>, root: K): seq<InfoRecord<K>>
  {
    if records == [] then []
    else
      var last := records[|records| - 1];
      NodesOf(records[..|records| - 1], root) + (if last.rootId == Some(root) then [last] else [])
  }

  /** The nodes of `root` are exactly the rows naming it as root. */
  lemma {:induction false} NodesOfMembers<K(!new)>(records: seq<InfoRecord<K>>, root: K)
    ensures forall n :: n in NodesOf(records, root) <==> n in records && n.rootId == Some(root)
  {
    if records != [] {
      var last := records[|records| - 1];
      NodesOfMembers(records[..|records| - 1], root);
      assert records == records[..|records| - 1] + [last];
    }
  }

  /**
   * The answer for the roots among the first `n` rows: every row without a
   * root, in query order, with the rows naming it as root when its id is
   * truthy (a falsy root id is never collected).
   */
  function ViewOf<K(==)>(records: seq<InfoRecord<K>>, n: nat, truthy: K -> bool): seq<RootView<K>>
    requires n <= |records|
  {
    if n == 0 then []
    else
      var r := records[n - 1];
      ViewOf(records, n - 1, truthy)
      + (if r.rootId.None? then [RootView(r, if truthy(r.espId) then NodesOf(records, r.espId) else [])] else [])
  }

  /** The answer of `info` for the visible rows. */
  function InfoView<K(==)>(records: seq<InfoRecord<K>>, truthy: K -> bool): seq<RootView<K>>
  {
    ViewOf(records, |records|, truthy)
  }

  /**
   * Only rows without a root are returned, and each carries exactly the rows
   * that name it as root (none when its id is falsy).
   */
  lemma {:induction false} ViewHoldsOnlyRoots<K(!new)>(records: seq<InfoRecord<K>>, n: nat, truthy: K -> bool)
    requires n <= |records|
    ensures forall v :: v in ViewOf(records, n, truthy) ==>
      && v.record in records[..n]
      && v.record.rootId.None?
      && (forall m :: m in v.nodes <==> truthy(v.record.espId) && m in records && m.rootId == Some(v.record.espId))
  {
    if n > 0 {
      ViewHoldsOnlyRoots(records, n - 1, truthy);
      NodesOfMembers(records, records[n - 1].espId);
      assert records[..n] == records[..n - 1] + [records[n - 1]];
    }
  }

  /** Every row without a root is returned, in query order. */
  lemma {:induction false} ViewHoldsEveryRoot<K(!new)>(records: seq<InfoRecord<K>>, n: nat, truthy: K -> bool)
    requires n <= |records|
    ensures forall j :: 0 <= j < n && records[j].rootId.None? ==>
      exists v :: v in ViewOf(records, n, truthy) && v.record == records[j]
  {
    if n > 0 {
      ViewHoldsEveryRoot(records, n - 1, truthy);
      var view := ViewOf(records, n, truthy);
      var prev := ViewOf(records, n - 1, truthy);
      forall j | 0 <= j < n && records[j].rootId.None?
        ensures exists v :: v in view && v.record == records[j]
      {
        if j < n - 1 {
          var v :| v in prev && v.record == records[j];
          assert v in view;
        } else {
          var v := RootView(records[j], if truthy(records[j].espId) then NodesOf(records, records[j].espId) else []);
          assert view[|view| - 1] == v;
        }
      }
    }
  }

  /** The esp ids of a sequence of rows. */
  function Ids<K>(rows: seq<InfoRecord<K>>): (ids: seq<K>)
    ensures |ids| == |rows|
    ensures forall k :: 0 <= k < |rows| ==> ids[k] == rows[k].espId
  {
    if rows == [] then [] else Ids(rows[..|rows| - 1]) + [rows[|rows| - 1].espId]
  }

  /** The id-to-row dictionary after scanning `rows`. */
  function EspDictOf<K>(rows: seq<InfoRecord<K>>): map<K, InfoRecord<K>>
  {
    if rows == [] then map[]
    else
      var last := rows[|rows| - 1];
      EspDictOf(rows[..|rows| - 1])[last.espId := last]
  }

  /** The root-to-node-ids dictionary after scanning `rows`. */
  function NodeIdsOf<K>(rows: seq<InfoRecord<K>>, truthy: K -> bool): map<K, seq<K>>
  {
    if rows == [] then map[]
    else
      var last := rows[|rows| - 1];
      var d := NodeIdsOf(rows[..|rows| - 1], truthy);
      if last.rootId.Some? && truthy(last.rootId.value) then
        var root := last.rootId.value;
        d[root := (if root in d then d[root] else []) + [last.espId]]
      else d
  }

  /** With distinct ids, the id-to-row dictionary finds every row. */
  lemma {:induction false} EspDictFindsRows<K>(rows: seq<InfoRecord<K>>)
    requires DistinctIds(rows)
    ensures forall j :: 0 <= j < |rows| ==> rows[j].espId in EspDictOf(rows) && EspDictOf(rows)[rows[j].espId] == rows[j]
  {
    if rows != [] {
      EspDictFindsRows(rows[..|rows| - 1]);
    }
  }

  lemma IdsSnoc<K>(rows: seq<InfoRecord<K>>, r: InfoRecord<K>)
    ensures Ids(rows + [r]) == Ids(rows) + [r.espId]
  {
    assert (rows + [r])[..|rows|] == rows;
  }

  /**
   * The root-to-node-ids dictionary holds exactly the truthy roots some row
   * names, each with the ids of the rows naming it, in query order.
   */
  lemma {:induction false} NodeIdsOfRoots<K>(rows: seq<InfoRecord<K>>, truthy: K -> bool)
    ensures forall k :: k in NodeIdsOf(rows, truthy) ==> truthy(k) && NodeIdsOf(rows, truthy)[k] == Ids(NodesOf(rows, k))
    ensures forall k :: truthy(k) && NodesOf(rows, k) != [] ==> k in NodeIdsOf(rows, truthy)
  {
    if rows != [] {
      var prefix := rows[..|rows| - 1];
      var last := rows[|rows| - 1];
      NodeIdsOfRoots(prefix, truthy);
      if last.rootId.Some? && truthy(last.rootId.value) {
        IdsSnoc(NodesOf(prefix, last.rootId.value), last);
      }
    }
  }

  /** The first loop of `info`: the id-to-row and root-to-node-ids dictionaries. */
  method CollectIds<K(==)>(records: seq<InfoRecord<K>>, truthy: K -> bool)
    returns (espDict: map<K, InfoRecord<K>>, nodesDict: map<K, seq<K>>, nodesOrder: seq<K>)
    ensures espDict == EspDictOf(records)
    ensures nodesDict == NodeIdsOf(records, truthy)
    ensures forall k :: k in nodesDict <==> k in nodesOrder
  {
    espDict, nodesDict, nodesOrder := map[], map[], [];
    var i := 0;
    while i < |records|
      invariant 0 <= i <= |records|
      invariant espDict == EspDictOf(records[..i])
      invariant nodesDict == NodeIdsOf(records[..i], truthy)
      invariant forall k :: k in nodesDict <==> k in nodesOrder
    {
      var battery := records[i];
      assert records[..i + 1][..i] == records[..i];
      espDict := espDict[battery.espId := battery];
      if battery.rootId.Some? && truthy(battery.rootId.value) {
        var root := battery.rootId.value;
        if root !in nodesDict {
          nodesDict := nodesDict[root := []];
          nodesOrder := nodesOrder + [root];
        }
        nodesDict := nodesDict[root := nodesDict[root] + [battery.espId]];
      }
      i := i + 1;
    }
    assert records[..i] == records;
  }

  /** The rows whose ids are listed, looked up in the id-to-row dictionary. */
  method LookUp<K(==)>(espDict: map<K, InfoRecord<K>>, nodeIds: seq<K>, ghost expected: seq<InfoRecord<K>>)
    returns (nodes: seq<InfoRecord<K>>)
    requires nodeIds == Ids(expected)
    requires forall n :: n in expected ==> n.espId in espDict && espDict[n.espId] == n
    ensures nodes == expected
  {
    nodes := [];
    var m := 0;
    while m < |nodeIds|
      invariant 0 <= m <= |nodeIds|
      invariant nodes == expected[..m]
    {
      assert expected[m] in expected;
      assert expected[..m + 1] == expected[..m] + [expected[m]];
      nodes := nodes + [espDict[nodeIds[m]]];
      m := m + 1;
    }
  }

  /** The second loop of `info`: attach to each root present the rows naming it. */
  method AttachNodes<K(==,!new)>(records: seq<InfoRecord<K>>, truthy: K -> bool, espDict: map<K, InfoRecord<K>>,
                                 nodesDict: map<K, seq<K>>, nodesOrder: seq<K>)
    returns (attached: map<K, seq<InfoRecord<K>>>)
    requires forall j :: 0 <= j < |records| ==> records[j].espId in espDict && espDict[records[j].espId] == records[j]
    requires forall k :: k in nodesDict ==> truthy(k) && nodesDict[k] == Ids(NodesOf(records, k))
    requires forall k :: k in nodesDict <==> k in nodesOrder
    ensures forall k :: k in attached ==> truthy(k) && attached[k] == NodesOf(records, k)
    ensures forall k :: k in nodesDict && k in espDict ==> k in attached
  {
    attached := map[];
    var r := 0;
    while r < |nodesOrder|
      invariant 0 <= r <= |nodesOrder|
      invariant forall k :: k in attached ==> truthy(k) && attached[k] == NodesOf(records, k)
      invariant forall q :: 0 <= q < r && nodesOrder[q] in espDict ==> nodesOrder[q] in attached
    {
      var rootId := nodesOrder[r];
      if rootId in espDict {
        NodesOfMembers(records, rootId);
        forall n | n in NodesOf(records, rootId)
          ensures n.espId in espDict && espDict[n.espId] == n
        {
          var j :| 0 <= j < |records| && records[j] == n;
        }
        var nodes := LookUp(espDict, nodesDict[rootId], NodesOf(records, rootId));
        attached := attached[rootId := nodes];
      }
      r := r + 1;
    }
  }

  /** The last loop of `info`: keep the rows without a root, with their attached nodes. */
  method KeepRoots<K(==)>(records: seq<InfoRecord<K>>, truthy: K -> bool, attached: map<K, seq<InfoRecord<K>>>)
    returns (roots: seq<RootView<K>>)
    requires forall k :: k in attached ==> truthy(k) && attached[k] == NodesOf(records, k)
    requires forall j :: 0 <= j < |records| && truthy(records[j].espId) && NodesOf(records, records[j].espId) != []
               ==> records[j].espId in attached
    ensures roots == InfoView(records, truthy)
  {
    roots := [];
    var j := 0;
    while j < |records|
      invariant 0 <= j <= |records|
      invariant roots == ViewOf(records, j, truthy)
    {
      var battery := records[j];
      ghost var expected := if truthy(battery.espId) then NodesOf(records, battery.espId) else [];
      if battery.rootId.None? {
        var nodes := if battery.espId in attached then attached[battery.espId] else [];
        assert nodes == expected;
        roots := roots + [RootView(battery, nodes)];
      }
      assert ViewOf(records, j + 1, truthy) == ViewOf(records, j, truthy)
        + (if battery.rootId.None? then [RootView(battery, expected)] else []);
      j := j + 1;
    }
  }

  /** `info`: the roots among the visible rows, each with its nodes. */
  method Info<K(==,!new)>(records: seq<InfoRecord<K>>, truthy: K -> bool) returns (roots: seq<RootView<K>>)
    requires DistinctIds(records)
    ensures roots == InfoView(records, truthy)
  {
    var espDict, nodesDict, nodesOrder := CollectIds(records, truthy);
    EspDictFindsRows(records);
    NodeIdsOfRoots(records, truthy);
    var attached := AttachNodes(records, truthy, espDict, nodesDict, nodesOrder);
    roots := KeepRoots(records, truthy, attached);
  }
}
