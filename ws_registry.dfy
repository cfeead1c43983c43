/**
 * The websocket registries of the test website (`ws`): connected meshes,
 * keyed by the id of their root and listing every id of their mesh, and
 * connected browsers, keyed by a browser id and watching one battery id (or
 * "LIST" for the list page). Both are dictionaries whose insertion order the
 * handlers depend on, so each is kept as a map together with its key order.
 * Sockets are known only by their identity; a send that fails is modelled by
 * the socket being in a given `dead` set.
 */
module WsRegistry {
  import opened Common

  type Id = seq<char>

  type Socket = nat

  /** The pseudo battery id watched by browsers on the list page. */
  const ListPage: Id := "LIST"

  /** A browser: its socket and the battery id it watches (None when the query gave none). */
  datatype BrowserEntry = BrowserEntry(ws: Socket, espId: Option<Id>)

  /** A mesh: the socket of its root and the ids of its devices, root first. */
  datatype EspEntry = EspEntry(ws: Socket, meshIds: seq<Id>)

  /** The messages the handlers send. */
  datatype Message =
    | StatusUpdate(browserId: Id, espId: Id)
    | Request(rootId: Id, nodeId: Id, payload: seq<char>)
    | Response(ok: bool)

  /** One message handed to a socket. */
  datatype Send = Send(to: Socket, message: Message)

  /** The browser registry, its key order, and every message sent so far. */
  datatype Browsers = Browsers(order: seq<Id>, clients: map<Id, BrowserEntry>, sent: seq<Send>)

  /** No id is listed twice. */
  ghost predicate Distinct(s: seq<Id>)
  {
    forall i, j :: 0 <= i < j < |s| ==> s[i] != s[j]
  }

  /** A dictionary: its keys are listed once each, in insertion order. */
  ghost predicate Ordered<V>(order: seq<Id>, m: map<Id, V>)
  {
    (forall k :: k in m <==> k in order) && Distinct(order)
  }

  /** The rest of a list without repeats has none, and lacks the first id. */
  lemma DistinctTail(s: seq<Id>)
    requires Distinct(s) && s != []
    ensures Distinct(s[1..]) && s[0] !in s[1..]
  {
    forall i, j | 0 <= i < j < |s[1..]|
      ensures s[1..][i] != s[1..][j]
    {
      assert s[1..][i] == s[i + 1] && s[1..][j] == s[j + 1];
    }
    forall j | 0 <= j < |s[1..]|
      ensures s[1..][j] != s[0]
    {
      assert s[1..][j] == s[j + 1];
    }
  }

  /** An id of a list is its first or in the rest. */
  lemma FirstOrRest(s: seq<Id>, k: Id)
    requires k in s
    ensures k == s[0] || k in s[1..]
  {
    var j :| 0 <= j < |s| && s[j] == k;
    if j > 0 {
      assert s[1..][j - 1] == k;
    }
  }

  /** The key order without `k`. */
  function Remove(order: seq<Id>, k: Id): (r: seq<Id>)
    ensures forall x :: x in r <==> x in order && x != k
    ensures |r| <= |order|
  {
    if order == [] then []
    else (if order[0] == k then [] else [order[0]]) + Remove(order[1..], k)
  }

  /** Removing an id from a list without repeats leaves none. */
  lemma {:induction false} RemoveDistinct(order: seq<Id>, k: Id)
    requires Distinct(order)
    ensures Distinct(Remove(order, k))
    decreases |order|
  {
    if order != [] {
      DistinctTail(order);
      RemoveDistinct(order[1..], k);
      var rest := Remove(order[1..], k);
      if order[0] != k {
        assert Remove(order, k) == [order[0]] + rest;
        assert order[0] !in rest;
        forall i, j | 0 <= i < j < |[order[0]] + rest|
          ensures ([order[0]] + rest)[i] != ([order[0]] + rest)[j]
        {
          if i > 0 {
            assert ([order[0]] + rest)[i] == rest[i - 1] && ([order[0]] + rest)[j] == rest[j - 1];
          } else {
            assert ([order[0]] + rest)[j] == rest[j - 1];
          }
        }
      } else {
        assert Remove(order, k) == rest;
      }
    }
  }

  /** Removing a key from a dictionary keeps its key order listing each key once. */
  lemma RemoveKeepsOrdered<V>(order: seq<Id>, m: map<Id, V>, k: Id)
    requires Ordered(order, m)
    ensures Ordered(Remove(order, k), m - {k})
  {
    RemoveDistinct(order, k);
  }

  /** Whether a browser watches `espId`. */
  predicate Watches(e: BrowserEntry, espId: Id)
  {
    e.espId == Some(espId)
  }

  // ---------------------------------------------------------------------------
  // update_browsers
  // ---------------------------------------------------------------------------

  /**
   * One step of `update_browsers(esp_id)` at browser `k`: a browser watching
   * `espId` is sent a status update naming itself and `espId`; when that
   * send fails it is deleted from the registry.
   */
  function NotifyOne(b: Browsers, k: Id, espId: Id, dead: set<Socket>): Browsers
  {
    if k in b.clients && Watches(b.clients[k], espId) then
      if b.clients[k].ws in dead then Browsers(Remove(b.order, k), b.clients - {k}, b.sent)
      else b.(sent := b.sent + [Send(b.clients[k].ws, StatusUpdate(k, espId))])
    else b
  }

  /** `update_browsers` over the browsers `ids`, in that order, going on past a failed send. */
  function NotifyOver(b: Browsers, ids: seq<Id>, espId: Id, dead: set<Socket>): (r: Browsers)
    decreases |ids|
    ensures r.clients.Keys <= b.clients.Keys
    ensures forall k :: k in r.clients ==> r.clients[k] == b.clients[k]
    ensures |b.sent| <= |r.sent| && r.sent[..|b.sent|] == b.sent
  {
    if ids == [] then b else NotifyOver(NotifyOne(b, ids[0], espId, dead), ids[1..], espId, dead)
  }

  /** `update_browsers(esp_id)` over the whole registry, in its order. */
  function Notify(b: Browsers, espId: Id, dead: set<Socket>): (r: Browsers)
    ensures r.clients.Keys <= b.clients.Keys
    ensures forall k :: k in r.clients ==> r.clients[k] == b.clients[k]
    ensures forall k :: k in b.clients && k !in r.clients ==> Watches(b.clients[k], espId) && b.clients[k].ws in dead
    ensures |b.sent| <= |r.sent| && r.sent[..|b.sent|] == b.sent
  {
    NotifyOverDeletesFailed(b, b.order, espId, dead);
    NotifyOver(b, b.order, espId, dead)
  }

  /** The walk deletes only browsers that watch `espId` and whose send fails. */
  lemma {:induction false} NotifyOverDeletesFailed(b: Browsers, ids: seq<Id>, espId: Id, dead: set<Socket>)
    decreases |ids|
    ensures var r := NotifyOver(b, ids, espId, dead);
      forall k :: k in b.clients && k !in r.clients ==> Watches(b.clients[k], espId) && b.clients[k].ws in dead
  {
    if ids != [] {
      NotifyOverDeletesFailed(NotifyOne(b, ids[0], espId, dead), ids[1..], espId, dead);
    }
  }

  /** The status update due to browser `k` of `clients`: one when it watches `espId` and its socket works. */
  function Due(clients: map<Id, BrowserEntry>, k: Id, espId: Id, dead: set<Socket>): seq<Send>
  {
    if k in clients && Watches(clients[k], espId) && clients[k].ws !in dead
    then [Send(clients[k].ws, StatusUpdate(k, espId))] else []
  }

  /** The status updates due to the browsers `ids` of `clients`, in order. */
  function Sends(ids: seq<Id>, clients: map<Id, BrowserEntry>, espId: Id, dead: set<Socket>): seq<Send>
  {
    if ids == [] then [] else Due(clients, ids[0], espId, dead) + Sends(ids[1..], clients, espId, dead)
  }

  /** Whether browser `k` is among `ids`, watches `espId` and its send fails: it is dropped. */
  predicate Dropped(ids: seq<Id>, clients: map<Id, BrowserEntry>, espId: Id, dead: set<Socket>, k: Id)
    requires k in clients
  {
    k in ids && Watches(clients[k], espId) && clients[k].ws in dead
  }

  /** Browsers outside `ids` do not affect the status updates due to `ids`. */
  lemma {:induction false} SendsFrame(ids: seq<Id>, c1: map<Id, BrowserEntry>, c2: map<Id, BrowserEntry>, espId: Id, dead: set<Socket>)
    requires forall k :: k in ids ==> (k in c1 <==> k in c2) && (k in c1 ==> c1[k] == c2[k])
    ensures Sends(ids, c1, espId, dead) == Sends(ids, c2, espId, dead)
  {
    if ids != [] {
      SendsFrame(ids[1..], c1, c2, espId, dead);
    }
  }

  /**
   * Deleting failed browsers along the way changes nothing about who is sent
   * what: the messages are those due under the registry as it was before the
   * walk, and the registry loses exactly the walked watchers whose send
   * fails, keeping its key order valid.
   */
  lemma NotifyAsAtStart(b: Browsers, ids: seq<Id>, espId: Id, dead: set<Socket>)
    requires Ordered(b.order, b.clients) && Distinct(ids)
    ensures var r := NotifyOver(b, ids, espId, dead);
      && r.sent == b.sent + Sends(ids, b.clients, espId, dead)
      && (forall k :: k in r.clients <==> k in b.clients && !Dropped(ids, b.clients, espId, dead, k))
      && (forall k :: k in r.clients ==> r.clients[k] == b.clients[k])
      && Ordered(r.order, r.clients)
  {
    NotifySendsAsAtStart(b, ids, espId, dead);
    NotifyClientsAsAtStart(b, ids, espId, dead);
  }

  /** The messages of a walk over distinct browsers are those due under the registry at its start. */
  lemma {:induction false} NotifySendsAsAtStart(b: Browsers, ids: seq<Id>, espId: Id, dead: set<Socket>)
    requires Ordered(b.order, b.clients) && Distinct(ids)
    ensures NotifyOver(b, ids, espId, dead).sent == b.sent + Sends(ids, b.clients, espId, dead)
    decreases |ids|
  {
    if ids != [] {
      var k := ids[0];
      var next := NotifyOne(b, k, espId, dead);
      NotifyOneEffect(b, k, espId, dead);
      DistinctTail(ids);
      NotifySendsAsAtStart(next, ids[1..], espId, dead);
      SendsFrame(ids[1..], next.clients, b.clients, espId, dead);
      var due := Due(b.clients, k, espId, dead);
      var rest := Sends(ids[1..], b.clients, espId, dead);
      assert NotifyOver(b, ids, espId, dead).sent == (b.sent + due) + rest;
      assert (b.sent + due) + rest == b.sent + (due + rest);
    }
  }

  /** A walk over distinct browsers deletes exactly the walked watchers whose send fails. */
  lemma {:induction false} NotifyClientsAsAtStart(b: Browsers, ids: seq<Id>, espId: Id, dead: set<Socket>)
    requires Ordered(b.order, b.clients) && Distinct(ids)
    ensures var r := NotifyOver(b, ids, espId, dead);
      && (forall k :: k in r.clients <==> k in b.clients && !Dropped(ids, b.clients, espId, dead, k))
      && (forall k :: k in r.clients ==> r.clients[k] == b.clients[k])
      && Ordered(r.order, r.clients)
    decreases |ids|
  {
    if ids != [] {
      var k := ids[0];
      var next := NotifyOne(b, k, espId, dead);
      NotifyOneEffect(b, k, espId, dead);
      DistinctTail(ids);
      NotifyClientsAsAtStart(next, ids[1..], espId, dead);
      forall x | x in ids
        ensures x == k || x in ids[1..]
      {
        FirstOrRest(ids, x);
      }
    }
  }

  /**
   * One step at browser `k`: it alone may be deleted (exactly when it
   * watches `espId` and its send fails), and the messages grow by its due
   * status update.
   */
  lemma NotifyOneEffect(b: Browsers, k: Id, espId: Id, dead: set<Socket>)
    requires Ordered(b.order, b.clients)
    ensures var r := NotifyOne(b, k, espId, dead);
      && r.sent == b.sent + Due(b.clients, k, espId, dead)
      && (forall x :: x in r.clients <==> x in b.clients && !(x == k && Watches(b.clients[x], espId) && b.clients[x].ws in dead))
      && (forall x :: x in r.clients ==> r.clients[x] == b.clients[x])
      && Ordered(r.order, r.clients)
  {
    if k in b.clients && Watches(b.clients[k], espId) && b.clients[k].ws in dead {
      RemoveKeepsOrdered(b.order, b.clients, k);
    }
  }

  /**
   * `update_browsers(esp_id)` as intended: every browser watching `espId`
   * whose socket works is sent one status update, in registry order, and
   * nobody else is; exactly the watchers whose send fails are deleted.
   */
  lemma NotifyReachesEveryWatcher(b: Browsers, espId: Id, dead: set<Socket>)
    requires Ordered(b.order, b.clients)
    ensures var r := Notify(b, espId, dead);
      && r.sent == b.sent + Sends(b.order, b.clients, espId, dead)
      && (forall k :: k in r.clients <==> k in b.clients && !(Watches(b.clients[k], espId) && b.clients[k].ws in dead))
      && Ordered(r.order, r.clients)
  {
    NotifyAsAtStart(b, b.order, espId, dead);
  }

  /** The due status updates go exactly to the working watchers, one each. */
  lemma {:induction false} SendsExactlyToWatchers(ids: seq<Id>, clients: map<Id, BrowserEntry>, espId: Id, dead: set<Socket>)
    ensures forall s :: s in Sends(ids, clients, espId, dead) <==>
      exists k :: k in ids && k in clients && Watches(clients[k], espId) && clients[k].ws !in dead
        && s == Send(clients[k].ws, StatusUpdate(k, espId))
  {
    if ids != [] {
      SendsExactlyToWatchers(ids[1..], clients, espId, dead);
      forall k | k in ids
        ensures k == ids[0] || k in ids[1..]
      {
        FirstOrRest(ids, k);
      }
    }
  }

  /** The outcome of `update_browsers` as written: the registry and whether the walk raised. */
  datatype Outcome = Outcome(b: Browsers, raised: bool)

  /**
   * `update_browsers` as written deletes a failed browser from the
   * dictionary it is iterating over, so the next step of the iteration
   * raises: the walk ends at the first failed send.
   */
  function NotifyAsWritten(b: Browsers, ids: seq<Id>, espId: Id, dead: set<Socket>): (o: Outcome)
    decreases |ids|
    ensures !o.raised ==> o.b == NotifyOver(b, ids, espId, dead)
    ensures o.b.clients.Keys <= b.clients.Keys
    ensures |b.sent| <= |o.b.sent| && o.b.sent[..|b.sent|] == b.sent
  {
    if ids == [] then Outcome(b, false)
    else
      var k := ids[0];
      if k in b.clients && Watches(b.clients[k], espId) && b.clients[k].ws in dead
      then Outcome(NotifyOne(b, k, espId, dead), true)
      else NotifyAsWritten(NotifyOne(b, k, espId, dead), ids[1..], espId, dead)
  }

  /**
   * Two browsers watch battery "x"; the first one's socket is closed. As
   * written the second is never told about the update and the call raises;
   * as intended it is told.
   */
  lemma AsWrittenSkipsLaterWatchers()
    ensures var b := Browsers(["a", "b"], map["a" := BrowserEntry(1, Some("x")), "b" := BrowserEntry(2, Some("x"))], []);
      && NotifyAsWritten(b, b.order, "x", {1}).b.sent == []
      && NotifyAsWritten(b, b.order, "x", {1}).raised
      && Notify(b, "x", {1}).sent == [Send(2, StatusUpdate("b", "x"))]
  {
    var b := Browsers(["a", "b"], map["a" := BrowserEntry(1, Some("x")), "b" := BrowserEntry(2, Some("x"))], []);
    var afterA := NotifyOne(b, "a", "x", {1});
    assert "a" != "b";
    assert afterA.clients == map["b" := BrowserEntry(2, Some("x"))];
    assert b.order[1..] == ["b"];
    var afterB := NotifyOne(afterA, "b", "x", {1});
    assert afterB.sent == [Send(2, StatusUpdate("b", "x"))];
    assert NotifyOver(afterB, [], "x", {1}) == afterB;
  }

  // ---------------------------------------------------------------------------
  // forward_to_esp and the disconnect cleanup
  // ---------------------------------------------------------------------------

  /**
   * The mesh a request for `nodeId` reaches: the first root, in registry
   * order, whose mesh lists `nodeId` and whose socket works (a root whose
   * send fails is passed over).
   */
  function Route(order: seq<Id>, clients: map<Id, EspEntry>, nodeId: Id, dead: set<Socket>): (r: Option<Id>)
    ensures r.Some? ==> r.value in order && Carries(clients, r.value, nodeId, dead)
  {
    if order == [] then None
    else if order[0] in clients && nodeId in clients[order[0]].meshIds && clients[order[0]].ws !in dead then Some(order[0])
    else Route(order[1..], clients, nodeId, dead)
  }

  /** Whether root `k` can carry a request for `nodeId`. */
  predicate Carries(clients: map<Id, EspEntry>, k: Id, nodeId: Id, dead: set<Socket>)
  {
    k in clients && nodeId in clients[k].meshIds && clients[k].ws !in dead
  }

  /**
   * A request is routed to a root that lists the node and whose socket
   * works, with no such root before it in registry order; there is no route
   * exactly when no root can carry it.
   */
  lemma {:induction false} RouteIsFirstCarrier(order: seq<Id>, clients: map<Id, EspEntry>, nodeId: Id, dead: set<Socket>)
    ensures var r := Route(order, clients, nodeId, dead);
      && (r.None? <==> forall k :: k in order ==> !Carries(clients, k, nodeId, dead))
      && (r.Some? ==> exists i :: (0 <= i < |order| && order[i] == r.value && Carries(clients, r.value, nodeId, dead)
            && forall j :: 0 <= j < i ==> !Carries(clients, order[j], nodeId, dead)))
  {
    if order != [] && !Carries(clients, order[0], nodeId, dead) {
      RouteIsFirstCarrier(order[1..], clients, nodeId, dead);
      var r := Route(order, clients, nodeId, dead);
      if r.Some? {
        var i :| 0 <= i < |order[1..]| && order[1..][i] == r.value && Carries(clients, r.value, nodeId, dead)
          && forall j :: 0 <= j < i ==> !Carries(clients, order[1..][j], nodeId, dead);
        assert order[i + 1] == r.value;
        forall j | 0 <= j < i + 1
          ensures !Carries(clients, order[j], nodeId, dead)
        {
          if j > 0 {
            assert order[j] == order[1..][j - 1];
          }
        }
      }
      forall k | k in order
        ensures k == order[0] || k in order[1..]
      {
        FirstOrRest(order, k);
      }
    }
  }

  /** The mesh owned by socket `ws`: the first entry, in registry order, with that socket. */
  function Owner(order: seq<Id>, clients: map<Id, EspEntry>, ws: Socket): (r: Option<Id>)
    ensures r.Some? ==> r.value in order && r.value in clients && clients[r.value].ws == ws
  {
    if order == [] then None
    else if order[0] in clients && clients[order[0]].ws == ws then Some(order[0])
    else Owner(order[1..], clients, ws)
  }

  /** The owner found holds the socket; there is none exactly when no entry holds it. */
  lemma {:induction false} OwnerHoldsSocket(order: seq<Id>, clients: map<Id, EspEntry>, ws: Socket)
    ensures var r := Owner(order, clients, ws);
      && (r.Some? ==> r.value in order && r.value in clients && clients[r.value].ws == ws)
      && (r.None? <==> forall k :: k in order && k in clients ==> clients[k].ws != ws)
  {
    if order != [] {
      OwnerHoldsSocket(order[1..], clients, ws);
      forall k | k in order
        ensures k == order[0] || k in order[1..]
      {
        FirstOrRest(order, k);
      }
    }
  }

  /** `update_browsers` for each id of `ids` in turn. */
  function NotifyEach(b: Browsers, ids: seq<Id>, dead: set<Socket>): Browsers
    decreases |ids|
  {
    if ids == [] then b else NotifyEach(Notify(b, ids[0], dead), ids[1..], dead)
  }

  /** Notifying keeps the browser registry's key order valid, and the messages already sent. */
  lemma {:induction false} NotifyEachKeepsOrdered(b: Browsers, ids: seq<Id>, dead: set<Socket>)
    requires Ordered(b.order, b.clients)
    ensures var r := NotifyEach(b, ids, dead);
      Ordered(r.order, r.clients) && |b.sent| <= |r.sent| && r.sent[..|b.sent|] == b.sent && r.clients.Keys <= b.clients.Keys
    decreases |ids|
  {
    if ids != [] {
      var m := Notify(b, ids[0], dead);
      NotifyReachesEveryWatcher(b, ids[0], dead);
      NotifyEachKeepsOrdered(m, ids[1..], dead);
      var r := NotifyEach(m, ids[1..], dead);
      assert r.sent[..|b.sent|] == r.sent[..|m.sent|][..|b.sent|];
    }
  }

  // ---------------------------------------------------------------------------
  // The registries
  // ---------------------------------------------------------------------------

  /** The two registries of the test website and the sockets' outgoing traffic. */
  class Registry {
    var espOrder: seq<Id>
    var espClients: map<Id, EspEntry>
    var browserOrder: seq<Id>
    var browserClients: map<Id, BrowserEntry>
    /** Every message sent so far, to browsers and to meshes. */
    var sent: seq<Send>

    /** Both dictionaries list each key once, in insertion order. */
    ghost predicate Valid()
      reads this
    {
      Ordered(espOrder, espClients) && Ordered(browserOrder, browserClients)
    }

    /** The browser side of the state. */
    function BrowserSide(): Browsers
      reads this
    {
      Browsers(browserOrder, browserClients, sent)
    }

    /** Empty registries. */
    constructor ()
      ensures Valid() && espClients == map[] && browserClients == map[] && sent == []
    {
      espOrder, espClients := [], map[];
      browserOrder, browserClients := [], map[];
      sent := [];
    }

    /** The registration of `browser_ws`: `browser_clients[browser_id] = {ws, esp_id}`. */
    method BrowserConnect(browserId: Id, espId: Option<Id>, ws: Socket)
      requires Valid()
      modifies this
      ensures Valid()
      ensures browserClients == old(browserClients)[browserId := BrowserEntry(ws, espId)]
      ensures browserOrder == if browserId in old(browserClients) then old(browserOrder) else old(browserOrder) + [browserId]
      ensures espOrder == old(espOrder) && espClients == old(espClients) && sent == old(sent)
    {
      if browserId !in browserClients {
        browserOrder := browserOrder + [browserId];
      }
      browserClients := browserClients[browserId := BrowserEntry(ws, espId)];
    }

    /**
     * The cleanup of `browser_ws`: `del browser_clients[browser_id]`. It is
     * found (and deleted) unless a failed status update already removed it,
     * in which case the deletion raises and nothing changes.
     */
    method BrowserDisconnect(browserId: Id) returns (found: bool)
      requires Valid()
      modifies this
      ensures Valid()
      ensures found <==> browserId in old(browserClients)
      ensures browserClients == old(browserClients) - {browserId} && browserOrder == Remove(old(browserOrder), browserId)
      ensures espOrder == old(espOrder) && espClients == old(espClients) && sent == old(sent)
    {
      found := browserId in browserClients;
      RemoveKeepsOrdered(browserOrder, browserClients, browserId);
      browserOrder := Remove(browserOrder, browserId);
      browserClients := browserClients - {browserId};
    }

    /**
     * `update_browsers(esp_id)`: every browser watching `espId` is sent a
     * status update naming itself and `espId`; a browser whose send fails is
     * deleted and the walk goes on with the others.
     */
    method UpdateBrowsers(espId: Id, dead: set<Socket>)
      requires Valid()
      modifies this
      ensures Valid()
      ensures BrowserSide() == Notify(old(BrowserSide()), espId, dead)
      ensures espOrder == old(espOrder) && espClients == old(espClients)
    {
      ghost var b0 := BrowserSide();
      var ids := browserOrder;
      var i := 0;
      while i < |ids|
        invariant 0 <= i <= |ids| && espOrder == old(espOrder) && espClients == old(espClients)
        invariant NotifyOver(BrowserSide(), ids[i..], espId, dead) == Notify(b0, espId, dead)
      {
        assert ids[i..][1..] == ids[i + 1..];
        UpdateBrowser(ids[i], espId, dead);
        i := i + 1;
      }
      NotifyReachesEveryWatcher(b0, espId, dead);
    }

    /** One step of `update_browsers(esp_id)`, at browser `k`. */
    method UpdateBrowser(k: Id, espId: Id, dead: set<Socket>)
      modifies this
      ensures BrowserSide() == NotifyOne(old(BrowserSide()), k, espId, dead)
      ensures espOrder == old(espOrder) && espClients == old(espClients)
    {
      if k in browserClients && Watches(browserClients[k], espId) {
        var ws := browserClients[k].ws;
        if ws in dead {
          browserOrder := Remove(browserOrder, k);
          browserClients := browserClients - {k};
        } else {
          sent := sent + [Send(ws, StatusUpdate(k, espId))];
        }
      }
    }

    /**
     * `forward_to_esp`: nothing for an empty node id; otherwise the request,
     * tagged with the root and node ids, goes to the first root in registry
     * order whose mesh lists the node and whose send works.
     */
    method ForwardToEsp(nodeId: Id, payload: seq<char>, dead: set<Socket>)
      modifies this
      ensures var r := Route(old(espOrder), old(espClients), nodeId, dead);
        sent == old(sent) + (if nodeId != [] && r.Some? then [Send(old(espClients)[r.value].ws, Request(r.value, nodeId, payload))] else [])
      ensures espOrder == old(espOrder) && espClients == old(espClients)
      ensures browserOrder == old(browserOrder) && browserClients == old(browserClients)
    {
      if nodeId == [] {
        return;
      }
      var i := 0;
      while i < |espOrder|
        invariant 0 <= i <= |espOrder| && sent == old(sent)
        invariant Route(espOrder[i..], espClients, nodeId, dead) == Route(espOrder, espClients, nodeId, dead)
      {
        var k := espOrder[i];
        assert espOrder[i..][1..] == espOrder[i + 1..];
        if k in espClients && nodeId in espClients[k].meshIds {
          var ws := espClients[k].ws;
          if ws !in dead {
            sent := sent + [Send(ws, Request(k, nodeId, payload))];
            return;
          }
        }
        i := i + 1;
      }
    }

    /** The registration of a non-empty batch's mesh: `esp_clients[ids[0]] = {ws, mesh_ids}`. */
    method RegisterMesh(ids: seq<Id>, ws: Socket)
      requires Valid() && ids != []
      modifies this
      ensures Valid()
      ensures espClients == old(espClients)[ids[0] := EspEntry(ws, ids)]
      ensures espOrder == if ids[0] in old(espClients) then old(espOrder) else old(espOrder) + [ids[0]]
      ensures browserOrder == old(browserOrder) && browserClients == old(browserClients) && sent == old(sent)
    {
      if ids[0] !in espClients {
        espOrder := espOrder + [ids[0]];
      }
      espClients := espClients[ids[0] := EspEntry(ws, ids)];
    }

    /** `update_browsers` for each id of `ids` in turn. */
    method UpdateEach(ids: seq<Id>, dead: set<Socket>)
      requires Valid()
      modifies this
      ensures Valid()
      ensures BrowserSide() == NotifyEach(old(BrowserSide()), ids, dead)
      ensures espOrder == old(espOrder) && espClients == old(espClients)
    {
      var i := 0;
      while i < |ids|
        invariant 0 <= i <= |ids| && Valid() && espOrder == old(espOrder) && espClients == old(espClients)
        invariant NotifyEach(BrowserSide(), ids[i..], dead) == NotifyEach(old(BrowserSide()), ids, dead)
      {
        assert ids[i..][1..] == ids[i + 1..];
        UpdateBrowsers(ids[i], dead);
        i := i + 1;
      }
    }

    /**
     * One message on `/esp_ws` from socket `ws`, carrying the readings of the
     * devices `ids`: an empty list is skipped without a reply. Otherwise the
     * mesh is registered under its first id; when the readings are stored,
     * the watchers of each id are updated and the reply is "OK", and when
     * storing fails the reply is "error". Either way the list page is
     * updated before the reply.
     */
    method EspMessage(ids: seq<Id>, ws: Socket, storeFails: bool, dead: set<Socket>)
      requires Valid()
      modifies this
      ensures Valid()
      ensures ids == [] ==> espOrder == old(espOrder) && espClients == old(espClients) && BrowserSide() == old(BrowserSide())
      ensures ids != [] ==>
        && espClients == old(espClients)[ids[0] := EspEntry(ws, ids)]
        && var b := NotifyEach(old(BrowserSide()), if storeFails then [] else ids, dead);
        && var b' := Notify(b, ListPage, dead);
        && BrowserSide() == b'.(sent := b'.sent + [Send(ws, Response(!storeFails))])
    {
      if ids == [] {
        return;
      }
      RegisterMesh(ids, ws);
      if !storeFails {
        UpdateEach(ids, dead);
      }
      UpdateBrowsers(ListPage, dead);
      sent := sent + [Send(ws, Response(!storeFails))];
    }

    /** The search of that cleanup: the first mesh entry, in registry order, owned by socket `ws`. */
    method FindOwner(ws: Socket) returns (owner: Option<Id>)
      ensures owner == Owner(espOrder, espClients, ws)
      ensures owner.Some? ==> owner.value in espClients && espClients[owner.value].ws == ws
      ensures owner.None? <==> forall k :: k in espOrder && k in espClients ==> espClients[k].ws != ws
    {
      OwnerHoldsSocket(espOrder, espClients, ws);
      var i := 0;
      while i < |espOrder|
        invariant 0 <= i <= |espOrder|
        invariant Owner(espOrder[i..], espClients, ws) == Owner(espOrder, espClients, ws)
      {
        var k := espOrder[i];
        assert espOrder[i..][1..] == espOrder[i + 1..];
        if k in espClients && espClients[k].ws == ws {
          return Some(k);
        }
        i := i + 1;
      }
      return None;
    }

    /**
     * The cleanup of `esp_ws` when socket `ws` closes: the first mesh entry
     * owned by `ws`, if any, has each of its ids set not live (returned in
     * `offline`) and its watchers updated, and is deleted; then the list
     * page is updated.
     */
    method EspDisconnect(ws: Socket, dead: set<Socket>) returns (offline: seq<Id>)
      requires Valid()
      modifies this
      ensures Valid()
      ensures var owner := Owner(old(espOrder), old(espClients), ws);
        && offline == (if owner.Some? then old(espClients)[owner.value].meshIds else [])
        && espClients == (if owner.Some? then old(espClients) - {owner.value} else old(espClients))
        && BrowserSide() == Notify(NotifyEach(old(BrowserSide()), offline, dead), ListPage, dead)
    {
      var owner := FindOwner(ws);
      offline := if owner.Some? then espClients[owner.value].meshIds else [];
      UpdateEach(offline, dead);
      if owner.Some? {
        RemoveKeepsOrdered(espOrder, espClients, owner.value);
        espOrder := Remove(espOrder, owner.value);
        espClients := espClients - {owner.value};
      }
      UpdateBrowsers(ListPage, dead);
    }
  }
}
