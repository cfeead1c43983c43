/**
 * The website's websocket hub (`battery_ws`): the registry of connected
 * meshes, keyed by the id of their root; the registry of browsers, keyed by
 * the battery id they watch; the fan-out of each incoming reading to the
 * browser watching its battery; and the periodic eviction of meshes silent
 * for more than 30 seconds. Sockets are known only by their identity; a
 * send that fails is modelled by the socket being in a given `dead` set.
 */
module BatteryWs {
  import opened Common
  import BackendBattery
  import WebsiteDb
  import HttpBattery

  type Id = seq<char>

  type Socket = HttpBattery.Socket

  /** A mesh not heard from for more than this many seconds is offline. */
  const Timeout: real := 30.0

  /** The JSON object `{esp_id: data}` sent to a browser. */
  datatype Update = Update(espId: Id, data: BackendBattery.Content)

  /** One message handed to a socket. */
  datatype Send = Send(to: Socket, update: Update)

  /** The browser registry together with every message sent to browsers so far. */
  datatype Fanout = Fanout(browsers: map<Id, Socket>, sent: seq<Send>)

  // ---------------------------------------------------------------------------
  // broadcast
  // ---------------------------------------------------------------------------

  /**
   * `broadcast(esp_id, data)`: nothing for an empty id or no data; otherwise
   * the browser watching `espId`, if any, is sent the update, and is dropped
   * from the registry when that send fails.
   */
  function Broadcast(f: Fanout, espId: Id, data: Option<BackendBattery.Content>, dead: set<Socket>): Fanout
  {
    if espId == [] || data.None? || espId !in f.browsers then f
    else if f.browsers[espId] in dead then f.(browsers := f.browsers - {espId})
    else f.(sent := f.sent + [Send(f.browsers[espId], Update(espId, data.value))])
  }

  /** Whether a broadcast for `espId` reaches a live watcher. */
  predicate Delivers(browsers: map<Id, Socket>, espId: Id, dead: set<Socket>)
  {
    espId != [] && espId in browsers && browsers[espId] !in dead
  }

  /**
   * A broadcast sends at most one message, exactly when there is data and a
   * live browser watching a non-empty id, to that browser and carrying the
   * id and the data; the only registry change is dropping that id when its
   * browser's send fails.
   */
  lemma BroadcastEffect(f: Fanout, espId: Id, data: Option<BackendBattery.Content>, dead: set<Socket>)
    ensures var r := Broadcast(f, espId, data, dead);
      && (data.Some? && Delivers(f.browsers, espId, dead) ==> r.sent == f.sent + [Send(f.browsers[espId], Update(espId, data.value))])
      && (!(data.Some? && Delivers(f.browsers, espId, dead)) ==> r.sent == f.sent)
      && (forall k :: k in r.browsers <==> k in f.browsers && !(k == espId && data.Some? && espId != [] && f.browsers[k] in dead))
      && (forall k :: k in r.browsers ==> r.browsers[k] == f.browsers[k])
  {
  }

  /** The fan-out of the first `n` elements of a batch, one broadcast each. */
  function BroadcastAll(f: Fanout, batch: seq<WebsiteDb.Reading>, n: nat, dead: set<Socket>): Fanout
    requires n <= |batch|
  {
    if n == 0 then f
    else Broadcast(BroadcastAll(f, batch, n - 1, dead), batch[n - 1].espId, Some(batch[n - 1].content), dead)
  }

  /**
   * The messages a batch's first `n` elements produce, judged against the
   * registry as it was before the batch: one per element whose id a live
   * browser watches, in batch order.
   */
  function Expected(browsers: map<Id, Socket>, batch: seq<WebsiteDb.Reading>, n: nat, dead: set<Socket>): seq<Send>
    requires n <= |batch|
  {
    if n == 0 then []
    else
      var e := batch[n - 1];
      Expected(browsers, batch, n - 1, dead)
      + (if Delivers(browsers, e.espId, dead) then [Send(browsers[e.espId], Update(e.espId, e.content))] else [])
  }

  /** Whether `k` is the id of one of the first `n` elements. */
  predicate InBatch(batch: seq<WebsiteDb.Reading>, n: nat, k: Id)
    requires n <= |batch|
  {
    exists j :: 0 <= j < n && batch[j].espId == k
  }

  /**
   * Dropping failed browsers along the way changes nothing about who is
   * sent what: after the first `n` elements the messages are exactly those
   * judged against the starting registry, and the registry has lost exactly
   * the non-empty ids of the batch whose browser's send fails.
   */
  lemma {:induction false} FanoutAsAtStart(f: Fanout, batch: seq<WebsiteDb.Reading>, n: nat, dead: set<Socket>)
    requires n <= |batch|
    ensures var r := BroadcastAll(f, batch, n, dead);
      && r.sent == f.sent + Expected(f.browsers, batch, n, dead)
      && (forall k :: k in r.browsers <==> k in f.browsers && !(k != [] && InBatch(batch, n, k) && f.browsers[k] in dead))
      && (forall k :: k in r.browsers ==> r.browsers[k] == f.browsers[k])
  {
    if n > 0 {
      FanoutAsAtStart(f, batch, n - 1, dead);
      var prev := BroadcastAll(f, batch, n - 1, dead);
      var e := batch[n - 1];
      BroadcastEffect(prev, e.espId, Some(e.content), dead);
      assert Delivers(prev.browsers, e.espId, dead) <==> Delivers(f.browsers, e.espId, dead);
      forall k
        ensures InBatch(batch, n, k) <==> InBatch(batch, n - 1, k) || k == e.espId
      {
        if InBatch(batch, n, k) && !InBatch(batch, n - 1, k) {
          var j :| 0 <= j < n && batch[j].espId == k;
        }
      }
    }
  }

  /** Every message of a batch goes to the browser registered, at the start, under the id of its element. */
  lemma {:induction false} ExpectedOnlyToWatchers(browsers: map<Id, Socket>, batch: seq<WebsiteDb.Reading>, n: nat, dead: set<Socket>)
    requires n <= |batch|
    ensures forall s :: s in Expected(browsers, batch, n, dead) ==>
      exists j :: 0 <= j < n && batch[j].espId in browsers
        && s == Send(browsers[batch[j].espId], Update(batch[j].espId, batch[j].content))
  {
    if n > 0 {
      ExpectedOnlyToWatchers(browsers, batch, n - 1, dead);
    }
  }

  // ---------------------------------------------------------------------------
  // esp_ws registration and check_online
  // ---------------------------------------------------------------------------

  /** The ids of a batch, in order. */
  function Ids(batch: seq<WebsiteDb.Reading>): (ids: seq<Id>)
    ensures |ids| == |batch| && forall i :: 0 <= i < |batch| ==> ids[i] == batch[i].espId
  {
    if batch == [] then [] else Ids(batch[..|batch| - 1]) + [batch[|batch| - 1].espId]
  }

  /** Whether a mesh has been silent for longer than the timeout at time `now`. */
  predicate Stale(c: HttpBattery.EspClient, now: real)
  {
    now - c.lastUpdated > Timeout
  }

  /** The meshes still online at `now`. */
  function Fresh(clients: map<Id, HttpBattery.EspClient>, now: real): map<Id, HttpBattery.EspClient>
  {
    map k | k in clients && !Stale(clients[k], now) :: clients[k]
  }

  /** A mesh registered at `now` stays online for the next 30 seconds, and not a moment longer. */
  lemma RegisteredMeshTimesOut(clients: map<Id, HttpBattery.EspClient>, batch: seq<WebsiteDb.Reading>, ws: Socket, now: real, later: real)
    requires batch != []
    ensures var root := batch[0].espId;
      var registered := clients[root := HttpBattery.EspClient(ws, Ids(batch), now)];
      (root in Fresh(registered, later) <==> later - now <= Timeout)
      && (root in Fresh(registered, later) ==> Fresh(registered, later)[root].ids == Ids(batch))
  {
  }

  /** The meshes online at a later time are among those online earlier, and a second sweep removes nothing. */
  lemma FreshShrinksOverTime(clients: map<Id, HttpBattery.EspClient>, now: real, later: real)
    requires now <= later
    ensures Fresh(clients, later).Keys <= Fresh(clients, now).Keys
    ensures Fresh(Fresh(clients, now), now) == Fresh(clients, now)
  {
  }

  /** After a sweep at `now`, a battery is shown online exactly when a mesh heard from in the last 30 seconds lists it. */
  lemma OnlineAfterSweep(clients: map<Id, HttpBattery.EspClient>, now: real, id: Id)
    ensures HttpBattery.Online(Fresh(clients, now), id)
      <==> exists m :: m in clients && now - clients[m].lastUpdated <= Timeout && id in clients[m].ids
  {
    if HttpBattery.Online(Fresh(clients, now), id) {
      var m :| m in Fresh(clients, now) && id in Fresh(clients, now)[m].ids;
      assert m in clients && now - clients[m].lastUpdated <= Timeout;
    }
    if exists m :: m in clients && now - clients[m].lastUpdated <= Timeout && id in clients[m].ids {
      var m :| m in clients && now - clients[m].lastUpdated <= Timeout && id in clients[m].ids;
      assert m in Fresh(clients, now);
    }
  }

  // ---------------------------------------------------------------------------
  // The hub
  // ---------------------------------------------------------------------------

  /** The registries of `battery_status`, the sockets' outgoing traffic, and the battery tables. */
  class Hub {
    var espClients: map<Id, HttpBattery.EspClient>
    var browserClients: map<Id, Socket>
    /** Every message sent to a browser so far. */
    var sent: seq<Send>
    /** The ESP sockets answered "Ok", in order. */
    var replies: seq<Socket>
    const db: HttpBattery.BatteryDb

    /** Empty registries over the given tables. */
    constructor (db: HttpBattery.BatteryDb)
      ensures this.db == db && espClients == map[] && browserClients == map[] && sent == [] && replies == []
    {
      this.db := db;
      espClients := map[];
      browserClients := map[];
      sent := [];
      replies := [];
    }

    /** `broadcast`: see `Broadcast`. */
    method BroadcastTo(espId: Id, data: Option<BackendBattery.Content>, dead: set<Socket>)
      modifies this
      ensures Fanout(browserClients, sent) == Broadcast(Fanout(old(browserClients), old(sent)), espId, data, dead)
      ensures espClients == old(espClients) && replies == old(replies)
    {
      if espId == [] || data.None? {
        return;
      }
      if espId in browserClients {
        var ws := browserClients[espId];
        if ws in dead {
          browserClients := browserClients - {espId};
        } else {
          sent := sent + [Send(ws, Update(espId, data.value))];
        }
      }
    }

    /**
     * One message on `/esp_ws` from socket `ws` at time `now`: an empty batch
     * is skipped; otherwise the mesh is registered under its first id with
     * all its ids, each element is broadcast, the tables are updated
     * (element `i` at `clock[i]`), and the mesh is answered "Ok".
     */
    method EspMessage(batch: seq<WebsiteDb.Reading>, ws: Socket, now: real, clock: seq<int>,
                      infoFails: set<nat>, insertFails: set<nat>, dead: set<Socket>)
      requires |clock| == |batch|
      modifies this, db
      ensures batch == [] ==>
        && espClients == old(espClients) && browserClients == old(browserClients)
        && sent == old(sent) && replies == old(replies)
        && db.dir == old(db.dir) && db.data == old(db.data)
      ensures batch != [] ==>
        && espClients == old(espClients)[batch[0].espId := HttpBattery.EspClient(ws, Ids(batch), now)]
        && Fanout(browserClients, sent) == BroadcastAll(Fanout(old(browserClients), old(sent)), batch, |batch|, dead)
        && db.dir == HttpBattery.DirectoryAfter(old(db.dir), batch, |batch|, clock, infoFails)
        && db.data == HttpBattery.DataAfter(old(db.data), batch, |batch|, clock, insertFails)
        && replies == old(replies) + [ws]
    {
      if batch == [] {
        return;
      }
      Register(batch, ws, now);
      BroadcastBatch(batch, dead);
      var _ := db.UpdateDatabase(batch, clock, infoFails, insertFails);
      replies := replies + [ws];
    }

    /** The registration of a non-empty batch's mesh: `esp_clients[ids[0]] = {ws, ids, last_updated}`. */
    method Register(batch: seq<WebsiteDb.Reading>, ws: Socket, now: real)
      requires batch != []
      modifies this
      ensures espClients == old(espClients)[batch[0].espId := HttpBattery.EspClient(ws, Ids(batch), now)]
      ensures browserClients == old(browserClients) && sent == old(sent) && replies == old(replies)
    {
      var ids: seq<Id> := [];
      var i := 0;
      while i < |batch|
        invariant 0 <= i <= |batch| && ids == Ids(batch[..i])
      {
        assert batch[..i + 1][..i] == batch[..i];
        ids := ids + [batch[i].espId];
        i := i + 1;
      }
      assert batch[..|batch|] == batch;
      espClients := espClients[ids[0] := HttpBattery.EspClient(ws, ids, now)];
    }

    /** Every element of a batch broadcast in turn. */
    method BroadcastBatch(batch: seq<WebsiteDb.Reading>, dead: set<Socket>)
      modifies this
      ensures Fanout(browserClients, sent) == BroadcastAll(Fanout(old(browserClients), old(sent)), batch, |batch|, dead)
      ensures espClients == old(espClients) && replies == old(replies)
    {
      ghost var fan0 := Fanout(browserClients, sent);
      var i := 0;
      while i < |batch|
        invariant 0 <= i <= |batch|
        invariant Fanout(browserClients, sent) == BroadcastAll(fan0, batch, i, dead)
        invariant espClients == old(espClients) && replies == old(replies)
      {
        BroadcastTo(batch[i].espId, Some(batch[i].content), dead);
        i := i + 1;
      }
    }

    /** The opening of `/browser_ws`: the browser's socket is stored under the `esp_id` it watches. */
    method BrowserConnect(espId: Id, ws: Socket)
      modifies this
      ensures browserClients == old(browserClients)[espId := ws]
      ensures espClients == old(espClients) && sent == old(sent) && replies == old(replies)
    {
      browserClients := browserClients[espId := ws];
    }

    /**
     * The end of a `/browser_ws` handler: the entry under `key`, the last
     * `esp_id` the handler held, is deleted; when there is none the `del`
     * raises and the registry is left as it was.
     */
    method BrowserClose(key: Id) returns (found: bool)
      modifies this
      ensures found <==> key in old(browserClients)
      ensures browserClients == old(browserClients) - {key}
      ensures espClients == old(espClients) && sent == old(sent) && replies == old(replies)
    {
      found := key in browserClients;
      if found {
        browserClients := browserClients - {key};
      }
    }

    /** `check_online` at time `now`: every mesh silent for more than 30 seconds is removed. */
    method CheckOnline(now: real)
      modifies this
      ensures espClients == Fresh(old(espClients), now)
      ensures browserClients == old(browserClients) && sent == old(sent) && replies == old(replies)
    {
      var rest := espClients.Keys;
      ghost var clients0 := espClients;
      while rest != {}
        invariant rest <= clients0.Keys
        invariant forall k :: k in espClients <==> k in clients0 && (k in rest || !Stale(clients0[k], now))
        invariant forall k :: k in espClients ==> espClients[k] == clients0[k]
        invariant browserClients == old(browserClients) && sent == old(sent) && replies == old(replies)
        decreases |rest|
      {
        var k :| k in rest;
        if Stale(espClients[k], now) {
          espClients := espClients - {k};
        }
        rest := rest - {k};
      }
    }
  }
}
