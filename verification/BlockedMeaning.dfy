/**
 What blocking, signalling and serving mean for each client: who is blocked on what, which
 waiters are served when a key is ready, and which stay exactly as they were.
 */
module BlockedMeaning {
  import opened Basics
  import opened Blocked

  predicate DataKind(kind: Kind) {
    kind in {List, ZSet, Stream}
  }

  /** The key holds what the client waits for, or the client wants to know that it does not. */
  predicate Meant(c: Client, v: Visit) {
    DataKind(c.kind) && (v.found == Some(c.kind) || c.nokey)
  }

  predicate Unblocked(c: Client) {
    !c.blocked && c.kind == NoKind && c.keys == map[] && !c.nokey
  }

  /** What a visit makes of a waiter. */
  predicate Outcome(v: Visit, c: Client, d: Client) {
    && d.isModule == c.isModule
    && (!Meant(c, v) ==> d == c)
    && (Meant(c, v) && !c.pending ==> Unblocked(d) && !d.pending && d.queued == c.queued)
    && (Meant(c, v) && c.pending && v.reaction.again.None? ==>
          Unblocked(d) && !d.pending && d.queued == (c.queued || !c.isModule))
    && (Meant(c, v) && c.pending && v.reaction.again.Some? ==>
          var b := v.reaction.again.value;
          && d.blocked && d.kind == b.kind && d.keys.Keys == (set k | k in b.keys) && d.nokey == b.nokey
          && d.pending == (b.kind != Module) && d.queued == c.queued)
  }

  // ------------------------------------------------------------------- blocking on keys

  /** The client after `blockForKeys`, and no other client changed. */
  lemma BlockedAs(s: Server, c: Id, b: Block)
    requires c in s.clients && s.clients[c].keys == map[]
    ensures
      var r := BlockForKeys(s, c, b.kind, b.keys, b.nokey);
      && OnlyClient(s, r, c)
      && r.clients[c] == s.clients[c].(blocked := true, kind := b.kind, keys := r.clients[c].keys, nokey := b.nokey,
                                       pending := s.clients[c].pending || b.kind != Module)
      && r.clients[c].keys.Keys == (set k | k in b.keys)
  {
    hide AddWaiters;
    AddedWaiters(s, c, b.keys, b.nokey);
  }

  /** One more key: the client is added behind the others unless it waits for the key already. */
  lemma JoinsOne(s: Server, c: Id, key: Key, nokey: bool, k: Key)
    requires c in s.clients
    ensures
      var r, new' := AddWaiter(s, c, key, nokey), k == key && k !in s.clients[c].keys;
      && (k in r.clients[c].keys <==> k in s.clients[c].keys || k == key)
      && (k in s.clients[c].keys ==> r.clients[c].keys[k] == s.clients[c].keys[k])
      && Waiters(r, k) == Waiters(s, k) + (if new' then [Node(r.clients[c].keys[k], c)] else [])
      && NokeyCount(r, k) == NokeyCount(s, k) + (if new' && nokey then 1 else 0)
  {
    assert Waiters(s, k) + [] == Waiters(s, k);
  }

  lemma {:induction false} JoinsLists(s: Server, c: Id, keys: seq<Key>, nokey: bool, k: Key)
    requires c in s.clients && s.clients[c].keys == map[]
    ensures
      var r := AddWaiters(s, c, keys, nokey);
      && (k in r.clients[c].keys <==> k in keys)
      && Waiters(r, k) == Waiters(s, k) + (if k in keys then [Node(r.clients[c].keys[k], c)] else [])
      && NokeyCount(r, k) == NokeyCount(s, k) + (if k in keys && nokey then 1 else 0)
  {
    if keys == [] {
      assert Waiters(s, k) + [] == Waiters(s, k);
    } else {
      var n := |keys| - 1;
      JoinsLists(s, c, keys[..n], nokey, k);
      var m := AddWaiters(s, c, keys[..n], nokey);
      JoinsOne(m, c, keys[n], nokey, k);
      hide AddWaiter, Waiters, NokeyCount;
      assert keys == keys[..n] + [keys[n]];
      assert Waiters(s, k) + [] == Waiters(s, k);
    }
  }

  /** A client that blocks on keys is last in the list of each of them and in no other. */
  lemma BlockedLast(s: Server, c: Id, b: Block, k: Key)
    requires c in s.clients && s.clients[c].keys == map[]
    ensures
      var r := BlockForKeys(s, c, b.kind, b.keys, b.nokey);
      && (k in r.clients[c].keys <==> k in b.keys)
      && Waiters(r, k) == Waiters(s, k) + (if k in b.keys then [Node(r.clients[c].keys[k], c)] else [])
      && NokeyCount(r, k) == NokeyCount(s, k) + (if k in b.keys && b.nokey then 1 else 0)
  {
    hide AddWaiters;
    JoinsLists(s, c, b.keys, b.nokey, k);
  }

  // -------------------------------------------------------------------------- unblocking

  lemma UnblockedAs(s: Server, c: Id)
    requires c in s.clients
    ensures
      var r := Unblock(s, c);
      && OnlyClient(s, r, c)
      && r.clients[c] == s.clients[c].(blocked := false, kind := NoKind, keys := map[], nokey := false)
  {
    hide Release;
  }

  lemma ReleasedList(s: Server, c: Id, k: Key)
    requires c in s.clients
    ensures Waiters(Unblock(s, c), k)
         == if k in s.clients[c].keys then Unlink(Waiters(s, k), s.clients[c].keys[k]) else Waiters(s, k)
  {
  }

  /** An unblocked client has left every list; everyone else stays where they were. */
  lemma LeavesLists(s: Server, c: Id, k: Key)
    requires Inv(s) && c in s.clients
    ensures
      var r := Unblock(s, c);
      && OnlyClient(s, r, c) && Unblocked(r.clients[c])
      && r.clients[c] == s.clients[c].(blocked := false, kind := NoKind, keys := map[], nokey := false)
      && forall n :: n in Waiters(r, k) <==> n in Waiters(s, k) && n.client != c
  {
    hide Unlink, Unblock, Inv, Waiters, Ordered, CountInv;
    UnblockedAs(s, c);
    ReleasedList(s, c, k);
    KeyIsGood(s, k);
    if k in s.clients[c].keys {
      var list, id := Waiters(s, k), s.clients[c].keys[k];
      UnlinkGone(list, id);
      assert Node(id, c) in list;
      forall n | n in list ensures n.id != id <==> n.client != c {
        OneId(list, n, Node(id, c));
      }
    }
  }

  lemma OneId(list: seq<Node>, a: Node, b: Node)
    requires Ordered(list) && a in list && b in list
    ensures a.id == b.id ==> a == b
  {
    var i :| 0 <= i < |list| && list[i] == a;
    var j :| 0 <= j < |list| && list[j] == b;
  }

  lemma KeyIsGood(s: Server, k: Key)
    requires Inv(s)
    ensures KeyInv(s, k)
  {
  }

  // --------------------------------------------------------------------------- signalling

  /** Someone waits for the key; on deletion, someone who wants to know. */
  predicate Awaited(s: Server, k: Key, deleted: bool) {
    exists c | c in s.clients :: k in s.clients[c].keys && (deleted ==> s.clients[c].nokey)
  }

  predicate SomeoneBlocked(s: Server, kind: Kind) {
    exists c | c in s.clients :: s.clients[c].blocked && (s.clients[c].kind == kind || s.clients[c].kind == Module)
  }

  lemma {:induction false} WantingOne(clients: map<Id, Client>, list: seq<Node>)
    ensures Wanting(clients, list) > 0 <==> exists n | n in list :: Wants(clients, n.client)
  {
    if list != [] {
      HeadAndRest(list);
      WantingOne(clients, list[1..]);
    }
  }

  lemma AwaitedIs(s: Server, k: Key)
    requires KeyInv(s, k)
    ensures k in s.blocking <==> Awaited(s, k, false)
    ensures k in s.nokey <==> Awaited(s, k, true)
  {
    var list := Waiters(s, k);
    WantingOne(s.clients, list);
    if k in s.blocking {
      assert list[0] in list;
      assert list[0].client in s.clients;
    }
    if k in s.nokey {
      var n :| n in list && Wants(s.clients, n.client);
    }
    if c :| c in s.clients && k in s.clients[c].keys && s.clients[c].nokey {
      assert Node(s.clients[c].keys[k], c) in list;
      assert Wants(s.clients, Node(s.clients[c].keys[k], c).client);
    }
  }

  lemma CountedIs(s: Server, kind: Kind)
    requires CountersInv(s) && kind != NoKind
    ensures CountOf(s, kind) > 0 <==> exists c | c in s.clients :: s.clients[c].blocked && s.clients[c].kind == kind
  {
    var some := BlockedOf(s.clients, kind);
    if |some| > 0 {
      var c :| c in some;
    }
    if c :| c in s.clients && s.clients[c].blocked && s.clients[c].kind == kind {
      assert c in some;
    }
  }

  /** A signalled key is queued exactly if it was, or if someone waits for it and may wake for its type. */
  lemma SignalQueues(s: Server, k: Key, kind: Kind, deleted: bool)
    requires Inv(s)
    ensures
      var r := Signal(s, k, kind, deleted);
      && (k in r.batch + r.ready <==>
            k in s.batch + s.ready || (kind != NoKind && SomeoneBlocked(s, kind) && Awaited(s, k, deleted)))
      && (forall j | j != k :: j in r.batch + r.ready <==> j in s.batch + s.ready)
      && r.clients == s.clients && r.blocking == s.blocking && r.nokey == s.nokey
  {
    hide CountersInv, KeyInv, Awaited;
    assert KeyInv(s, k);
    AwaitedIs(s, k);
    CountedIs(s, Module);
    if kind != NoKind {
      CountedIs(s, kind);
    }
  }

  /** In particular a key with a waiter of the signalled type is. */
  lemma WaiterIsSignaled(s: Server, k: Key, kind: Kind, c: Id)
    requires Inv(s) && c in s.clients && k in s.clients[c].keys && s.clients[c].kind == kind
    ensures var r := Signal(s, k, kind, false); k in r.batch + r.ready
  {
    hide KeysInv, CountersInv, QueuesInv;
    assert ClientInv(s.clients[c]);
    SignalQueues(s, k, kind, false);
  }

  // ------------------------------------------------------------------------------ serving

  lemma SignalsKeepClients(s: Server, signals: seq<Signaled>)
    ensures Signals(s, signals).clients == s.clients
  {
  }

  lemma ReexecutedAs(s: Server, c: Id, r: Reaction)
    requires c in s.clients && s.clients[c].keys == map[]
    ensures
      var t, old' := Reexecute(s, c, r), s.clients[c];
      && OnlyClient(s, t, c)
      && (r.again.None? ==> t.clients[c] == old'.(pending := false, queued := old'.queued || !old'.isModule))
      && (r.again.Some? ==>
            var b := r.again.value;
            && t.clients[c] == old'.(blocked := true, kind := b.kind, keys := t.clients[c].keys, nokey := b.nokey, pending := b.kind != Module)
            && t.clients[c].keys.Keys == (set k | k in b.keys))
  {
    hide Signals, BlockForKeys;
    var s1 := Signals(SetClient(s, c, s.clients[c].(pending := false)), r.signals);
    if r.again.Some? {
      BlockedAs(s1, c, r.again.value);
    }
  }

  /** One visit: the waiter comes out as it should, and no other client changes. */
  lemma ServeOutcome(s: Server, c: Id, v: Visit)
    requires c in s.clients && ClientInv(s.clients[c]) && KeyKind(s.clients[c].kind)
    ensures OnlyClient(s, Serve(s, c, v), c)
    ensures Outcome(v, s.clients[c], Serve(s, c, v).clients[c])
  {
    hide Signals, Reexecute, Unblock;
    UnblockedAs(s, c);
    ReexecutedAs(Unblock(s, c), c, v.reaction);
  }

  /** Clients after the first `i` visits: the visited as they should be, the others as they were. */
  ghost predicate Visited(s: Server, p: Server, list: seq<Node>, visits: nat -> Visit, i: nat) {
    && i <= |list| && p.clients.Keys == s.clients.Keys
    && (forall j | 0 <= j < i :: list[j].client in s.clients &&
          Outcome(visits(j), s.clients[list[j].client], p.clients[list[j].client]))
    && (forall c | c in s.clients && (forall j | 0 <= j < i :: list[j].client != c) :: p.clients[c] == s.clients[c])
  }

  lemma OneMoreVisit(s: Server, p: Server, r: Server, list: seq<Node>, visits: nat -> Visit, i: nat)
    requires i < |list| && Visited(s, p, list, visits, i)
    requires forall j | 0 <= j < i :: list[j].client != list[i].client
    requires list[i].client in s.clients && OnlyClient(p, r, list[i].client)
    requires Outcome(visits(i), s.clients[list[i].client], r.clients[list[i].client])
    ensures Visited(s, r, list, visits, i + 1)
  {
    hide Outcome;
    var c := list[i].client;
    forall j | 0 <= j < i + 1
      ensures list[j].client in s.clients && Outcome(visits(j), s.clients[list[j].client], r.clients[list[j].client])
    {
      if j < i {
        assert r.clients[list[j].client] == p.clients[list[j].client];
      }
    }
    forall d | d in s.clients && forall j | 0 <= j < i + 1 :: list[j].client != d
      ensures r.clients[d] == s.clients[d]
    {
      assert list[i].client != d;
    }
  }

  lemma NotYetVisited(s: Server, p: Server, list: seq<Node>, visits: nat -> Visit, i: nat, c: Id)
    requires Visited(s, p, list, visits, i) && c in s.clients && forall j | 0 <= j < i :: list[j].client != c
    ensures c in p.clients && p.clients[c] == s.clients[c]
  {
    hide Outcome;
  }

  lemma NoneVisited(s: Server, list: seq<Node>, visits: nat -> Visit)
    ensures Visited(s, s, list, visits, 0)
  {
  }

  lemma {:induction false} PassVisits(s: Server, k: Key, visits: nat -> Visit, i: nat)
    requires Inv(s) && i <= |Waiters(s, k)| && forall n | n in Waiters(s, k) :: n.client in s.clients
    ensures Visited(s, Pass(s, Waiters(s, k), visits, i), Waiters(s, k), visits, i)
  {
    hide Serve, Outcome, Inv, Waiters, OnlyClient, Visited;
    if i == 0 {
      NoneVisited(s, Waiters(s, k), visits);
    } else {
      var list := Waiters(s, k);
      PassVisits(s, k, visits, i - 1);
      var p, c := Pass(s, list, visits, i - 1), list[i - 1].client;
      AreDistinct(s, k);
      assert list[i - 1] in list;
      IsWaiting(s, k, list[i - 1]);
      NotYetVisited(s, p, list, visits, i - 1, c);
      ServeOutcome(p, c, visits(i - 1));
      OneMoreVisit(s, p, Pass(s, list, visits, i), list, visits, i - 1);
    }
  }

  lemma AreDistinct(s: Server, k: Key)
    requires Inv(s)
    ensures forall i, j | 0 <= i < j < |Waiters(s, k)| :: Waiters(s, k)[i].client != Waiters(s, k)[j].client
  {
    assert KeyInv(s, k);
    WaitersDistinct(s, k);
  }

  lemma IsWaiting(s: Server, k: Key, n: Node)
    requires Inv(s) && n in Waiters(s, k)
    ensures n.client in s.clients && k in s.clients[n.client].keys
    ensures ClientInv(s.clients[n.client]) && KeyKind(s.clients[n.client].kind) && s.clients[n.client].blocked
  {
    assert KeyInv(s, k);
    assert ClientInv(s.clients[n.client]);
  }

  /** The lists follow the clients. */
  lemma ListsFollow(s: Server, c: Id)
    requires Inv(s) && c in s.clients
    ensures forall k | k in s.clients[c].keys :: Node(s.clients[c].keys[k], c) in Waiters(s, k)
    ensures forall k | k !in s.clients[c].keys :: forall n | n in Waiters(s, k) :: n.client != c
  {
    hide ClientsInv, CountersInv, QueuesInv, CountInv;
    forall k ensures k in s.clients[c].keys ==> Node(s.clients[c].keys[k], c) in Waiters(s, k)
      ensures k !in s.clients[c].keys ==> forall n | n in Waiters(s, k) :: n.client != c
    {
      assert KeyInv(s, k);
    }
  }

  ghost predicate ComesOut(s: Server, r: Server, k: Key, v: Visit, c: Id) {
    && c in s.clients && c in r.clients && k in s.clients[c].keys && Outcome(v, s.clients[c], r.clients[c])
    && (!Meant(s.clients[c], v) ==> Node(s.clients[c].keys[k], c) in Waiters(r, k))
    && (Meant(s.clients[c], v) && (!s.clients[c].pending || v.reaction.again.None?) ==>
          forall j :: forall n | n in Waiters(r, j) :: n.client != c)
  }

  /**
   A key was handled: `visited` are its waiters in order, each came out as the visit calls for,
   nobody else changed, the served ones are in no list and the others still in that of the key.
   */
  ghost predicate Handled(s: Server, r: Server, k: Key, visits: nat -> Visit, visited: seq<Id>) {
    && |visited| == |Waiters(s, k)| && r.clients.Keys == s.clients.Keys
    && (forall i | 0 <= i < |visited| :: visited[i] == Waiters(s, k)[i].client && ComesOut(s, r, k, visits(i), visited[i]))
    && (forall c | c in s.clients && c !in visited :: r.clients[c] == s.clients[c])
  }

  /** The pass over the waiters of a key handles it. */
  lemma PassHandles(s: Server, k: Key, visits: nat -> Visit, visited: seq<Id>)
    requires Inv(s) && GoodVisits(visits) && |visited| == |Waiters(s, k)|
    requires forall i | 0 <= i < |visited| :: visited[i] == Waiters(s, k)[i].client
    requires forall n | n in Waiters(s, k) :: n.client in s.clients
    ensures Handled(s, Pass(s, Waiters(s, k), visits, |visited|), k, visits, visited)
  {
    hide Inv, Pass, Waiters, GoodVisits;
    var list := Waiters(s, k);
    PassVisits(s, k, visits, |visited|);
    PassKeepsInv(s, k, visits);
    var r := Pass(s, list, visits, |visited|);
    forall i | 0 <= i < |visited| ensures ComesOut(s, r, k, visits(i), visited[i]) {
      assert list[i] in list;
      IsWaiting(s, k, list[i]);
      ListsFollow(r, visited[i]);
      ComesOutAs(s, r, k, visits(i), visited[i]);
    }
    forall c | c in s.clients && c !in visited ensures r.clients[c] == s.clients[c] {
      assert forall j | 0 <= j < |visited| :: visited[j] in visited;
    }
  }

  lemma ComesOutAs(s: Server, r: Server, k: Key, v: Visit, c: Id)
    requires c in s.clients && c in r.clients && k in s.clients[c].keys && Outcome(v, s.clients[c], r.clients[c])
    requires forall j | j in r.clients[c].keys :: Node(r.clients[c].keys[j], c) in Waiters(r, j)
    requires forall j | j !in r.clients[c].keys :: forall n | n in Waiters(r, j) :: n.client != c
    ensures ComesOut(s, r, k, v, c)
  {
    hide Waiters;
  }

  // ------------------------------------------------------------------------ whole batches

  /** The keys of a batch were handled one after the other, from the first state to the last. */
  ghost predicate BatchHandled(states: seq<Server>, keys: seq<Key>, visits: nat -> nat -> Visit, visited: seq<seq<Id>>) {
    && |states| == |keys| + 1 && |visited| == |keys|
    && forall i | 0 <= i < |keys| ::
         && Inv(states[i]) && states[i].batch == keys[i..]
         && Handled(TakeKey(states[i]), states[i + 1], keys[i], visits(i), visited[i])
  }

  /** A waiter whose key is handled is among those visited. */
  lemma WaiterIsVisited(s: Server, r: Server, k: Key, visits: nat -> Visit, visited: seq<Id>, c: Id) returns (i: nat)
    requires Inv(s) && Handled(s, r, k, visits, visited) && c in s.clients && k in s.clients[c].keys
    ensures i < |visited| && visited[i] == c && ComesOut(s, r, k, visits(i), c)
  {
    hide ComesOut, Inv;
    ListsFollow(s, c);
    var n := Node(s.clients[c].keys[k], c);
    i :| 0 <= i < |Waiters(s, k)| && Waiters(s, k)[i] == n;
  }

  /** One key: a waiter that every visit would serve is served or, if it waits for others, untouched. */
  lemma KeyServes(s: Server, r: Server, k: Key, visits: nat -> Visit, visited: seq<Id>, c: Id)
    requires Inv(s) && Handled(s, r, k, visits, visited) && c in s.clients
    requires DataKind(s.clients[c].kind) && s.clients[c].pending
    requires forall j: nat :: visits(j).found == Some(s.clients[c].kind) && visits(j).reaction.again.None?
    ensures c in r.clients
    ensures if k in s.clients[c].keys then Unblocked(r.clients[c]) else r.clients[c] == s.clients[c]
  {
    hide Inv;
    if k in s.clients[c].keys {
      var i := WaiterIsVisited(s, r, k, visits, visited, c);
    } else {
      VisitedWait(s, r, k, visits, visited);
    }
  }

  lemma VisitedWait(s: Server, r: Server, k: Key, visits: nat -> Visit, visited: seq<Id>)
    requires Handled(s, r, k, visits, visited)
    ensures forall c | c in visited :: c in s.clients && k in s.clients[c].keys
  {
    forall i | 0 <= i < |visited| ensures visited[i] in s.clients && k in s.clients[visited[i]].keys {
      assert ComesOut(s, r, k, visits(i), visited[i]);
    }
  }

  /** Nobody who is not blocked is visited. */
  lemma IdleIsKept(s: Server, r: Server, k: Key, visits: nat -> Visit, visited: seq<Id>, c: Id)
    requires Handled(s, r, k, visits, visited) && c in s.clients && s.clients[c].keys == map[]
    ensures c in r.clients && r.clients[c] == s.clients[c]
  {
    VisitedWait(s, r, k, visits, visited);
  }

  /**
   A client waiting for any key of the batch, which holds what it waits for whenever it is looked
   at and whose command then does not block again, is unblocked when the batch is done.
   */
  lemma BatchServes(states: seq<Server>, keys: seq<Key>, visits: nat -> nat -> Visit, visited: seq<seq<Id>>, c: Id, m: nat)
    requires BatchHandled(states, keys, visits, visited) && m < |keys| && c in states[0].clients
    requires keys[m] in states[0].clients[c].keys && DataKind(states[0].clients[c].kind) && states[0].clients[c].pending
    requires forall i: nat, j: nat :: visits(i)(j).found == Some(states[0].clients[c].kind) && visits(i)(j).reaction.again.None?
    ensures c in states[|keys|].clients && Unblocked(states[|keys|].clients[c])
  {
    hide Inv, Handled;
    var first := states[0].clients[c];
    var i := 0;
    while i < |keys|
      invariant 0 <= i <= |keys| && c in states[i].clients
      invariant Unblocked(states[i].clients[c]) || (i <= m && states[i].clients[c] == first)
    {
      var s := TakeKey(states[i]);
      TakeKeyKeepsInv(states[i]);
      if Unblocked(states[i].clients[c]) {
        IdleIsKept(s, states[i + 1], keys[i], visits(i), visited[i], c);
      } else {
        assert states[i].clients[c] == first;
        KeyServes(s, states[i + 1], keys[i], visits(i), visited[i], c);
      }
      i := i + 1;
    }
  }
}
