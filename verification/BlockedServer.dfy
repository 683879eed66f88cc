/** The operations of src/blocked.c on the server's own fields, with the loops of the original. */
module BlockedServer {
  import opened Basics
  import opened Blocked
  import opened BlockedMeaning

  /** Releasing one key, as `releaseBlockedEntry` does it before it removes the client's own entry. */
  function ReleaseOne(s: Server, c: Id, k: Key): Server
    requires c in s.clients && k in s.clients[c].keys && k in s.blocking
  {
    var list := Unlink(s.blocking[k], s.clients[c].keys[k]);
    if list == [] then s.(blocking := s.blocking - {k}, nokey := s.nokey - {k})
    else
      var n := NokeyCount(s, k);
      s.(blocking := s.blocking[k := list],
         nokey := if !s.clients[c].nokey then s.nokey else if n <= 1 then s.nokey - {k} else s.nokey[k := n - 1])
  }

  lemma ReleaseOneMore(s: Server, c: Id, done: set<Key>, k: Key)
    requires Inv(s) && c in s.clients && done <= s.clients[c].keys.Keys && k in s.clients[c].keys && k !in done
    ensures k in Release(s, c, done).blocking && Release(s, c, done).blocking[k] == s.blocking[k]
    ensures s.clients[c].nokey ==> k in Release(s, c, done).nokey
    ensures ReleaseOne(Release(s, c, done), c, k) == Release(s, c, done + {k})
  {
    hide ClientsInv, CountersInv, QueuesInv;
    var m := Release(s, c, done);
    EntryIsThere(s, c, k);
    assert ReleaseOne(m, c, k).blocking == Released(s, c, done + {k});
    assert ReleaseOne(m, c, k).nokey == ReleasedCounts(s, c, done + {k});
  }

  /** The two entries the original asserts to be there. */
  lemma EntryIsThere(s: Server, c: Id, k: Key)
    requires KeysInv(s) && c in s.clients && k in s.clients[c].keys
    ensures k in s.blocking && (s.clients[c].nokey ==> k in s.nokey)
  {
    assert KeyInv(s, k);
    var n := Node(s.clients[c].keys[k], c);
    assert n in Waiters(s, k);
    UnlinkWanting(s.clients, Waiters(s, k), n);
  }

  class ServerObject {
    var clients: map<Id, Client>
    var blocking: map<Key, seq<Node>>
    var nokey: map<Key, nat>
    var nextNode: nat
    var byType: map<Kind, nat>
    var blockedCount: nat
    var readySet: set<Key>
    var ready: seq<Key>
    var batch: seq<Key>
    var unblocked: seq<Id>

    constructor ()
      ensures View() == EMPTY
    {
      clients, blocking, nokey, nextNode := map[], map[], map[], 0;
      byType, blockedCount := map[], 0;
      readySet, ready, batch, unblocked := {}, [], [], [];
    }

    function View(): Server
      reads this
    {
      Server(clients, blocking, nokey, nextNode, byType, blockedCount, readySet, ready, batch, unblocked)
    }

    method BlockClientAs(c: Id, kind: Kind)
      requires c in clients
      modifies this
      ensures View() == BlockClient(old(View()), c, kind)
    {
      var client := clients[c];
      clients := clients[c := client.(blocked := true, kind := kind)];
      blockedCount := if client.isModule then blockedCount else blockedCount + 1;
      byType := byType[kind := 1 + if kind in byType then byType[kind] else 0];
    }

    /** One turn of the loop of `blockForKeys`. */
    method WaitForKey(c: Id, k: Key, wantsNokey: bool)
      requires c in clients
      modifies this
      ensures View() == AddWaiter(old(View()), c, k, wantsNokey)
    {
      if k !in clients[c].keys {
        var list := if k in blocking then blocking[k] else [];
        blocking := blocking[k := list + [Node(nextNode, c)]];
        clients := clients[c := clients[c].(keys := clients[c].keys[k := nextNode])];
        nextNode := nextNode + 1;
        if wantsNokey {
          nokey := nokey[k := if k in nokey then nokey[k] + 1 else 1];
        }
      }
    }

    method WaitForKeys(c: Id, keys: seq<Key>, wantsNokey: bool)
      requires c in clients
      modifies this
      ensures View() == AddWaiters(old(View()), c, keys, wantsNokey)
    {
      hide AddWaiter;
      ghost var s := View();
      for j := 0 to |keys|
        invariant View() == AddWaiters(s, c, keys[..j], wantsNokey)
      {
        assert keys[..j + 1][..j] == keys[..j];
        WaitForKey(c, keys[j], wantsNokey);
      }
      assert keys[..|keys|] == keys;
    }

    /** `blockForKeys`. */
    method BlockOnKeys(c: Id, b: Block)
      requires c in clients
      modifies this
      ensures View() == BlockForKeys(old(View()), c, b.kind, b.keys, b.nokey)
    {
      hide AddWaiters;
      WaitForKeys(c, b.keys, b.nokey);
      clients := clients[c := clients[c].(nokey := b.nokey, pending := clients[c].pending || b.kind != Module)];
      BlockClientAs(c, b.kind);
    }

    /** `releaseBlockedEntry` without the removal of the client's own entry. */
    method ReleaseBlockedEntry(c: Id, k: Key)
      requires c in clients && k in clients[c].keys && k in blocking && (clients[c].nokey ==> k in nokey)
      modifies this
      ensures View() == ReleaseOne(old(View()), c, k)
    {
      var list := Unlink(blocking[k], clients[c].keys[k]);
      if |list| == 0 {
        blocking := blocking - {k};
        nokey := nokey - {k};
      } else {
        blocking := blocking[k := list];
        if clients[c].nokey {
          if nokey[k] <= 1 {
            nokey := nokey - {k};
          } else {
            nokey := nokey[k := nokey[k] - 1];
          }
        }
      }
    }

    /** `s` with client `c` gone from the lists of the keys `done`. */
    ghost predicate Left(s: Server, c: Id, done: set<Key>)
      reads this
      requires c in s.clients && done <= s.clients[c].keys.Keys
    {
      View() == SetClient(Release(s, c, done), c, s.clients[c].(keys := s.clients[c].keys - done))
    }

    /** The loop of `unblockClientWaitingData`: the keys that are left, in any order. */
    method LeaveRest(c: Id, ghost s: Server, ghost gone: set<Key>)
      requires Inv(s) && c in s.clients && gone <= s.clients[c].keys.Keys && c in clients
      requires clients[c].keys == s.clients[c].keys - gone && clients[c].nokey == s.clients[c].nokey
      requires View() == Release(s, c, gone).(clients := clients)
      modifies this
      ensures clients == old(clients) && View() == Release(s, c, s.clients[c].keys.Keys).(clients := clients)
    {
      hide Inv, Release, ReleaseOne;
      ghost var all := s.clients[c].keys.Keys;
      var left := clients[c].keys.Keys;
      assert all - left == gone;
      while left != {}
        invariant left <= all - gone && clients == old(clients)
        invariant View() == Release(s, c, all - left).(clients := clients)
        decreases |left|
      {
        var k :| k in left;
        ghost var done := all - left;
        LeaveOne(c, k, s, done);
        left := left - {k};
        assert all - left == done + {k};
      }
      assert all - left == all;
    }

    /** `unblockClientWaitingData`. */
    method LeaveLists(c: Id, ghost s: Server, ghost gone: set<Key>)
      requires Inv(s) && c in s.clients && gone <= s.clients[c].keys.Keys && Left(s, c, gone)
      modifies this
      ensures Left(s, c, s.clients[c].keys.Keys)
    {
      hide Inv, Release;
      ghost var client := s.clients[c];
      LeaveRest(c, s, gone);
      assert client.keys - client.keys.Keys == map[];
      clients := clients[c := clients[c].(keys := map[])];
      assert clients == s.clients[c := client.(keys := map[])];
    }

    /** One turn of that loop. */
    method LeaveOne(c: Id, k: Key, ghost s: Server, ghost done: set<Key>)
      requires Inv(s) && c in s.clients && done <= s.clients[c].keys.Keys && k in s.clients[c].keys && k !in done
      requires c in clients && k in clients[c].keys && clients[c].keys[k] == s.clients[c].keys[k]
      requires clients[c].nokey == s.clients[c].nokey && View() == Release(s, c, done).(clients := clients)
      modifies this
      ensures clients == old(clients) && View() == Release(s, c, done + {k}).(clients := clients)
    {
      hide Inv, Release, ReleaseOne;
      ghost var v := View();
      ReleaseOneMore(s, c, done, k);
      SameRelease(Release(s, c, done), v, c, k);
      ReleaseBlockedEntry(c, k);
    }

    /** `unblockClient` up to the queue; the client may already have left some lists. */
    method UnblockNow(c: Id, ghost s: Server, ghost gone: set<Key>)
      requires Inv(s) && c in s.clients && gone <= s.clients[c].keys.Keys && Left(s, c, gone)
      modifies this
      ensures View() == Unblock(s, c)
    {
      hide Inv, Released, ReleasedCounts;
      LeaveLists(c, s, gone);
      var client := clients[c];
      clients := clients[c := client.(blocked := false, kind := NoKind, keys := map[], nokey := false)];
      assert clients == s.clients[c := client.(blocked := false, kind := NoKind, keys := map[], nokey := false)];
      var count := if client.kind in byType then byType[client.kind] else 0;
      blockedCount := if client.isModule then blockedCount else Less(blockedCount);
      byType := byType[client.kind := Less(count)];
    }

    /** The unblocking part of `unblockClientOnKey`: this key first, then all the others. */
    method UnblockOnKey(c: Id, k: Key)
      requires Inv(View()) && c in clients && k in clients[c].keys
      modifies this
      ensures View() == Unblock(old(View()), c)
    {
      hide Inv, Released, ReleasedCounts, Unblock;
      ghost var s := View();
      ReleaseNone(s, c);
      ReleaseOneMore(s, c, {}, k);
      ReleaseBlockedEntry(c, k);
      assert {} + {k} == {k};
      clients := clients[c := clients[c].(keys := clients[c].keys - {k})];
      UnblockNow(c, s, {k});
    }

    /** `unblockClient`. */
    method UnblockAndQueue(c: Id, queue: bool)
      requires Inv(View()) && c in clients
      modifies this
      ensures View() == UnblockClient(old(View()), c, queue)
    {
      hide Inv, Released, ReleasedCounts, Unblock, Queue;
      ghost var s := View();
      ReleaseNone(s, c);
      assert s.clients[c].keys - {} == s.clients[c].keys;
      assert s.clients[c := s.clients[c]] == s.clients;
      UnblockNow(c, s, {});
      if queue {
        QueueClient(c);
      }
    }

    method QueueClient(c: Id)
      requires c in clients
      modifies this
      ensures View() == Queue(old(View()), c)
    {
      if !clients[c].queued {
        clients := clients[c := clients[c].(queued := true)];
        unblocked := unblocked + [c];
      }
    }

    /** `signalKeyAsReadyLogic`. */
    method SignalKey(k: Key, kind: Kind, deleted: bool)
      modifies this
      ensures View() == Signal(old(View()), k, kind, deleted)
    {
      if kind == NoKind {
        return;
      }
      if (kind !in byType || byType[kind] == 0) && (Module !in byType || byType[Module] == 0) {
        return;
      }
      if deleted {
        if k !in nokey {
          return;
        }
      } else if k !in blocking {
        return;
      }
      if k in readySet {
        return;
      }
      readySet := readySet + {k};
      ready := ready + [k];
    }

    method SignalAll(signals: seq<Signaled>)
      modifies this
      ensures View() == Signals(old(View()), signals)
    {
      hide Signal;
      ghost var s := View();
      for i := 0 to |signals|
        invariant Signals(View(), signals[i..]) == Signals(s, signals)
      {
        SignalKey(signals[i].key, signals[i].kind, signals[i].deleted);
        assert signals[i..][1..] == signals[i + 1..];
      }
    }

    /** `processCommandAndResetClient` and what follows it in `unblockClientOnKey`, for a command held back. */
    method RunPending(c: Id, r: Reaction)
      requires c in clients
      modifies this
      ensures View() == if old(clients[c]).pending then Reexecute(old(View()), c, r) else old(View())
    {
      hide Signals, BlockForKeys;
      if clients[c].pending {
        clients := clients[c := clients[c].(pending := false)];
        SignalAll(r.signals);
        if r.again.Some? {
          BlockOnKeys(c, r.again.value);
        } else if !clients[c].isModule {
          QueueClient(c);
        }
      }
    }

    /** What `handleClientsBlockedOnKey` does with one waiter. */
    method ServeWaiter(c: Id, k: Key, v: Visit)
      requires Inv(View()) && c in clients && k in clients[c].keys
      modifies this
      ensures View() == Serve(old(View()), c, v)
      ensures OnlyClient(old(View()), View(), c) && Outcome(v, old(clients[c]), clients[c])
    {
      ServeOutcome(View(), c, v);
      hide Inv, Signals, BlockForKeys, Release, Outcome, OnlyClient, Reexecute;
      var client := clients[c];
      if (v.found.Some? && (client.kind == v.found.value || client.kind == Module)) || client.nokey {
        if client.kind != Module {
          UnblockOnKey(c, k);
          RunPending(c, v.reaction);
        } else {
          SignalAll(v.reaction.signals);
        }
      }
    }

    /** listNext: the node the iterator stands on and the one after it. */
    method ListNext(k: Key, id: nat, ghost at: nat) returns (node: Node, next: Option<nat>)
      requires k in blocking && Ordered(blocking[k]) && at < |blocking[k]| && blocking[k][at].id == id
      ensures node == blocking[k][at]
      ensures next == if at + 1 < |blocking[k]| then Some(blocking[k][at + 1].id) else None
    {
      var i := 0;
      while blocking[k][i].id != id
        invariant 0 <= i <= at
      {
        i := i + 1;
      }
      node := blocking[k][i];
      next := if i + 1 < |blocking[k]| then Some(blocking[k][i + 1].id) else None;
    }

    /** One turn of the loop below: the node the iterator stands on. */
    method VisitNode(k: Key, id: nat, v: Visit, ghost s: Server, ghost i: nat, ghost kept: seq<Node>, ghost back: seq<Node>)
      returns (c: Id, next: Option<nat>, ghost kept': seq<Node>, ghost back': seq<Node>)
      requires Inv(s) && i < |Waiters(s, k)| && PassShape(s, k, View(), i, kept, back) && GoodReaction(v.reaction)
      requires id == Waiters(s, k)[i].id
      modifies this
      ensures c == Waiters(s, k)[i].client && c in old(clients)
      ensures View() == Serve(old(View()), c, v)
      ensures PassShape(s, k, View(), i + 1, kept', back')
      ensures i + 1 < |Waiters(s, k)| ==> next == Some(Waiters(s, k)[i + 1].id)
    {
      hide Serve, Ordered, Inv, PassShape, GoodReaction;
      ghost var p := View();
      OnNextNode(s, k, p, i, kept, back);
      var node;
      node, next := ListNext(k, id, |kept|);
      NextWaits(s, k, p, i, kept, back);
      ShapeIsInv(s, k, p, i, kept, back);
      kept', back' := PassStep(s, k, p, i, kept, back, v);
      c := node.client;
      ServeWaiter(c, k, v);
    }

    /**
     `handleClientsBlockedOnKey`: an iterator over the live list and a count of the waiters at
     the start. It visits exactly those waiters, once each and in order of blocking, however
     many of them block on the key again; the iterator never stands on a node that is gone.
     */
    method HandleKey(k: Key, visits: nat -> Visit) returns (visited: seq<Id>)
      requires Inv(View()) && GoodVisits(visits)
      modifies this
      ensures Inv(View())
      ensures |visited| == |Waiters(old(View()), k)|
      ensures forall i | 0 <= i < |visited| :: visited[i] == Waiters(old(View()), k)[i].client
      ensures forall i, j | 0 <= i < j < |visited| :: visited[i] != visited[j]
      ensures forall n | n in Waiters(old(View()), k) :: n.client in old(clients)
      ensures View() == Pass(old(View()), Waiters(old(View()), k), visits, |visited|)
      ensures Handled(old(View()), View(), k, visits, visited)
    {
      hide Handled, Inv, Serve, PassShape, GoodReaction, Waiters, Pass;
      ghost var s := View();
      ghost var list := Waiters(s, k);
      visited := [];
      AllKnown(s, k);
      Distinctness(s, k);
      PassTurns(s, list, visits);
      NotEmpty(s, k);
      if k !in blocking {
        PassHandles(s, k, visits, visited);
        return;
      }
      var li := Some(blocking[k][0].id);
      var count := |blocking[k]|;
      ghost var kept, back: seq<Node> := [], [];
      PassStarts(s, k);
      while li.Some? && count > 0
        invariant count >= 0 && count + |visited| == |list|
        invariant forall i | 0 <= i < |visited| :: visited[i] == list[i].client
        invariant View() == Pass(s, list, visits, |visited|)
        invariant PassShape(s, k, View(), |visited|, kept, back)
        invariant count > 0 ==> li == Some(list[|visited|].id)
        decreases count
      {
        var c;
        c, li, kept, back := VisitNode(k, li.value, visits(|visited|), s, |visited|, kept, back);
        count := count - 1;
        visited := visited + [c];
      }
      ShapeIsInv(s, k, View(), |visited|, kept, back);
      PassHandles(s, k, visits, visited);
    }

    /**
     The inner loop of `handleClientsBlockedOnKeys`: the keys of the batch one by one. Keys
     signaled meanwhile wait in `ready`, the one being served included.
     */
    method RunBatch(visits: nat -> nat -> Visit) returns (visited: seq<seq<Id>>, ghost states: seq<Server>)
      requires Inv(View()) && forall n: nat :: GoodVisits(visits(n))
      modifies this
      ensures Inv(View()) && batch == []
      ensures readySet == (set k | k in ready) && Distinct(ready)
      ensures BatchHandled(states, old(batch), visits, visited) && states[0] == old(View()) && states[|old(batch)|] == View()
    {
      hide Inv, Pass, GoodVisits, Handled;
      visited, states := [], [View()];
      ghost var keys := batch;
      var n := 0;
      while |batch| != 0
        invariant Inv(View()) && n <= |keys| && batch == keys[n..]
        invariant |states| == n + 1 && states[n] == View() && states[0] == old(View()) && |visited| == n
        invariant forall i | 0 <= i < n :: Inv(states[i]) && states[i].batch == keys[i..]
        invariant forall i | 0 <= i < n :: Handled(TakeKey(states[i]), states[i + 1], keys[i], visits(i), visited[i])
        decreases |batch|
      {
        var k := batch[0];
        TakeKeyKeepsInv(View());
        readySet := readySet - {k};
        batch := batch[1..];
        ghost var s := View();
        assert s == TakeKey(states[n]);
        var clients := HandleKey(k, visits(n));
        PassKeepsBatch(s, Waiters(s, k), visits(n), |clients|);
        visited, states := visited + [clients], states + [View()];
        n := n + 1;
      }
      BatchDone(View());
    }
  }

  lemma PassTurns(s: Server, list: seq<Node>, visits: nat -> Visit)
    requires forall n | n in list :: n.client in s.clients
    ensures Pass(s, list, visits, 0) == s
    ensures forall i | 0 <= i < |list| :: Pass(s, list, visits, i + 1) == Serve(Pass(s, list, visits, i), list[i].client, visits(i))
  {
  }

  lemma ShapeIsInv(s: Server, k: Key, p: Server, i: nat, kept: seq<Node>, back: seq<Node>)
    requires i <= |Waiters(s, k)| && PassShape(s, k, p, i, kept, back)
    ensures Inv(p)
  {
  }

  /** Releasing a key looks at the client's node and wish, not at its other keys. */
  lemma SameRelease(s: Server, r: Server, c: Id, k: Key)
    requires c in s.clients && k in s.clients[c].keys && k in s.blocking && c in r.clients && k in r.clients[c].keys
    requires r.blocking == s.blocking && r.nokey == s.nokey
    requires r.clients[c].keys[k] == s.clients[c].keys[k] && r.clients[c].nokey == s.clients[c].nokey
    ensures ReleaseOne(r, c, k).blocking == ReleaseOne(s, c, k).blocking
    ensures ReleaseOne(r, c, k).nokey == ReleaseOne(s, c, k).nokey
    ensures ReleaseOne(r, c, k) == r.(blocking := ReleaseOne(r, c, k).blocking, nokey := ReleaseOne(r, c, k).nokey)
  {
  }

  lemma Distinctness(s: Server, k: Key)
    requires Inv(s)
    ensures forall i, j | 0 <= i < j < |Waiters(s, k)| :: Waiters(s, k)[i].client != Waiters(s, k)[j].client
  {
    assert KeyInv(s, k);
    WaitersDistinct(s, k);
  }

  lemma NotEmpty(s: Server, k: Key)
    requires Inv(s)
    ensures if k in s.blocking then Waiters(s, k) == s.blocking[k] != [] else Waiters(s, k) == []
  {
    assert KeyInv(s, k);
  }

  lemma ReleaseNone(s: Server, c: Id)
    requires c in s.clients && Inv(s)
    ensures Release(s, c, {}) == s && Release(s, c, s.clients[c].keys.Keys - s.clients[c].keys.Keys) == s
  {
    assert Released(s, c, {}) == s.blocking;
    assert ReleasedCounts(s, c, {}) == s.nokey;
    assert s.clients[c].keys.Keys - s.clients[c].keys.Keys == {};
  }

  /** The node to visit is in the live list right after the kept ones; what follows it is the next to visit. */
  lemma OnNextNode(s: Server, k: Key, p: Server, i: nat, kept: seq<Node>, back: seq<Node>)
    requires Inv(s) && i < |Waiters(s, k)| && PassShape(s, k, p, i, kept, back)
    ensures k in p.blocking && Ordered(p.blocking[k]) && |kept| < |p.blocking[k]|
    ensures p.blocking[k][|kept|] == Waiters(s, k)[i]
    ensures i + 1 < |Waiters(s, k)| ==> |kept| + 1 < |p.blocking[k]| && p.blocking[k][|kept| + 1] == Waiters(s, k)[i + 1]
  {
    assert KeyInv(p, k);
    NextWaits(s, k, p, i, kept, back);
  }

  lemma BatchDone(s: Server)
    requires Inv(s) && s.batch == []
    ensures s.readySet == (set k | k in s.ready) && Distinct(s.ready)
  {
    assert s.batch + s.ready == s.ready;
  }

  /** Serving clients never touches the running batch. */
  lemma {:induction false} PassKeepsBatch(s: Server, list: seq<Node>, visits: nat -> Visit, i: nat)
    requires i <= |list| && forall n | n in list :: n.client in s.clients
    ensures Pass(s, list, visits, i).batch == s.batch
  {
    hide Serve;
    if i > 0 {
      PassKeepsBatch(s, list, visits, i - 1);
      ServeKeepsBatch(Pass(s, list, visits, i - 1), list[i - 1].client, visits(i - 1));
    }
  }

  lemma {:induction false} SignalsKeepBatch(s: Server, signals: seq<Signaled>)
    ensures Signals(s, signals).batch == s.batch
    decreases signals
  {
    if signals != [] {
      SignalsKeepBatch(Signal(s, signals[0].key, signals[0].kind, signals[0].deleted), signals[1..]);
    }
  }

  lemma ServeKeepsBatch(s: Server, c: Id, v: Visit)
    requires c in s.clients
    ensures Serve(s, c, v).batch == s.batch
  {
    hide Signals, BlockForKeys, Release;
    SignalsKeepBatch(s, v.reaction.signals);
    var s1 := Unblock(s, c);
    var s2 := SetClient(s1, c, s1.clients[c].(pending := false));
    SignalsKeepBatch(s2, v.reaction.signals);
    if v.reaction.again.Some? {
      BlockForKeysChanges(Signals(s2, v.reaction.signals), c, v.reaction.again.value);
    }
  }
}
