/**
 Clients blocked on keys: the two-way index between clients and keys, the reference counts of
 clients that also want to wake on deletion, the counters by type and the queue of ready keys.
 */
module Blocked {
  import opened Basics

  type Id = nat

  datatype Key = Key(db: nat, name: string)

  datatype Kind = NoKind | List | ZSet | Stream | Module | Wait | WaitAof | Postpone | PostponeTrim | Shutdown | LazyFree

  /** A node of a waiting list; ids are given in order of creation. */
  datatype Node = Node(id: nat, client: Id)

  /** `keys` maps each key to the client's node in the list of that key. */
  datatype Client = Client(
    blocked: bool,
    kind: Kind,
    keys: map<Key, nat>,
    nokey: bool,         // unblock_on_nokey
    isModule: bool,      // CLIENT_MODULE
    pending: bool,       // CLIENT_PENDING_COMMAND
    queued: bool)        // CLIENT_UNBLOCKED

  datatype Server = Server(
    clients: map<Id, Client>,
    blocking: map<Key, seq<Node>>,   // blocking_keys
    nokey: map<Key, nat>,            // blocking_keys_unblock_on_nokey
    nextNode: nat,
    byType: map<Kind, nat>,          // blocked_clients_by_type
    blockedCount: nat,               // blocked_clients
    readySet: set<Key>,              // ready_keys of the databases
    ready: seq<Key>,                 // server.ready_keys
    batch: seq<Key>,                 // the rest of the list being run
    unblocked: seq<Id>)              // unblocked_clients

  // ------------------------------------------------------------------------ lists

  function Waiters(s: Server, k: Key): seq<Node> {
    if k in s.blocking then s.blocking[k] else []
  }

  function NokeyCount(s: Server, k: Key): nat {
    if k in s.nokey then s.nokey[k] else 0
  }

  /** listUnlinkNode. */
  function Unlink(list: seq<Node>, id: nat): seq<Node> {
    if list == [] then []
    else if list[0].id == id then list[1..]
    else [list[0]] + Unlink(list[1..], id)
  }

  predicate Wants(clients: map<Id, Client>, c: Id) {
    c in clients && clients[c].nokey
  }

  /** How many of the waiters asked to be woken on deletion. */
  function Wanting(clients: map<Id, Client>, list: seq<Node>): nat {
    if list == [] then 0
    else (if Wants(clients, list[0].client) then 1 else 0) + Wanting(clients, list[1..])
  }

  predicate Ordered(list: seq<Node>) {
    forall i, j | 0 <= i < j < |list| :: list[i].id < list[j].id
  }

  lemma HeadAndRest(list: seq<Node>)
    requires list != []
    ensures forall n :: n in list <==> n == list[0] || n in list[1..]
    ensures Ordered(list) ==> Ordered(list[1..]) && forall n | n in list[1..] :: list[0].id < n.id
  {
    assert forall i | 0 <= i < |list| - 1 :: list[1..][i] == list[i + 1];
    assert list == [list[0]] + list[1..];
  }

  lemma {:induction false} UnlinkMembers(list: seq<Node>, id: nat)
    requires Ordered(list)
    ensures forall n :: n in Unlink(list, id) <==> n in list && n.id != id
  {
    hide Ordered;
    if list != [] {
      HeadAndRest(list);
      UnlinkMembers(list[1..], id);
    }
  }

  lemma {:induction false} UnlinkOrdered(list: seq<Node>, id: nat)
    requires Ordered(list)
    ensures Ordered(Unlink(list, id))
  {
    if list != [] {
      HeadAndRest(list);
      UnlinkOrdered(list[1..], id);
      UnlinkMembers(list[1..], id);
      var r := Unlink(list[1..], id);
      assert forall i | 0 <= i < |r| :: r[i] in r;
    }
  }

  lemma UnlinkGone(list: seq<Node>, id: nat)
    requires Ordered(list)
    ensures Ordered(Unlink(list, id))
    ensures forall n :: n in Unlink(list, id) <==> n in list && n.id != id
  {
    UnlinkMembers(list, id);
    UnlinkOrdered(list, id);
  }

  lemma {:induction false} UnlinkWanting(clients: map<Id, Client>, list: seq<Node>, n: Node)
    requires Ordered(list) && n in list
    ensures Wanting(clients, list) == Wanting(clients, Unlink(list, n.id)) + if Wants(clients, n.client) then 1 else 0
  {
    assert forall i | 0 <= i < |list| - 1 :: list[1..][i] == list[i + 1];
    assert list == [list[0]] + list[1..];
    if list[0].id == n.id {
      assert list[0] == n;
    } else {
      UnlinkWanting(clients, list[1..], n);
    }
  }

  lemma {:induction false} WantingAppend(clients: map<Id, Client>, list: seq<Node>, n: Node)
    ensures Wanting(clients, list + [n]) == Wanting(clients, list) + if Wants(clients, n.client) then 1 else 0
  {
    if list == [] {
      assert list + [n] == [n];
    } else {
      assert (list + [n])[1..] == list[1..] + [n];
      WantingAppend(clients, list[1..], n);
    }
  }

  lemma {:induction false} WantingFrame(a: map<Id, Client>, b: map<Id, Client>, list: seq<Node>)
    requires forall i | 0 <= i < |list| :: Wants(a, list[i].client) == Wants(b, list[i].client)
    ensures Wanting(a, list) == Wanting(b, list)
  {
    if list != [] {
      assert forall i | 0 <= i < |list| - 1 :: list[1..][i] == list[i + 1];
      WantingFrame(a, b, list[1..]);
    }
  }

  // -------------------------------------------------------------------- operations

  function SetClient(s: Server, c: Id, client: Client): Server {
    s.(clients := s.clients[c := client])
  }

  /** One turn of the loop of `blockForKeys`. */
  function AddWaiter(s: Server, c: Id, k: Key, nokey: bool): Server
    requires c in s.clients
  {
    if k in s.clients[c].keys then s
    else
      var n := Node(s.nextNode, c);
      s.(clients := s.clients[c := s.clients[c].(keys := s.clients[c].keys[k := n.id])],
         blocking := s.blocking[k := Waiters(s, k) + [n]],
         nokey := if nokey then s.nokey[k := NokeyCount(s, k) + 1] else s.nokey,
         nextNode := s.nextNode + 1)
  }

  function AddWaiters(s: Server, c: Id, keys: seq<Key>, nokey: bool): (r: Server)
    requires c in s.clients
    ensures r.clients.Keys == s.clients.Keys
  {
    if keys == [] then s
    else AddWaiter(AddWaiters(s, c, keys[..|keys| - 1], nokey), c, keys[|keys| - 1], nokey)
  }

  function CountOf(s: Server, kind: Kind): nat {
    if kind in s.byType then s.byType[kind] else 0
  }

  function CountUp(s: Server, c: Id, kind: Kind): Server
    requires c in s.clients
  {
    s.(byType := s.byType[kind := CountOf(s, kind) + 1],
       blockedCount := if s.clients[c].isModule then s.blockedCount else s.blockedCount + 1)
  }

  /** `blockClient`. */
  function BlockClient(s: Server, c: Id, kind: Kind): (r: Server)
    requires c in s.clients
    ensures r.clients.Keys == s.clients.Keys
  {
    SetClient(CountUp(s, c, kind), c, s.clients[c].(blocked := true, kind := kind))
  }

  /** `blockForKeys`. */
  function BlockForKeys(s: Server, c: Id, kind: Kind, keys: seq<Key>, nokey: bool): (r: Server)
    requires c in s.clients
    ensures r.clients.Keys == s.clients.Keys
  {
    var s1 := AddWaiters(s, c, keys, nokey);
    var client := s1.clients[c].(nokey := nokey, pending := s1.clients[c].pending || kind != Module);
    BlockClient(SetClient(s1, c, client), c, kind)
  }

  /** From `s` to `r` client `c` came to wait for `ks` too, and nothing else changed. */
  predicate OnlyWaits(s: Server, r: Server, c: Id, ks: set<Key>)
    requires c in s.clients
  {
    && r.clients.Keys == s.clients.Keys
    && (forall d | d in s.clients && d != c :: r.clients[d] == s.clients[d])
    && r.clients[c] == s.clients[c].(keys := r.clients[c].keys)
    && r.clients[c].keys.Keys == s.clients[c].keys.Keys + ks
    && r == s.(clients := r.clients, blocking := r.blocking, nokey := r.nokey, nextNode := r.nextNode)
  }

  lemma AddedWaiter(s: Server, c: Id, k: Key, nokey: bool)
    requires c in s.clients
    ensures OnlyWaits(s, AddWaiter(s, c, k, nokey), c, {k})
  {
  }

  lemma OnlyWaitsTwice(s: Server, m: Server, r: Server, c: Id, a: set<Key>, b: set<Key>)
    requires c in s.clients && OnlyWaits(s, m, c, a) && OnlyWaits(m, r, c, b)
    ensures OnlyWaits(s, r, c, a + b)
  {
  }

  lemma {:induction false} AddedWaiters(s: Server, c: Id, keys: seq<Key>, nokey: bool)
    requires c in s.clients
    ensures OnlyWaits(s, AddWaiters(s, c, keys, nokey), c, set k | k in keys)
  {
    hide AddWaiter;
    if keys != [] {
      var n := |keys| - 1;
      AddedWaiters(s, c, keys[..n], nokey);
      var m := AddWaiters(s, c, keys[..n], nokey);
      AddedWaiter(m, c, keys[n], nokey);
      OnlyWaitsTwice(s, m, AddWaiters(s, c, keys, nokey), c, set k | k in keys[..n], {keys[n]});
      hide OnlyWaits;
      assert keys == keys[..n] + [keys[n]];
      assert (set k | k in keys) == (set k | k in keys[..n]) + {keys[n]};
    }
  }

  /** The lists once client `c` has left those of the keys `ks`. */
  function Released(s: Server, c: Id, ks: set<Key>): map<Key, seq<Node>>
    requires c in s.clients && ks <= s.clients[c].keys.Keys
  {
    map k | k in s.blocking && (k in ks ==> Unlink(s.blocking[k], s.clients[c].keys[k]) != [])
      :: if k in ks then Unlink(s.blocking[k], s.clients[c].keys[k]) else s.blocking[k]
  }

  /** And the reference counts. */
  function ReleasedCounts(s: Server, c: Id, ks: set<Key>): map<Key, nat>
    requires c in s.clients && ks <= s.clients[c].keys.Keys
  {
    map k | k in s.nokey && (k in ks ==> Unlink(Waiters(s, k), s.clients[c].keys[k]) != [] && (s.clients[c].nokey ==> s.nokey[k] > 1))
      :: if k in ks && s.clients[c].nokey then s.nokey[k] - 1 else s.nokey[k]
  }

  function Release(s: Server, c: Id, ks: set<Key>): (r: Server)
    requires c in s.clients && ks <= s.clients[c].keys.Keys
    ensures r == s.(blocking := r.blocking, nokey := r.nokey)
  {
    s.(blocking := Released(s, c, ks), nokey := ReleasedCounts(s, c, ks))
  }

  function Less(n: nat): nat {
    if n == 0 then 0 else n - 1
  }

  function CountDown(s: Server, c: Id): Server
    requires c in s.clients
  {
    var kind := s.clients[c].kind;
    s.(byType := s.byType[kind := Less(CountOf(s, kind))],
       blockedCount := if s.clients[c].isModule then s.blockedCount else Less(s.blockedCount))
  }

  /** `queueClientForReprocessing`. */
  function Queue(s: Server, c: Id): (r: Server)
    requires c in s.clients
    ensures r.clients.Keys == s.clients.Keys
  {
    if s.clients[c].queued then s
    else SetClient(s, c, s.clients[c].(queued := true)).(unblocked := s.unblocked + [c])
  }

  /** `unblockClient` up to the queue. */
  function Unblock(s: Server, c: Id): (r: Server)
    requires c in s.clients
    ensures r.clients.Keys == s.clients.Keys
  {
    var client := s.clients[c].(blocked := false, kind := NoKind, keys := map[], nokey := false);
    SetClient(CountDown(Release(s, c, s.clients[c].keys.Keys), c), c, client)
  }

  /** `unblockClient`. */
  function UnblockClient(s: Server, c: Id, queue: bool): (r: Server)
    requires c in s.clients
    ensures r.clients.Keys == s.clients.Keys
  {
    if queue then Queue(Unblock(s, c), c) else Unblock(s, c)
  }

  /** `signalKeyAsReadyLogic`; `kind` is the blocking type for the type of the key. */
  function Signal(s: Server, k: Key, kind: Kind, deleted: bool): (r: Server)
    ensures r.clients == s.clients
  {
    if kind == NoKind || (CountOf(s, kind) == 0 && CountOf(s, Module) == 0) then s
    else if (if deleted then k !in s.nokey else k !in s.blocking) || k in s.readySet then s
    else s.(readySet := s.readySet + {k}, ready := s.ready + [k])
  }

  // ---- serving a ready key

  datatype Signaled = Signaled(key: Key, kind: Kind, deleted: bool)

  datatype Block = Block(kind: Kind, keys: seq<Key>, nokey: bool)

  /** What a re-executed command does: it signals keys, and it may block its client again. */
  datatype Reaction = Reaction(signals: seq<Signaled>, again: Option<Block>)

  /** What is found when a waiter is visited: the blocking type of the key, and how the command reacts. */
  datatype Visit = Visit(found: Option<Kind>, reaction: Reaction)

  function Signals(s: Server, signals: seq<Signaled>): (r: Server)
    ensures r.clients == s.clients
    decreases signals
  {
    if signals == [] then s
    else Signals(Signal(s, signals[0].key, signals[0].kind, signals[0].deleted), signals[1..])
  }

  /** `processCommandAndResetClient` and what follows it in `unblockClientOnKey`. */
  function Reexecute(s: Server, c: Id, r: Reaction): (s': Server)
    requires c in s.clients
    ensures s'.clients.Keys == s.clients.Keys
  {
    var s1 := Signals(SetClient(s, c, s.clients[c].(pending := false)), r.signals);
    if r.again.Some? then BlockForKeys(s1, c, r.again.value.kind, r.again.value.keys, r.again.value.nokey)
    else if s1.clients[c].isModule then s1
    else Queue(s1, c)
  }

  predicate Served(c: Client, found: Option<Kind>) {
    (found.Some? && (c.kind == found.value || c.kind == Module)) || c.nokey
  }

  /** One turn of the loop of `handleClientsBlockedOnKey`. */
  function Serve(s: Server, c: Id, v: Visit): (r: Server)
    requires c in s.clients
    ensures r.clients.Keys == s.clients.Keys
  {
    if !Served(s.clients[c], v.found) then s
    else if s.clients[c].kind == Module then Signals(s, v.reaction.signals)
    else
      var s1 := Unblock(s, c);
      if s1.clients[c].pending then Reexecute(s1, c, v.reaction) else s1
  }

  /** Visiting the first `i` nodes of a list. */
  function Pass(s: Server, list: seq<Node>, visits: nat -> Visit, i: nat): (r: Server)
    requires i <= |list| && forall n | n in list :: n.client in s.clients
    ensures r.clients.Keys == s.clients.Keys
  {
    if i == 0 then s else Serve(Pass(s, list, visits, i - 1), list[i - 1].client, visits(i - 1))
  }

  /** The outer loop of `handleClientsBlockedOnKeys` takes over the list of ready keys. */
  function StartBatch(s: Server): Server {
    s.(batch := s.ready, ready := [])
  }

  /** The inner loop takes one key: from here on it can be signaled again. */
  function TakeKey(s: Server): Server
    requires s.batch != []
  {
    s.(readySet := s.readySet - {s.batch[0]}, batch := s.batch[1..])
  }

  // --------------------------------------------------------------------- invariants

  /** Key `k`: who waits for it, each once, in order of blocking. */
  ghost predicate ListInv(s: Server, k: Key) {
    var list := Waiters(s, k);
    && (k in s.blocking ==> list != [])
    && Ordered(list)
    && (forall n | n in list :: n.id < s.nextNode && n.client in s.clients &&
          k in s.clients[n.client].keys && s.clients[n.client].keys[k] == n.id)
    && (forall c | c in s.clients && k in s.clients[c].keys :: Node(s.clients[c].keys[k], c) in list)
  }

  /** And how many of them count for deletions. */
  predicate CountInv(s: Server, k: Key) {
    NokeyCount(s, k) == Wanting(s.clients, Waiters(s, k)) && (k in s.nokey ==> s.nokey[k] > 0)
  }

  ghost predicate KeyInv(s: Server, k: Key) {
    ListInv(s, k) && CountInv(s, k)
  }

  ghost predicate KeysInv(s: Server) {
    forall k :: KeyInv(s, k)
  }

  predicate KeyKind(kind: Kind) {
    kind in {List, ZSet, Stream, Module}
  }

  predicate ClientInv(c: Client) {
    && (c.keys != map[] ==> c.blocked && KeyKind(c.kind))
    && (c.blocked <==> c.kind != NoKind)
    && (!c.blocked ==> !c.nokey)
  }

  predicate ClientsInv(s: Server) {
    forall c | c in s.clients :: ClientInv(s.clients[c])
  }

  function BlockedOf(clients: map<Id, Client>, kind: Kind): set<Id> {
    set c | c in clients && clients[c].blocked && clients[c].kind == kind
  }

  function BlockedRegular(clients: map<Id, Client>): set<Id> {
    set c | c in clients && clients[c].blocked && !clients[c].isModule
  }

  ghost predicate CountersInv(s: Server) {
    && (forall kind | kind != NoKind :: CountOf(s, kind) == |BlockedOf(s.clients, kind)|)
    && s.blockedCount == |BlockedRegular(s.clients)|
  }

  predicate Distinct<T(==)>(q: seq<T>) {
    forall i, j | 0 <= i < j < |q| :: q[i] != q[j]
  }

  /** The ready sets hold exactly the queued keys, each queued once; likewise for reprocessing. */
  predicate QueuesInv(s: Server) {
    && s.readySet == (set k | k in s.batch + s.ready)
    && Distinct(s.batch + s.ready)
    && Distinct(s.unblocked)
    && (forall c | c in s.unblocked :: c in s.clients && s.clients[c].queued)
    && (forall c | c in s.clients && s.clients[c].queued :: c in s.unblocked)
  }

  ghost predicate Inv(s: Server) {
    KeysInv(s) && ClientsInv(s) && CountersInv(s) && QueuesInv(s)
  }

  // --------------------------------------------------- keeping the index: one key at a time

  /** A key whose list, count and waiters stay as they are. */
  lemma KeyFrame(s: Server, r: Server, k: Key, c: Id)
    requires KeyInv(s, k) && s.nextNode <= r.nextNode
    requires Waiters(r, k) == Waiters(s, k) && NokeyCount(r, k) == NokeyCount(s, k)
    requires (k in r.blocking <==> k in s.blocking) && (k in r.nokey <==> k in s.nokey)
    requires s.clients.Keys <= r.clients.Keys <= s.clients.Keys + {c}
    requires forall d | d in s.clients && d != c :: r.clients[d] == s.clients[d]
    requires c in s.clients ==> k !in s.clients[c].keys
    requires c in r.clients ==> k !in r.clients[c].keys
    ensures KeyInv(r, k)
  {
    var list := Waiters(s, k);
    forall i | 0 <= i < |list| ensures Wants(s.clients, list[i].client) == Wants(r.clients, list[i].client) {
      assert list[i] in list;
    }
    WantingFrame(s.clients, r.clients, list);
  }

  /** Changing a client in all but its keys; `nokey` may change only while it waits for nothing. */
  lemma ClientFrame(s: Server, r: Server, k: Key, c: Id)
    requires KeyInv(s, k) && r.clients.Keys == s.clients.Keys && c in s.clients
    requires r.blocking == s.blocking && r.nokey == s.nokey && r.nextNode == s.nextNode
    requires forall d | d in s.clients && d != c :: r.clients[d] == s.clients[d]
    requires r.clients[c].keys == s.clients[c].keys
    requires k in s.clients[c].keys ==> r.clients[c].nokey == s.clients[c].nokey
    ensures KeyInv(r, k)
  {
    var list := Waiters(s, k);
    forall i | 0 <= i < |list| ensures Wants(s.clients, list[i].client) == Wants(r.clients, list[i].client) {
      assert list[i] in list;
    }
    WantingFrame(s.clients, r.clients, list);
  }

  predicate OnlyClient(s: Server, r: Server, c: Id) {
    && c in s.clients && r.clients.Keys == s.clients.Keys
    && (forall d | d in s.clients && d != c :: r.clients[d] == s.clients[d])
  }

  lemma JoinedList(s: Server, r: Server, k: Key, c: Id)
    requires ListInv(s, k) && OnlyClient(s, r, c) && r.nextNode == s.nextNode + 1
    requires k !in s.clients[c].keys && k in r.clients[c].keys && r.clients[c].keys[k] == s.nextNode
    requires k in r.blocking && r.blocking[k] == Waiters(s, k) + [Node(s.nextNode, c)]
    ensures ListInv(r, k)
  {
    var list, n := Waiters(s, k), Node(s.nextNode, c);
    var list' := list + [n];
    assert forall m :: m in list' <==> m in list || m == n;
    forall i, j | 0 <= i < j < |list'| ensures list'[i].id < list'[j].id {
      assert list'[i] in list;
    }
  }

  lemma JoinedCount(s: Server, r: Server, k: Key, c: Id)
    requires ListInv(s, k) && CountInv(s, k) && OnlyClient(s, r, c) && r.clients[c].nokey == s.clients[c].nokey
    requires Waiters(r, k) == Waiters(s, k) + [Node(s.nextNode, c)]
    requires NokeyCount(r, k) == NokeyCount(s, k) + if s.clients[c].nokey then 1 else 0
    requires k in r.nokey ==> r.nokey[k] > 0
    ensures CountInv(r, k)
  {
    hide ListInv, Waiters;
    SameWants(s, r, c, Waiters(s, k));
    WantingAppend(r.clients, Waiters(s, k), Node(s.nextNode, c));
  }

  lemma SameWants(s: Server, r: Server, c: Id, list: seq<Node>)
    requires OnlyClient(s, r, c)
    requires r.clients[c].nokey == s.clients[c].nokey || forall n | n in list :: n.client != c
    ensures Wanting(r.clients, list) == Wanting(s.clients, list)
  {
    forall i | 0 <= i < |list| ensures Wants(s.clients, list[i].client) == Wants(r.clients, list[i].client) {
      assert list[i] in list;
    }
    WantingFrame(s.clients, r.clients, list);
  }

  lemma AddWaiterKeepsKey(s: Server, c: Id, k: Key, other: Key)
    requires c in s.clients && KeyInv(s, k) && KeyInv(s, other)
    ensures KeyInv(AddWaiter(s, c, k, s.clients[c].nokey), other)
  {
    var r := AddWaiter(s, c, k, s.clients[c].nokey);
    hide ListInv, Wanting;
    if k !in s.clients[c].keys {
      if other != k {
        OtherKeyFrame(s, r, other, c);
      } else {
        JoinedList(s, r, k, c);
        JoinedCount(s, r, k, c);
      }
    }
  }

  /** A key that `c` may wait for, unaffected by a change of its other keys. */
  lemma OtherKeyFrame(s: Server, r: Server, k: Key, c: Id)
    requires KeyInv(s, k) && s.nextNode <= r.nextNode && r.clients.Keys == s.clients.Keys && c in s.clients
    requires Waiters(r, k) == Waiters(s, k) && NokeyCount(r, k) == NokeyCount(s, k)
    requires (k in r.blocking <==> k in s.blocking) && (k in r.nokey <==> k in s.nokey)
    requires forall d | d in s.clients && d != c :: r.clients[d] == s.clients[d]
    requires k in r.clients[c].keys <==> k in s.clients[c].keys
    requires k in r.clients[c].keys ==> r.clients[c].keys[k] == s.clients[c].keys[k]
    requires r.clients[c].nokey == s.clients[c].nokey
    ensures KeyInv(r, k)
  {
    var list := Waiters(s, k);
    forall i | 0 <= i < |list| ensures Wants(s.clients, list[i].client) == Wants(r.clients, list[i].client) {
      assert list[i] in list;
    }
    WantingFrame(s.clients, r.clients, list);
  }

  lemma {:induction false} AddWaitersKeepsKeys(s: Server, c: Id, keys: seq<Key>)
    requires c in s.clients && KeysInv(s)
    ensures KeysInv(AddWaiters(s, c, keys, s.clients[c].nokey))
  {
    hide KeyInv, AddWaiter;
    if keys != [] {
      var n, nokey := |keys| - 1, s.clients[c].nokey;
      AddWaitersKeepsKeys(s, c, keys[..n]);
      AddedWaiters(s, c, keys[..n], nokey);
      var s1 := AddWaiters(s, c, keys[..n], nokey);
      forall other ensures KeyInv(AddWaiter(s1, c, keys[n], nokey), other) {
        AddWaiterKeepsKey(s1, c, keys[n], other);
      }
    }
  }

  /** Leaving a list. */
  lemma LeftList(s: Server, r: Server, k: Key, c: Id)
    requires ListInv(s, k) && OnlyClient(s, r, c) && r.nextNode == s.nextNode
    requires k in s.clients[c].keys && k !in r.clients[c].keys
    requires Waiters(r, k) == Unlink(Waiters(s, k), s.clients[c].keys[k]) && (k in r.blocking ==> Waiters(r, k) != [])
    ensures ListInv(r, k) && Node(s.clients[c].keys[k], c) in Waiters(s, k)
    ensures forall n | n in Waiters(r, k) :: n.client != c
  {
    UnlinkGone(Waiters(s, k), s.clients[c].keys[k]);
  }

  lemma LeftCount(s: Server, r: Server, k: Key, c: Id)
    requires ListInv(s, k) && CountInv(s, k) && ListInv(r, k) && OnlyClient(s, r, c)
    requires k in s.clients[c].keys && k !in r.clients[c].keys && Node(s.clients[c].keys[k], c) in Waiters(s, k)
    requires Waiters(r, k) == Unlink(Waiters(s, k), s.clients[c].keys[k])
    requires forall n | n in Waiters(r, k) :: n.client != c
    requires r.nokey == ReleasedCounts(s, c, s.clients[c].keys.Keys)
    ensures CountInv(r, k)
  {
    var list, n := Waiters(s, k), Node(s.clients[c].keys[k], c);
    UnlinkWanting(s.clients, list, n);
    SameWants(s, r, c, Waiters(r, k));
    hide ListInv, Unlink, Waiters;
  }

  lemma ReleaseKeepsKey(s: Server, c: Id, client: Client, k: Key)
    requires c in s.clients && KeyInv(s, k) && client.keys == map[]
    ensures KeyInv(SetClient(Release(s, c, s.clients[c].keys.Keys), c, client), k)
  {
    var r := SetClient(Release(s, c, s.clients[c].keys.Keys), c, client);
    hide ListInv, Wanting;
    if k in s.clients[c].keys {
      InList(s, k, c);
      LeftList(s, r, k, c);
      LeftCount(s, r, k, c);
    } else {
      KeyFrame(s, r, k, c);
    }
  }

  lemma InList(s: Server, k: Key, c: Id)
    requires ListInv(s, k) && c in s.clients && k in s.clients[c].keys
    ensures k in s.blocking
  {
  }

  // ------------------------------------------------------- every operation keeps all of it

  /** The value of `nokey` plays no part while the lists grow. */
  lemma {:induction false} AddWaitersNokey(s: Server, c: Id, keys: seq<Key>, nokey: bool)
    requires c in s.clients
    ensures
      var r := AddWaiters(s, c, keys, nokey);
      AddWaiters(SetClient(s, c, s.clients[c].(nokey := nokey)), c, keys, nokey) == SetClient(r, c, r.clients[c].(nokey := nokey))
  {
    if keys != [] {
      var n := |keys| - 1;
      AddWaitersNokey(s, c, keys[..n], nokey);
      AddWaiterNokey(AddWaiters(s, c, keys[..n], nokey), c, keys[n], nokey);
    }
  }

  lemma AddWaiterNokey(s: Server, c: Id, k: Key, nokey: bool)
    requires c in s.clients
    ensures
      var r := AddWaiter(s, c, k, nokey);
      AddWaiter(SetClient(s, c, s.clients[c].(nokey := nokey)), c, k, nokey) == SetClient(r, c, r.clients[c].(nokey := nokey))
  {
    var client := s.clients[c];
    var x := client.(nokey := nokey, keys := client.keys[k := s.nextNode]);
    var s0 := SetClient(s, c, client.(nokey := nokey));
    SetTwice(s.clients, c, client.(nokey := nokey), x);
    SetTwice(s.clients, c, client.(keys := client.keys[k := s.nextNode]), x);
    if k in client.keys {
      assert AddWaiter(s0, c, k, nokey) == s0;
    } else {
      assert AddWaiter(s0, c, k, nokey).clients == s.clients[c := x];
    }
  }

  lemma SetTwice(clients: map<Id, Client>, c: Id, a: Client, b: Client)
    ensures clients[c := a][c := b] == clients[c := b]
  {
  }

  lemma BlockForKeysKeepsKeys(s: Server, c: Id, kind: Kind, keys: seq<Key>, nokey: bool)
    requires c in s.clients && KeysInv(s) && s.clients[c].keys == map[]
    ensures KeysInv(BlockForKeys(s, c, kind, keys, nokey))
  {
    hide KeyInv, AddWaiters;
    var s0 := SetClient(s, c, s.clients[c].(nokey := nokey));
    forall k ensures KeyInv(s0, k) {
      ClientFrame(s, s0, k, c);
    }
    AddWaitersKeepsKeys(s0, c, keys);
    AddWaitersNokey(s, c, keys, nokey);
    var s1 := AddWaiters(s0, c, keys, nokey);
    var r := BlockForKeys(s, c, kind, keys, nokey);
    forall k ensures KeyInv(r, k) {
      ClientFrame(s1, r, k, c);
    }
  }

  lemma UnblockKeepsKeys(s: Server, c: Id)
    requires c in s.clients && KeysInv(s)
    ensures KeysInv(Unblock(s, c))
  {
    hide KeyInv, Release;
    var client := s.clients[c].(blocked := false, kind := NoKind, keys := map[], nokey := false);
    var s1 := SetClient(Release(s, c, s.clients[c].keys.Keys), c, client);
    var r := Unblock(s, c);
    forall k ensures KeyInv(r, k) {
      ReleaseKeepsKey(s, c, client, k);
      ClientFrame(s1, r, k, c);
    }
  }

  function One(b: bool): nat {
    if b then 1 else 0
  }

  lemma SizeWithout(a: set<Id>, c: Id)
    ensures |a| == |a - {c}| + One(c in a)
  {
    if c in a {
      assert a == (a - {c}) + {c};
    } else {
      assert a - {c} == a;
    }
  }

  lemma SizeChanges(a: set<Id>, b: set<Id>, c: Id)
    requires forall d | d != c :: d in a <==> d in b
    ensures |b| == |a| - One(c in a) + One(c in b)
  {
    SizeWithout(a, c);
    SizeWithout(b, c);
    assert a - {c} == b - {c};
  }

  lemma BlockedOfUpdate(clients: map<Id, Client>, c: Id, x: Client, t: Kind)
    requires c in clients
    ensures |BlockedOf(clients[c := x], t)|
         == |BlockedOf(clients, t)| - One(clients[c].blocked && clients[c].kind == t) + One(x.blocked && x.kind == t)
  {
    SizeChanges(BlockedOf(clients, t), BlockedOf(clients[c := x], t), c);
  }

  lemma BlockedRegularUpdate(clients: map<Id, Client>, c: Id, x: Client)
    requires c in clients
    ensures |BlockedRegular(clients[c := x])|
         == |BlockedRegular(clients)| - One(clients[c].blocked && !clients[c].isModule) + One(x.blocked && !x.isModule)
  {
    SizeChanges(BlockedRegular(clients), BlockedRegular(clients[c := x]), c);
  }

  lemma BlockClientKeepsCounters(s: Server, c: Id, kind: Kind)
    requires c in s.clients && CountersInv(s) && !s.clients[c].blocked && kind != NoKind
    ensures CountersInv(BlockClient(s, c, kind))
  {
    hide BlockedOf, BlockedRegular;
    var r, x := BlockClient(s, c, kind), s.clients[c].(blocked := true, kind := kind);
    forall t | t != NoKind ensures CountOf(r, t) == |BlockedOf(r.clients, t)| {
      BlockedOfUpdate(s.clients, c, x, t);
    }
    BlockedRegularUpdate(s.clients, c, x);
  }

  lemma UnblockKeepsCounters(s: Server, c: Id)
    requires c in s.clients && CountersInv(s) && s.clients[c].blocked && s.clients[c].kind != NoKind
    ensures CountersInv(Unblock(s, c))
  {
    hide BlockedOf, BlockedRegular, Release;
    var r, x := Unblock(s, c), s.clients[c].(blocked := false, kind := NoKind, keys := map[], nokey := false);
    assert r.clients == s.clients[c := x];
    forall t | t != NoKind ensures CountOf(r, t) == |BlockedOf(r.clients, t)| {
      BlockedOfUpdate(s.clients, c, x, t);
    }
    BlockedRegularUpdate(s.clients, c, x);
  }

  /** Counters look only at three fields of each client. */
  lemma CountersFrame(s: Server, r: Server)
    requires CountersInv(s) && r.clients.Keys == s.clients.Keys && r.byType == s.byType && r.blockedCount == s.blockedCount
    requires forall c | c in s.clients ::
      r.clients[c].blocked == s.clients[c].blocked && r.clients[c].kind == s.clients[c].kind && r.clients[c].isModule == s.clients[c].isModule
    ensures CountersInv(r)
  {
    forall t ensures BlockedOf(r.clients, t) == BlockedOf(s.clients, t) {
    }
    assert BlockedRegular(r.clients) == BlockedRegular(s.clients);
  }

  lemma BlockForKeysKeepsCounters(s: Server, c: Id, b: Block)
    requires CountersInv(s) && c in s.clients && !s.clients[c].blocked && KeyKind(b.kind)
    ensures CountersInv(BlockForKeys(s, c, b.kind, b.keys, b.nokey))
  {
    hide CountersInv, AddWaiters;
    AddedWaiters(s, c, b.keys, b.nokey);
    var s1 := AddWaiters(s, c, b.keys, b.nokey);
    var s2 := SetClient(s1, c, s1.clients[c].(nokey := b.nokey, pending := s1.clients[c].pending || b.kind != Module));
    CountersFrame(s, s2);
    BlockClientKeepsCounters(s2, c, b.kind);
  }

  /** Blocking leaves the queues and the other clients alone. */
  lemma BlockForKeysChanges(s: Server, c: Id, b: Block)
    requires c in s.clients
    ensures
      var r := BlockForKeys(s, c, b.kind, b.keys, b.nokey);
      && OnlyClient(s, r, c)
      && r.clients[c] == s.clients[c].(blocked := true, kind := b.kind, keys := r.clients[c].keys, nokey := b.nokey, pending := r.clients[c].pending)
      && r.readySet == s.readySet && r.ready == s.ready && r.batch == s.batch && r.unblocked == s.unblocked
  {
    hide AddWaiters;
    AddedWaiters(s, c, b.keys, b.nokey);
  }

  lemma QueuesFrame(s: Server, r: Server, c: Id)
    requires QueuesInv(s) && OnlyClient(s, r, c) && r.clients[c].queued == s.clients[c].queued
    requires r.readySet == s.readySet && r.ready == s.ready && r.batch == s.batch && r.unblocked == s.unblocked
    ensures QueuesInv(r)
  {
  }

  lemma ClientsFrame(s: Server, r: Server, c: Id)
    requires ClientsInv(s) && OnlyClient(s, r, c) && ClientInv(r.clients[c])
    ensures ClientsInv(r)
  {
    hide ClientInv;
  }

  lemma BlockForKeysKeepsInv(s: Server, c: Id, b: Block)
    requires Inv(s) && c in s.clients && !s.clients[c].blocked && KeyKind(b.kind)
    ensures Inv(BlockForKeys(s, c, b.kind, b.keys, b.nokey))
  {
    hide KeysInv, CountersInv, QueuesInv, BlockForKeys;
    assert ClientInv(s.clients[c]);
    var r := BlockForKeys(s, c, b.kind, b.keys, b.nokey);
    BlockForKeysKeepsKeys(s, c, b.kind, b.keys, b.nokey);
    BlockForKeysKeepsCounters(s, c, b);
    BlockForKeysChanges(s, c, b);
    QueuesFrame(s, r, c);
    ClientsFrame(s, r, c);
  }

  lemma BlockKeepsInv(s: Server, c: Id, kind: Kind)
    requires Inv(s) && c in s.clients && !s.clients[c].blocked && kind != NoKind
    ensures Inv(BlockClient(s, c, kind))
  {
    hide KeyInv, CountersInv;
    BlockClientKeepsCounters(s, c, kind);
    forall k ensures KeyInv(BlockClient(s, c, kind), k) {
      ClientFrame(s, BlockClient(s, c, kind), k, c);
    }
  }

  lemma UnblockKeepsInv(s: Server, c: Id)
    requires Inv(s) && c in s.clients && s.clients[c].blocked
    ensures Inv(Unblock(s, c))
  {
    hide KeysInv, CountersInv, Release, QueuesInv;
    assert ClientInv(s.clients[c]);
    var r := Unblock(s, c);
    UnblockKeepsKeys(s, c);
    UnblockKeepsCounters(s, c);
    QueuesFrame(s, r, c);
    ClientsFrame(s, r, c);
  }

  lemma QueueKeepsInv(s: Server, c: Id)
    requires Inv(s) && c in s.clients
    ensures Inv(Queue(s, c))
  {
    hide KeyInv, CountersInv;
    var r := Queue(s, c);
    CountersFrame(s, r);
    forall k ensures KeyInv(r, k) {
      if !s.clients[c].queued {
        ClientFrame(s, r, k, c);
      }
    }
  }

  lemma SignalKeepsInv(s: Server, k: Key, kind: Kind, deleted: bool)
    requires Inv(s)
    ensures Inv(Signal(s, k, kind, deleted))
  {
    hide CountersInv, KeyInv;
    var r := Signal(s, k, kind, deleted);
    forall other ensures KeyInv(r, other) {
      SameIndex(s, r, other);
    }
    CountersFrame(s, r);
    if r != s {
      assert r.batch + r.ready == (s.batch + s.ready) + [k];
    }
  }

  lemma SameIndex(s: Server, r: Server, k: Key)
    requires KeyInv(s, k) && r.clients == s.clients && r.blocking == s.blocking && r.nokey == s.nokey && r.nextNode == s.nextNode
    ensures KeyInv(r, k)
  {
  }

  lemma {:induction false} SignalsKeepInv(s: Server, signals: seq<Signaled>)
    requires Inv(s)
    ensures Inv(Signals(s, signals))
    decreases signals
  {
    hide Inv, Signal;
    if signals != [] {
      var g := signals[0];
      SignalKeepsInv(s, g.key, g.kind, g.deleted);
      SignalsKeepInv(Signal(s, g.key, g.kind, g.deleted), signals[1..]);
    }
  }

  lemma StartBatchKeepsInv(s: Server)
    requires Inv(s) && s.batch == []
    ensures Inv(StartBatch(s))
  {
    hide CountersInv, KeyInv;
    var r := StartBatch(s);
    forall k ensures KeyInv(r, k) {
      SameIndex(s, r, k);
    }
    CountersFrame(s, r);
    assert r.batch + r.ready == s.batch + s.ready;
  }

  lemma TakeKeyKeepsInv(s: Server)
    requires Inv(s) && s.batch != []
    ensures Inv(TakeKey(s)) && s.batch[0] !in TakeKey(s).readySet
  {
    hide CountersInv, KeyInv;
    var r := TakeKey(s);
    forall k ensures KeyInv(r, k) {
      SameIndex(s, r, k);
    }
    CountersFrame(s, r);
    var q := s.batch + s.ready;
    assert r.batch + r.ready == q[1..];
    assert forall i | 0 <= i < |q| - 1 :: q[1..][i] == q[i + 1];
    assert q == [q[0]] + q[1..];
  }

  predicate GoodReaction(r: Reaction) {
    r.again.Some? ==> KeyKind(r.again.value.kind)
  }

  lemma ReexecuteKeepsInv(s: Server, c: Id, r: Reaction)
    requires Inv(s) && c in s.clients && !s.clients[c].blocked && GoodReaction(r)
    ensures Inv(Reexecute(s, c, r))
  {
    hide Inv, Signals, BlockForKeys, Queue;
    var s0 := SetClient(s, c, s.clients[c].(pending := false));
    PendingKeepsInv(s, c);
    SignalsKeepInv(s0, r.signals);
    var s1 := Signals(s0, r.signals);
    if r.again.Some? {
      BlockForKeysKeepsInv(s1, c, r.again.value);
    } else {
      QueueKeepsInv(s1, c);
    }
  }

  lemma PendingKeepsInv(s: Server, c: Id)
    requires Inv(s) && c in s.clients
    ensures Inv(SetClient(s, c, s.clients[c].(pending := false)))
  {
    hide CountersInv, KeyInv;
    var r := SetClient(s, c, s.clients[c].(pending := false));
    forall k ensures KeyInv(r, k) {
      ClientFrame(s, r, k, c);
    }
    CountersFrame(s, r);
  }

  lemma ServeKeepsInv(s: Server, c: Id, v: Visit)
    requires Inv(s) && c in s.clients && s.clients[c].blocked && GoodReaction(v.reaction)
    ensures Inv(Serve(s, c, v))
  {
    hide Inv, Signals, Unblock, Reexecute;
    UnblockKeepsInv(s, c);
    SignalsKeepInv(s, v.reaction.signals);
    UnblockedNow(s, c);
    ReexecuteKeepsInv(Unblock(s, c), c, v.reaction);
  }

  lemma UnblockedNow(s: Server, c: Id)
    requires c in s.clients
    ensures !Unblock(s, c).clients[c].blocked
  {
  }

  // ---------------------------------------------------------------- one pass over a key

  lemma {:induction false} UnlinkMiddle(a: seq<Node>, n: Node, b: seq<Node>)
    requires Ordered(a + [n] + b)
    ensures Unlink(a + [n] + b, n.id) == a + b
  {
    var list := a + [n] + b;
    if a == [] {
      assert list[1..] == b;
    } else {
      assert list[0].id < list[|a|].id;
      HeadAndRest(list);
      assert list[1..] == a[1..] + [n] + b;
      UnlinkMiddle(a[1..], n, b);
      assert a + b == [a[0]] + (a[1..] + b);
    }
  }

  /** The list of `k` after `c`, who does not wait for it, came to wait for `keys`. */
  lemma {:induction false} AddWaitersList(s: Server, c: Id, keys: seq<Key>, nokey: bool, k: Key)
    requires c in s.clients && k !in s.clients[c].keys
    ensures
      var r := AddWaiters(s, c, keys, nokey);
      && r.nextNode >= s.nextNode
      && if k in r.clients[c].keys
         then r.clients[c].keys[k] >= s.nextNode && Waiters(r, k) == Waiters(s, k) + [Node(r.clients[c].keys[k], c)]
         else Waiters(r, k) == Waiters(s, k)
  {
    if keys != [] {
      AddWaitersList(s, c, keys[..|keys| - 1], nokey, k);
    }
  }

  lemma BlockForKeysList(s: Server, c: Id, b: Block, k: Key)
    requires c in s.clients && k !in s.clients[c].keys
    ensures
      var r := BlockForKeys(s, c, b.kind, b.keys, b.nokey);
      && r.nextNode >= s.nextNode
      && (Waiters(r, k) == Waiters(s, k) || exists m | m >= s.nextNode :: Waiters(r, k) == Waiters(s, k) + [Node(m, c)])
  {
    hide AddWaiters;
    AddWaitersList(s, c, b.keys, b.nokey, k);
  }

  lemma {:induction false} SignalsList(s: Server, signals: seq<Signaled>)
    ensures Signals(s, signals).blocking == s.blocking && Signals(s, signals).nextNode == s.nextNode
    decreases signals
  {
    if signals != [] {
      SignalsList(Signal(s, signals[0].key, signals[0].kind, signals[0].deleted), signals[1..]);
    }
  }

  lemma UnblockList(s: Server, c: Id, k: Key, a: seq<Node>, n: Node, b: seq<Node>)
    requires KeyInv(s, k) && c in s.clients && k in s.clients[c].keys && n == Node(s.clients[c].keys[k], c)
    requires Waiters(s, k) == a + [n] + b
    ensures Waiters(Unblock(s, c), k) == a + b && Unblock(s, c).nextNode == s.nextNode
  {
    UnlinkMiddle(a, n, b);
    hide Unlink;
  }

  /** What serving a waiter does to the list of its key: nothing, or it leaves, or it goes to the end. */
  ghost predicate ListMoves(old': seq<Node>, left: seq<Node>, new': seq<Node>, c: Id, fresh': nat) {
    new' == old' || new' == left || exists m | m >= fresh' :: new' == left + [Node(m, c)]
  }

  lemma ReexecuteList(s: Server, c: Id, r: Reaction, k: Key)
    requires c in s.clients && k !in s.clients[c].keys
    ensures
      var s' := Reexecute(s, c, r);
      && OnlyClient(s, s', c) && s'.nextNode >= s.nextNode
      && ListMoves(Waiters(s, k), Waiters(s, k), Waiters(s', k), c, s.nextNode)
  {
    hide Signals, BlockForKeys;
    var s0 := SetClient(s, c, s.clients[c].(pending := false));
    SignalsList(s0, r.signals);
    var s1 := Signals(s0, r.signals);
    if r.again.Some? {
      BlockForKeysList(s1, c, r.again.value, k);
      BlockForKeysChanges(s1, c, r.again.value);
    }
  }

  lemma ServeList(s: Server, c: Id, v: Visit, k: Key, a: seq<Node>, n: Node, b: seq<Node>)
    requires KeyInv(s, k) && c in s.clients && k in s.clients[c].keys && n == Node(s.clients[c].keys[k], c)
    requires Waiters(s, k) == a + [n] + b
    ensures
      var s' := Serve(s, c, v);
      && OnlyClient(s, s', c) && s'.nextNode >= s.nextNode
      && ListMoves(Waiters(s, k), a + b, Waiters(s', k), c, s.nextNode)
  {
    hide Signals, Reexecute, KeyInv, ListMoves, Release;
    assert ListMoves(Waiters(s, k), a + b, Waiters(s, k), c, s.nextNode) by { Stays(s, k, a + b, c); }
    SignalsList(s, v.reaction.signals);
    UnblockList(s, c, k, a, n, b);
    ReexecuteList(Unblock(s, c), c, v.reaction, k);
    Moves(Waiters(s, k), a + b, Waiters(Reexecute(Unblock(s, c), c, v.reaction), k), c, s.nextNode);
    Moves(Waiters(s, k), a + b, a + b, c, s.nextNode);
  }

  lemma Stays(s: Server, k: Key, left: seq<Node>, c: Id)
    ensures ListMoves(Waiters(s, k), left, Waiters(s, k), c, s.nextNode)
  {
  }

  lemma Moves(list: seq<Node>, left: seq<Node>, new': seq<Node>, c: Id, fresh': nat)
    ensures ListMoves(left, left, new', c, fresh') ==> ListMoves(list, left, new', c, fresh')
    ensures ListMoves(list, left, left, c, fresh')
  {
  }

  /** No client waits twice for a key. */
  lemma WaitersDistinct(s: Server, k: Key)
    requires KeyInv(s, k)
    ensures forall i, j | 0 <= i < j < |Waiters(s, k)| :: Waiters(s, k)[i].client != Waiters(s, k)[j].client
  {
    var list := Waiters(s, k);
    forall i, j | 0 <= i < j < |list| ensures list[i].client != list[j].client {
      assert list[i] in list && list[j] in list;
    }
  }

  ghost predicate GoodVisits(visits: nat -> Visit) {
    forall i: nat :: GoodReaction(visits(i).reaction)
  }

  /** During a pass the list is: served no more, still to visit in the old order, and those who came back. */
  ghost predicate PassShape(s: Server, k: Key, p: Server, i: nat, kept: seq<Node>, back: seq<Node>)
    requires i <= |Waiters(s, k)|
  {
    var list := Waiters(s, k);
    && Inv(p) && p.nextNode >= s.nextNode && p.clients.Keys == s.clients.Keys
    && Waiters(p, k) == kept + list[i..] + back
    && |kept| <= i && |back| <= i
    && (forall n | n in back :: n.id >= s.nextNode)
    && (forall j | i <= j < |list| :: list[j].client in s.clients && p.clients[list[j].client] == s.clients[list[j].client])
  }

  lemma PassStarts(s: Server, k: Key)
    requires Inv(s)
    ensures PassShape(s, k, s, 0, [], [])
  {
    assert KeyInv(s, k);
    assert [] + Waiters(s, k)[0..] + [] == Waiters(s, k);
    var list := Waiters(s, k);
    forall j | 0 <= j < |list| ensures list[j].client in s.clients {
      assert list[j] in list;
    }
  }

  /** Where the visited node went. */
  lemma AfterVisit(kept: seq<Node>, n: Node, rest: seq<Node>, back: seq<Node>, new': seq<Node>, fresh': nat)
    returns (kept': seq<Node>, back': seq<Node>)
    requires ListMoves(kept + [n] + (rest + back), kept + (rest + back), new', n.client, fresh')
    ensures new' == kept' + rest + back' && |kept'| <= |kept| + 1 && |back'| <= |back| + 1
    ensures forall m | m in back' :: m in back || m.id >= fresh'
  {
    if new' == kept + [n] + (rest + back) {
      assert new' == (kept + [n]) + rest + back;
      return kept + [n], back;
    } else if new' == kept + (rest + back) {
      assert new' == kept + rest + back;
      return kept, back;
    } else {
      var m :| m >= fresh' && new' == kept + (rest + back) + [Node(m, n.client)];
      assert new' == kept + rest + (back + [Node(m, n.client)]);
      return kept, back + [Node(m, n.client)];
    }
  }

  /** The node to visit next is where it was, and its client still waits. */
  lemma NextWaits(s: Server, k: Key, p: Server, i: nat, kept: seq<Node>, back: seq<Node>)
    requires Inv(s) && i < |Waiters(s, k)| && PassShape(s, k, p, i, kept, back)
    ensures
      var n := Waiters(s, k)[i];
      && n.client in p.clients && p.clients[n.client].blocked
      && k in p.clients[n.client].keys && n == Node(p.clients[n.client].keys[k], n.client)
      && Waiters(p, k) == kept + [n] + (Waiters(s, k)[i + 1..] + back)
  {
    hide Ordered, CountersInv, QueuesInv, Wanting;
    var list := Waiters(s, k);
    assert KeyInv(s, k);
    assert list[i] in list;
    assert list[i..] == [list[i]] + list[i + 1..];
    BlockedWaiter(p, list[i].client, k);
  }

  lemma PassStep(s: Server, k: Key, p: Server, i: nat, kept: seq<Node>, back: seq<Node>, v: Visit)
    returns (kept': seq<Node>, back': seq<Node>)
    requires Inv(s) && i < |Waiters(s, k)| && PassShape(s, k, p, i, kept, back) && GoodReaction(v.reaction)
    ensures Waiters(s, k)[i].client in p.clients
    ensures PassShape(s, k, Serve(p, Waiters(s, k)[i].client, v), i + 1, kept', back')
  {
    hide Serve, KeyInv, ClientsInv, CountersInv, QueuesInv, ListMoves, GoodReaction;
    var list := Waiters(s, k);
    var n, rest := list[i], list[i + 1..];
    NextWaits(s, k, p, i, kept, back);
    WaitersDistinct(s, k);
    ServeList(p, n.client, v, k, kept, n, rest + back);
    ServeKeepsInv(p, n.client, v);
    kept', back' := AfterVisit(kept, n, rest, back, Waiters(Serve(p, n.client, v), k), p.nextNode);
  }

  lemma BlockedWaiter(s: Server, c: Id, k: Key)
    requires ClientsInv(s) && c in s.clients && k in s.clients[c].keys
    ensures s.clients[c].blocked
  {
    assert ClientInv(s.clients[c]);
  }

  lemma AllKnown(s: Server, k: Key)
    requires Inv(s)
    ensures forall n | n in Waiters(s, k) :: n.client in s.clients
  {
    assert KeyInv(s, k);
  }

  /** After `i` visits of a pass that visits the waiters it started with, in order. */
  lemma {:induction false} PassKeepsShape(s: Server, k: Key, visits: nat -> Visit, i: nat) returns (kept: seq<Node>, back: seq<Node>)
    requires Inv(s) && GoodVisits(visits) && i <= |Waiters(s, k)| && forall n | n in Waiters(s, k) :: n.client in s.clients
    ensures PassShape(s, k, Pass(s, Waiters(s, k), visits, i), i, kept, back)
  {
    hide Inv, Serve, PassShape, GoodReaction;
    if i == 0 {
      PassStarts(s, k);
      return [], [];
    } else {
      kept, back := PassKeepsShape(s, k, visits, i - 1);
      kept, back := PassStep(s, k, Pass(s, Waiters(s, k), visits, i - 1), i - 1, kept, back, visits(i - 1));
    }
  }

  // ----------------------------------------------------------------------- whole runs

  datatype Step =
    | Connect(c: Id, isModule: bool)
    | Disconnect(c: Id)
    | BlockOnKeys(c: Id, block: Block)
    | BlockOther(c: Id, kind: Kind)
    | Wake(c: Id, queue: bool)               // timeout or error
    | KeySignaled(signal: Signaled)
    | BeginBatch
    | NextKey
    | ServeKey(key: Key, visits: nat -> Visit)
    | Reprocess                              // one turn of processUnblockedClients

  ghost predicate Enabled(s: Server, step: Step) {
    match step
    case Connect(c, _) => c !in s.clients
    case Disconnect(c) => c in s.clients
    case BlockOnKeys(c, b) => c in s.clients && !s.clients[c].blocked && KeyKind(b.kind)
    case BlockOther(c, kind) => c in s.clients && !s.clients[c].blocked && kind != NoKind && !KeyKind(kind)
    case Wake(c, _) => c in s.clients && s.clients[c].blocked
    case KeySignaled(_) => true
    case BeginBatch => s.batch == []
    case NextKey => s.batch != []
    case ServeKey(k, visits) => GoodVisits(visits) && forall n | n in Waiters(s, k) :: n.client in s.clients
    case Reprocess => s.unblocked != [] && s.unblocked[0] in s.clients
  }

  function NewClient(isModule: bool): Client {
    Client(false, NoKind, map[], false, isModule, false, false)
  }

  ghost function Next(s: Server, step: Step): Server
    requires Enabled(s, step)
  {
    match step
    case Connect(c, isModule) => SetClient(s, c, NewClient(isModule))
    case Disconnect(c) => FreeClient(s, c)
    case BlockOnKeys(c, b) => BlockForKeys(s, c, b.kind, b.keys, b.nokey)
    case BlockOther(c, kind) => BlockClient(s, c, kind)
    case Wake(c, queue) => UnblockClient(s, c, queue)
    case KeySignaled(g) => Signal(s, g.key, g.kind, g.deleted)
    case BeginBatch => StartBatch(s)
    case NextKey => TakeKey(s)
    case ServeKey(k, visits) => Pass(s, Waiters(s, k), visits, |Waiters(s, k)|)
    case Reprocess => Dequeue(s)
  }

  /** listDelNode of the node that holds `c`. */
  function Removed(q: seq<Id>, c: Id): seq<Id> {
    if q == [] then [] else if q[0] == c then q[1..] else [q[0]] + Removed(q[1..], c)
  }

  /** `unlinkClient`: out of the queue and forgotten. */
  function Unlinked(s: Server, c: Id): Server
    requires c in s.clients
  {
    s.(clients := s.clients - {c}, unblocked := if s.clients[c].queued then Removed(s.unblocked, c) else s.unblocked)
  }

  /** `freeClient`: a blocked client is unblocked first, which queues it. */
  function FreeClient(s: Server, c: Id): Server
    requires c in s.clients
  {
    Unlinked(if s.clients[c].blocked then UnblockClient(s, c, true) else s, c)
  }

  lemma {:induction false} RemovedIsRest(q: seq<Id>, c: Id)
    requires Distinct(q)
    ensures Distinct(Removed(q, c)) && forall d :: d in Removed(q, c) <==> d in q && d != c
  {
    if q != [] {
      assert forall i | 0 <= i < |q| - 1 :: q[1..][i] == q[i + 1];
      assert q == [q[0]] + q[1..];
      RemovedIsRest(q[1..], c);
      var r := Removed(q[1..], c);
      assert forall i | 0 <= i < |r| :: r[i] in r;
    }
  }

  /** A client that waits for nothing leaves no trace in the lists. */
  lemma UnlinkedKeepsKey(s: Server, c: Id, k: Key)
    requires KeyInv(s, k) && c in s.clients && k !in s.clients[c].keys
    ensures KeyInv(Unlinked(s, c), k)
  {
    var r, list := Unlinked(s, c), Waiters(s, k);
    forall i | 0 <= i < |list| ensures Wants(s.clients, list[i].client) == Wants(r.clients, list[i].client) {
      assert list[i] in list;
    }
    WantingFrame(s.clients, r.clients, list);
  }

  lemma UnlinkedKeepsInv(s: Server, c: Id)
    requires Inv(s) && c in s.clients && !s.clients[c].blocked
    ensures Inv(Unlinked(s, c))
  {
    hide KeyInv;
    var r := Unlinked(s, c);
    assert ClientInv(s.clients[c]);
    forall k ensures KeyInv(r, k) {
      UnlinkedKeepsKey(s, c, k);
    }
    RemovedIsRest(s.unblocked, c);
    forall t | t != NoKind ensures BlockedOf(r.clients, t) == BlockedOf(s.clients, t) {
    }
    assert BlockedRegular(r.clients) == BlockedRegular(s.clients);
  }

  /** Freeing a client in any state takes it out of every list, count and queue. */
  lemma FreeKeepsInv(s: Server, c: Id)
    requires Inv(s) && c in s.clients
    ensures Inv(FreeClient(s, c)) && FreeClient(s, c).clients.Keys == s.clients.Keys - {c}
    ensures forall k :: forall n | n in Waiters(FreeClient(s, c), k) :: n.client != c
    ensures c !in FreeClient(s, c).unblocked
  {
    hide Inv, Release;
    if s.clients[c].blocked {
      UnblockKeepsInv(s, c);
      QueueKeepsInv(Unblock(s, c), c);
      UnlinkedKeepsInv(UnblockClient(s, c, true), c);
    } else {
      UnlinkedKeepsInv(s, c);
    }
    var r := FreeClient(s, c);
    forall k ensures forall n | n in Waiters(r, k) :: n.client != c {
      WaitersExist(r, k);
    }
    QueueExists(r);
  }

  lemma WaitersExist(s: Server, k: Key)
    requires Inv(s)
    ensures forall n | n in Waiters(s, k) :: n.client in s.clients
  {
    assert KeyInv(s, k);
  }

  lemma QueueExists(s: Server)
    requires Inv(s)
    ensures forall c | c in s.unblocked :: c in s.clients
  {
  }

  function Dequeue(s: Server): Server
    requires s.unblocked != [] && s.unblocked[0] in s.clients
  {
    SetClient(s, s.unblocked[0], s.clients[s.unblocked[0]].(queued := false)).(unblocked := s.unblocked[1..])
  }

  lemma DequeueKeepsInv(s: Server)
    requires Inv(s) && s.unblocked != [] && s.unblocked[0] in s.clients
    ensures Inv(Dequeue(s))
  {
    hide KeyInv, CountersInv;
    var r, c := Dequeue(s), s.unblocked[0];
    forall k ensures KeyInv(r, k) {
      ClientFrame(s, r, k, c);
    }
    CountersFrame(s, r);
    assert s.unblocked == [c] + s.unblocked[1..];
    assert forall i | 0 <= i < |r.unblocked| :: r.unblocked[i] == s.unblocked[i + 1];
  }

  lemma ConnectKeepsInv(s: Server, c: Id, isModule: bool)
    requires Inv(s) && c !in s.clients
    ensures Inv(SetClient(s, c, NewClient(isModule)))
  {
    hide KeyInv;
    var r := SetClient(s, c, NewClient(isModule));
    forall k ensures KeyInv(r, k) {
      KeyFrame(s, r, k, c);
    }
    forall t | t != NoKind ensures BlockedOf(r.clients, t) == BlockedOf(s.clients, t) {
    }
    assert BlockedRegular(r.clients) == BlockedRegular(s.clients);
  }

  lemma PassKeepsInv(s: Server, k: Key, visits: nat -> Visit)
    requires Inv(s) && GoodVisits(visits) && forall n | n in Waiters(s, k) :: n.client in s.clients
    ensures Inv(Pass(s, Waiters(s, k), visits, |Waiters(s, k)|))
  {
    hide Inv;
    var kept, back := PassKeepsShape(s, k, visits, |Waiters(s, k)|);
  }

  /** Every step keeps the index, the counts, the counters and the queues right. */
  lemma NextKeepsInv(s: Server, step: Step)
    requires Inv(s) && Enabled(s, step)
    ensures Inv(Next(s, step))
  {
    hide Inv, BlockForKeys, BlockClient, Unblock, Queue, Signal, StartBatch, TakeKey, Pass, Dequeue, FreeClient;
    match step
    case Connect(c, isModule) => ConnectKeepsInv(s, c, isModule);
    case Disconnect(c) => FreeKeepsInv(s, c);
    case BlockOnKeys(c, b) => BlockForKeysKeepsInv(s, c, b);
    case BlockOther(c, kind) => BlockKeepsInv(s, c, kind);
    case Wake(c, queue) =>
      UnblockKeepsInv(s, c);
      QueueKeepsInv(Unblock(s, c), c);
    case KeySignaled(g) => SignalKeepsInv(s, g.key, g.kind, g.deleted);
    case BeginBatch => StartBatchKeepsInv(s);
    case NextKey => TakeKeyKeepsInv(s);
    case ServeKey(k, visits) => PassKeepsInv(s, k, visits);
    case Reprocess => DequeueKeepsInv(s);
  }

  const EMPTY := Server(map[], map[], map[], 0, map[], 0, {}, [], [], [])

  ghost predicate Runs(s: Server, steps: seq<Step>)
    decreases steps
  {
    steps == [] || (Enabled(s, steps[0]) && Runs(Next(s, steps[0]), steps[1..]))
  }

  ghost function After(s: Server, steps: seq<Step>): Server
    requires Runs(s, steps)
    decreases steps
  {
    if steps == [] then s else After(Next(s, steps[0]), steps[1..])
  }

  lemma {:induction false} RunKeepsInv(s: Server, steps: seq<Step>)
    requires Inv(s) && Runs(s, steps)
    ensures Inv(After(s, steps))
    decreases steps
  {
    hide Inv, Next, Enabled;
    if steps != [] {
      NextKeepsInv(s, steps[0]);
      RunKeepsInv(Next(s, steps[0]), steps[1..]);
    }
  }

  lemma EmptyInv()
    ensures Inv(EMPTY)
  {
    forall k ensures KeyInv(EMPTY, k) {
    }
    forall t ensures BlockedOf(EMPTY.clients, t) == {} {
    }
    assert BlockedRegular(EMPTY.clients) == {};
  }

  /**
   In every reachable state, for every client and key: the client is in the list of the key
   exactly once if the key is among its own, and not at all otherwise; no list is empty; and
   the reference count is the number of waiters that asked for deletions, absent when zero.
   */
  lemma IndexIsTwoWay(steps: seq<Step>, c: Id, k: Key)
    requires Runs(EMPTY, steps)
    ensures
      var s := After(EMPTY, steps);
      && (k in s.blocking ==> s.blocking[k] != [])
      && Occurrences(Waiters(s, k), c) == One(c in s.clients && k in s.clients[c].keys)
      && (k in s.nokey <==> Wanting(s.clients, Waiters(s, k)) > 0)
      && (k in s.nokey ==> s.nokey[k] == Wanting(s.clients, Waiters(s, k)))
  {
    EmptyInv();
    RunKeepsInv(EMPTY, steps);
    var s := After(EMPTY, steps);
    hide Runs, After, CountersInv, QueuesInv, ClientsInv;
    assert KeyInv(s, k);
    OnceOrNever(s, k, c);
  }

  function Occurrences(list: seq<Node>, c: Id): nat {
    if list == [] then 0 else One(list[0].client == c) + Occurrences(list[1..], c)
  }

  lemma {:induction false} NoOccurrence(list: seq<Node>, c: Id)
    requires forall n | n in list :: n.client != c
    ensures Occurrences(list, c) == 0
  {
    if list != [] {
      assert list[0] in list;
      NoOccurrence(list[1..], c);
    }
  }

  lemma {:induction false} OneOccurrence(list: seq<Node>, n: Node)
    requires n in list && forall i, j | 0 <= i < j < |list| :: list[i].client != list[j].client
    ensures Occurrences(list, n.client) == 1
  {
    assert forall i | 0 <= i < |list| - 1 :: list[1..][i] == list[i + 1];
    assert list == [list[0]] + list[1..];
    if list[0].client == n.client {
      NoOccurrence(list[1..], n.client);
    } else {
      OneOccurrence(list[1..], n);
    }
  }

  lemma OnceOrNever(s: Server, k: Key, c: Id)
    requires KeyInv(s, k)
    ensures Occurrences(Waiters(s, k), c) == One(c in s.clients && k in s.clients[c].keys)
  {
    hide Ordered, Wanting;
    if c in s.clients && k in s.clients[c].keys {
      WaitersDistinct(s, k);
      OneOccurrence(Waiters(s, k), Node(s.clients[c].keys[k], c));
    } else {
      NoOccurrence(Waiters(s, k), c);
    }
  }

  /** The counters and the ready sets in every reachable state. */
  lemma CountersAreExact(steps: seq<Step>, kind: Kind)
    requires Runs(EMPTY, steps) && kind != NoKind
    ensures
      var s := After(EMPTY, steps);
      && CountOf(s, kind) == |BlockedOf(s.clients, kind)|
      && s.blockedCount == |BlockedRegular(s.clients)|
      && s.readySet == (set k | k in s.batch + s.ready) && Distinct(s.batch + s.ready)
  {
    EmptyInv();
    RunKeepsInv(EMPTY, steps);
  }
}
