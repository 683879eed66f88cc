/**
 Moving one slot from a source node to a target node, key by key, while clients go on using
 it: commands at the source, redirected commands at the target, and MIGRATE transfers whose
 replies may be lost.
 */
module ClusterMigration {
  import opened Basics
  import opened ClusterRoute

  type Value = string
  type Data = map<Key, Value>

  // ------------------------------------------------------------------------ commands

  /** `run` sees the declared keys only and says what to store or delete. */
  datatype Command = Command(keys: seq<Key>, write: bool, run: Data -> map<Key, Option<Value>>)

  function Restrict(m: Data, keys: seq<Key>): Data {
    map k | k in m && k in keys :: m[k]
  }

  /** Executing a command on the data of one node. */
  function Exec(m: Data, c: Command): Data {
    var change := c.run(Restrict(m, c.keys));
    map k | k in m.Keys + (set j | j in c.keys) &&
        (if k in c.keys && k in change then change[k].Some? else k in m)
      :: if k in c.keys && k in change then change[k].value else m[k]
  }

  /** A command touches nothing but its declared keys and looks at nothing else. */
  lemma ExecFrame(m: Data, n: Data, c: Command)
    requires Restrict(m, c.keys) == Restrict(n, c.keys)
    ensures forall k :: k !in c.keys ==> (k in Exec(m, c) <==> k in m) && (k in m ==> Exec(m, c)[k] == m[k])
    ensures Restrict(Exec(m, c), c.keys) == Restrict(Exec(n, c), c.keys)
  {
    var a, b := Exec(m, c), Exec(n, c);
    forall k | k in c.keys ensures (k in a <==> k in b) && (k in a ==> a[k] == b[k]) {
      assert k in m <==> k in Restrict(m, c.keys);
      assert k in n <==> k in Restrict(n, c.keys);
      assert k in m ==> m[k] == Restrict(m, c.keys)[k] == n[k];
    }
  }

  // --------------------------------------------------------------------------- state

  datatype Reply = Good | Bad

  /** A running MIGRATE: what was sent, the replies the target gave, and how many the source has read. */
  datatype Transfer = Transfer(keys: seq<Key>, values: seq<Value>, replies: seq<Reply>, read: nat, copy: bool, replace: bool)

  /** A RESTORE that reaches the target after its MIGRATE has given up. */
  datatype Late = Late(key: Key, value: Value, replace: bool)

  datatype State = State(
    src: Data,
    dst: Data,
    asks: seq<Command>,          // redirected commands that have not reached the target yet
    transfer: Option<Transfer>,
    late: seq<Late>,
    dup: set<Key>)               // keys restored or copied without the source removing them

  datatype Step =
    | AtSource(cmd: Command)
    | AtTarget(cmd: Command)          // without having been redirected
    | Follow(i: nat)                  // a redirected command arrives
    | Forget(i: nat)                  // or never does
    | Start(keys: seq<Key>, copy: bool, replace: bool)
    | Restore(fails: bool)            // the target handles the next key of the transfer
    | ReadReply                       // the source reads the next reply
    | GiveUp(arriving: nat)           // socket error; so many unhandled keys still reach the target
    | LateRestore(fails: bool)
    | Finish

  const SOURCE: NodeId := 1
  const TARGET: NodeId := 2

  function SourceNode(slot: Slot, s: State): Node {
    Node(SOURCE, map[slot := SOURCE], map[slot := TARGET], map[], s.src.Keys, None, {}, true, false, false)
  }

  function TargetNode(slot: Slot, s: State): Node {
    Node(TARGET, map[slot := SOURCE], map[], map[slot := SOURCE], s.dst.Keys, None, {}, true, false, false)
  }

  function Asked(c: Command, asking: bool): Request {
    Request(c.keys, c.write, asking, false, false, false)
  }

  predicate InSlot(slotOf: Key -> Slot, slot: Slot, keys: seq<Key>) {
    keys != [] && forall i | 0 <= i < |keys| :: slotOf(keys[i]) == slot
  }

  /** Of the given keys those that are at the source, in order. */
  function Present(m: Data, keys: seq<Key>): (r: seq<Key>)
    ensures forall k :: k in r <==> k in m && k in keys
  {
    if keys == [] then []
    else
      var rest := Present(m, keys[1..]);
      if keys[0] in m then [keys[0]] + rest else rest
  }

  function ValuesOf(m: Data, keys: seq<Key>): seq<Value>
    requires forall k | k in keys :: k in m
  {
    seq(|keys|, i requires 0 <= i < |keys| => m[keys[i]])
  }

  predicate WellFormed(t: Transfer) {
    |t.values| == |t.keys| && t.read <= |t.replies| <= |t.keys|
  }

  predicate Enabled(slotOf: Key -> Slot, slot: Slot, s: State, step: Step) {
    (s.transfer.Some? ==> WellFormed(s.transfer.value)) &&
    match step
    case AtSource(cmd) => s.transfer.None? && InSlot(slotOf, slot, cmd.keys)   // MIGRATE blocks the source
    case AtTarget(cmd) => InSlot(slotOf, slot, cmd.keys)
    case Follow(i) => i < |s.asks|
    case Forget(i) => i < |s.asks|
    case Start(keys, _, _) => s.transfer.None? && InSlot(slotOf, slot, keys)
    case Restore(_) => s.transfer.Some? && |s.transfer.value.replies| < |s.transfer.value.keys|
    case ReadReply => s.transfer.Some? && s.transfer.value.read < |s.transfer.value.replies|
    case GiveUp(n) => s.transfer.Some? && |s.transfer.value.replies| + n <= |s.transfer.value.keys|
    case LateRestore(_) => s.late != []
    case Finish => s.transfer.Some? && s.transfer.value.read == |s.transfer.value.keys|
  }

  /** RESTORE at the target. */
  function RestoreOne(dst: Data, key: Key, value: Value, replace: bool, fails: bool): (Data, Reply) {
    if fails || (key in dst && !replace) then (dst, Bad) else (dst[key := value], Good)
  }

  function Without<T>(q: seq<T>, i: nat): seq<T>
    requires i < |q|
  {
    q[..i] + q[i + 1..]
  }

  /** Keys the target took but whose good reply the source did not read. */
  function Unread(t: Transfer): set<Key>
    requires WellFormed(t)
  {
    set i | t.read <= i < |t.replies| && t.replies[i] == Good :: t.keys[i]
  }

  /** The unhandled keys of a transfer that still arrive. */
  function Remaining(t: Transfer, n: nat): seq<Late>
    requires WellFormed(t) && |t.replies| + n <= |t.keys|
  {
    seq(n, i requires 0 <= i < n => Late(t.keys[|t.replies| + i], t.values[|t.replies| + i], t.replace))
  }

  function Next(slotOf: Key -> Slot, slot: Slot, s: State, step: Step): State
    requires Enabled(slotOf, slot, s, step)
  {
    match step
    case AtSource(cmd) =>
      (match Route(slotOf, SourceNode(slot, s), Asked(cmd, false))
       case Serve => s.(src := Exec(s.src, cmd))
       case Ask(_) => s.(asks := s.asks + [cmd])
       case _ => s)
    case AtTarget(cmd) =>
      (match Route(slotOf, TargetNode(slot, s), Asked(cmd, false))
       case Serve => s.(dst := Exec(s.dst, cmd))
       case _ => s)
    case Follow(i) =>
      (match Route(slotOf, TargetNode(slot, s), Asked(s.asks[i], true))
       case Serve => s.(dst := Exec(s.dst, s.asks[i]), asks := Without(s.asks, i))
       case _ => s.(asks := Without(s.asks, i)))
    case Forget(i) => s.(asks := Without(s.asks, i))
    case Start(keys, copy, replace) =>
      var here := Present(s.src, keys);
      if here == [] then s else s.(transfer := Some(Transfer(here, ValuesOf(s.src, here), [], 0, copy, replace)))
    case Restore(fails) =>
      var t := s.transfer.value;
      var (dst, reply) := RestoreOne(s.dst, t.keys[|t.replies|], t.values[|t.replies|], t.replace, fails);
      s.(dst := dst, transfer := Some(t.(replies := t.replies + [reply])))
    case ReadReply =>
      var t := s.transfer.value;
      var k := t.keys[t.read];
      s.(src := if t.replies[t.read] == Good && !t.copy then s.src - {k} else s.src,
         dup := if t.replies[t.read] == Good && t.copy then s.dup + {k} else s.dup,
         transfer := Some(t.(read := t.read + 1)))
    case GiveUp(n) =>
      var t := s.transfer.value;
      s.(transfer := None, late := s.late + Remaining(t, n), dup := s.dup + Unread(t))
    case LateRestore(fails) =>
      var l := s.late[0];
      var (dst, reply) := RestoreOne(s.dst, l.key, l.value, l.replace, fails);
      s.(dst := dst, late := s.late[1..], dup := s.dup + {l.key})
    case Finish => s.(transfer := None)
  }

  // ----------------------------------------------------------------------- invariants

  /** A redirected command names no key the source holds. */
  predicate AsksAbsent(slotOf: Key -> Slot, slot: Slot, s: State) {
    forall i | 0 <= i < |s.asks| ::
      InSlot(slotOf, slot, s.asks[i].keys) && forall k | k in s.asks[i].keys :: k !in s.src
  }

  /** What a running transfer and the two data sets have in common. */
  predicate TransferInv(s: State, t: Transfer) {
    && WellFormed(t)
    && (forall i, k | 0 <= i < |s.asks| && k in s.asks[i].keys :: k !in t.keys)
    && (forall i | 0 <= i < |t.keys| && t.keys[i] in s.src :: s.src[t.keys[i]] == t.values[i])
    && (forall i | 0 <= i < |t.replies| && t.replies[i] == Good :: t.keys[i] in s.dst)
  }

  /** A key is at both nodes only as a duplicate or with a good reply still to be read. */
  predicate BothInv(s: State) {
    forall k | k in s.src && k in s.dst ::
      k in s.dup || (s.transfer.Some? && WellFormed(s.transfer.value) && k in Unread(s.transfer.value))
  }

  predicate Inv(slotOf: Key -> Slot, slot: Slot, s: State) {
    && AsksAbsent(slotOf, slot, s)
    && (s.transfer.Some? ==> TransferInv(s, s.transfer.value) && KeysInSlot(slotOf, slot, s.transfer.value))
    && BothInv(s)
  }

  predicate KeysInSlot(slotOf: Key -> Slot, slot: Slot, t: Transfer) {
    forall i | 0 <= i < |t.keys| :: slotOf(t.keys[i]) == slot
  }

  // ------------------------------------------------------------- what routing guarantees

  lemma SourceRoutes(slotOf: Key -> Slot, slot: Slot, s: State, c: Command)
    requires InSlot(slotOf, slot, c.keys)
    ensures
      var d := Route(slotOf, SourceNode(slot, s), Asked(c, false));
      && (d == Serve || d == Ask(TARGET) || d == TryAgain)
      && (d == Serve <==> forall k | k in c.keys :: k in s.src)
      && (d == Ask(TARGET) <==> forall k | k in c.keys :: k !in s.src)
  {
    assert Migrating(SourceNode(slot, s), slot);
    assert c.keys[0] in c.keys;
  }

  lemma TargetRoutes(slotOf: Key -> Slot, slot: Slot, s: State, c: Command, asking: bool)
    requires InSlot(slotOf, slot, c.keys)
    ensures
      var d := Route(slotOf, TargetNode(slot, s), Asked(c, asking));
      && (!asking ==> d == Moved(SOURCE))
      && (asking ==> d == Serve || d == TryAgain)
      && (asking ==> (d == Serve <==> Single(c.keys) || forall k | k in c.keys :: k in s.dst))
  {
    assert Importing(TargetNode(slot, s), slot);
  }

  lemma ExecKeys(m: Data, c: Command)
    ensures forall k :: k in Exec(m, c) ==> k in m || k in c.keys
    ensures forall k :: k in m && k !in c.keys ==> k in Exec(m, c) && Exec(m, c)[k] == m[k]
  {
  }

  // --------------------------------------------------------------- every step keeps it

  lemma AtSourceKeepsInv(slotOf: Key -> Slot, slot: Slot, s: State, c: Command)
    requires Inv(slotOf, slot, s) && Enabled(slotOf, slot, s, AtSource(c))
    ensures Inv(slotOf, slot, Next(slotOf, slot, s, AtSource(c)))
    ensures Next(slotOf, slot, s, AtSource(c)).src.Keys <= s.src.Keys
  {
    hide Route, Exec;
    SourceRoutes(slotOf, slot, s, c);
    ExecKeys(s.src, c);
  }

  lemma FollowKeepsInv(slotOf: Key -> Slot, slot: Slot, s: State, i: nat)
    requires Inv(slotOf, slot, s) && Enabled(slotOf, slot, s, Follow(i))
    ensures Inv(slotOf, slot, Next(slotOf, slot, s, Follow(i)))
  {
    hide Route, Exec, InSlot;
    var c := s.asks[i];
    TargetRoutes(slotOf, slot, s, c, true);
    ExecKeys(s.dst, c);
    WithoutMembers(s.asks, i);
    assert forall k | k in c.keys :: k !in s.src;
    if s.transfer.Some? {
      AskedElsewhere(s, s.transfer.value, i);
    }
  }

  /** Nothing a transfer moves is named by a redirected command. */
  lemma AskedElsewhere(s: State, t: Transfer, i: nat)
    requires TransferInv(s, t) && i < |s.asks|
    ensures forall j | 0 <= j < |t.keys| :: t.keys[j] !in s.asks[i].keys
  {
    forall j | 0 <= j < |t.keys| ensures t.keys[j] !in s.asks[i].keys {
      var k := t.keys[j];
      assert k in t.keys;
      assert !(k in s.asks[i].keys);
    }
  }

  lemma WithoutMembers<T>(q: seq<T>, i: nat)
    requires i < |q|
    ensures forall x | x in Without(q, i) :: x in q
    ensures forall j | 0 <= j < |q| - 1 :: Without(q, i)[j] == if j < i then q[j] else q[j + 1]
  {
  }

  lemma AsideKeepsInv(slotOf: Key -> Slot, slot: Slot, s: State, step: Step)
    requires Inv(slotOf, slot, s) && Enabled(slotOf, slot, s, step) && (step.AtTarget? || step.Forget? || step.Finish?)
    ensures Inv(slotOf, slot, Next(slotOf, slot, s, step))
    ensures step.AtTarget? ==> Next(slotOf, slot, s, step) == s
  {
    hide Route, Exec, InSlot;
    if step.AtTarget? {
      TargetRoutes(slotOf, slot, s, step.cmd, false);
    } else if step.Forget? {
      WithoutMembers(s.asks, step.i);
    }
  }

  lemma StartKeepsInv(slotOf: Key -> Slot, slot: Slot, s: State, step: Step)
    requires Inv(slotOf, slot, s) && Enabled(slotOf, slot, s, step) && step.Start?
    ensures Inv(slotOf, slot, Next(slotOf, slot, s, step))
  {
    hide Present;
    var here := Present(s.src, step.keys);
    forall i | 0 <= i < |here| ensures slotOf(here[i]) == slot {
      assert here[i] in step.keys;
    }
  }

  lemma RestoreKeepsInv(slotOf: Key -> Slot, slot: Slot, s: State, fails: bool)
    requires Inv(slotOf, slot, s) && Enabled(slotOf, slot, s, Restore(fails))
    ensures Inv(slotOf, slot, Next(slotOf, slot, s, Restore(fails)))
  {
    hide InSlot;
    var t, r := s.transfer.value, Next(slotOf, slot, s, Restore(fails));
    var t' := r.transfer.value;
    var n := |t.replies|;
    assert forall i | 0 <= i < n :: t'.replies[i] == t.replies[i];
    forall k | k in Unread(t) ensures k in Unread(t') {
      var i :| t.read <= i < n && t.replies[i] == Good && t.keys[i] == k;
      assert t'.replies[i] == Good;
    }
    if t'.replies[n] == Good {
      assert t'.keys[n] in Unread(t');
    }
  }

  lemma ReadReplyKeepsInv(slotOf: Key -> Slot, slot: Slot, s: State)
    requires Inv(slotOf, slot, s) && Enabled(slotOf, slot, s, ReadReply)
    ensures Inv(slotOf, slot, Next(slotOf, slot, s, ReadReply))
  {
    hide InSlot;
    var t, r := s.transfer.value, Next(slotOf, slot, s, ReadReply);
    var t' := r.transfer.value;
    forall k | k in Unread(t) ensures k in Unread(t') || (k == t.keys[t.read] && t.replies[t.read] == Good) {
      var i :| t.read <= i < |t.replies| && t.replies[i] == Good && t.keys[i] == k;
    }
  }

  lemma GiveUpKeepsInv(slotOf: Key -> Slot, slot: Slot, s: State, step: Step)
    requires Inv(slotOf, slot, s) && Enabled(slotOf, slot, s, step) && (step.GiveUp? || step.LateRestore?)
    ensures Inv(slotOf, slot, Next(slotOf, slot, s, step))
  {
    hide InSlot, Unread, Remaining;
  }

  /** Every step keeps the invariant, and the source never gains a key. */
  lemma NextKeepsInv(slotOf: Key -> Slot, slot: Slot, s: State, step: Step)
    requires Inv(slotOf, slot, s) && Enabled(slotOf, slot, s, step)
    ensures Inv(slotOf, slot, Next(slotOf, slot, s, step))
    ensures Next(slotOf, slot, s, step).src.Keys <= s.src.Keys
  {
    hide Inv, Route, Exec, InSlot, Present, Unread, Remaining;
    match step
    case AtSource(c) => AtSourceKeepsInv(slotOf, slot, s, c);
    case Follow(i) => FollowKeepsInv(slotOf, slot, s, i);
    case Start(_, _, _) => StartKeepsInv(slotOf, slot, s, step);
    case Restore(fails) => RestoreKeepsInv(slotOf, slot, s, fails);
    case ReadReply => ReadReplyKeepsInv(slotOf, slot, s);
    case GiveUp(_) => GiveUpKeepsInv(slotOf, slot, s, step);
    case LateRestore(_) => GiveUpKeepsInv(slotOf, slot, s, step);
    case _ => AsideKeepsInv(slotOf, slot, s, step);
  }

  // --------------------------------------------------------------------- whole runs

  predicate Runs(slotOf: Key -> Slot, slot: Slot, s: State, steps: seq<Step>)
    decreases steps
  {
    steps == [] || (Enabled(slotOf, slot, s, steps[0]) && Runs(slotOf, slot, Next(slotOf, slot, s, steps[0]), steps[1..]))
  }

  function After(slotOf: Key -> Slot, slot: Slot, s: State, steps: seq<Step>): State
    requires Runs(slotOf, slot, s, steps)
    decreases steps
  {
    if steps == [] then s else After(slotOf, slot, Next(slotOf, slot, s, steps[0]), steps[1..])
  }

  /** The slot before the migration: everything is at the source. */
  function Initial(data: Data): State {
    State(data, map[], [], None, [], {})
  }

  lemma {:induction false} RunKeepsInv(slotOf: Key -> Slot, slot: Slot, s: State, steps: seq<Step>)
    requires Inv(slotOf, slot, s) && Runs(slotOf, slot, s, steps)
    ensures Inv(slotOf, slot, After(slotOf, slot, s, steps))
    ensures After(slotOf, slot, s, steps).src.Keys <= s.src.Keys
    decreases steps
  {
    hide Inv, Next, Enabled;
    if steps != [] {
      NextKeepsInv(slotOf, slot, s, steps[0]);
      RunKeepsInv(slotOf, slot, Next(slotOf, slot, s, steps[0]), steps[1..]);
    }
  }

  /**
   In every reachable state: the source has no key it did not start with, redirected commands
   name only keys the source does not hold, and outside a transfer a key is at both nodes only
   if it was copied on purpose or a transfer of it ended without its reply being read.
   */
  lemma SafeInEveryRun(slotOf: Key -> Slot, slot: Slot, data: Data, steps: seq<Step>)
    requires Runs(slotOf, slot, Initial(data), steps)
    ensures
      var s := After(slotOf, slot, Initial(data), steps);
      && s.src.Keys <= data.Keys
      && (forall i, k | 0 <= i < |s.asks| && k in s.asks[i].keys :: k !in s.src)
      && (s.transfer.None? ==> s.src.Keys * s.dst.Keys <= s.dup)
  {
    hide Runs, After, InSlot;
    RunKeepsInv(slotOf, slot, Initial(data), steps);
  }

  // ------------------------------------------------------------------- no key is lost

  /** The keys a step may delete: those of the command it executes. */
  function Touched(slotOf: Key -> Slot, slot: Slot, s: State, step: Step): seq<Key>
    requires Enabled(slotOf, slot, s, step)
  {
    match step
    case AtSource(c) => c.keys
    case Follow(i) => s.asks[i].keys
    case _ => []
  }

  /** Only a client's own command can make a key disappear; transfers and lost replies never do. */
  lemma NoKeyLost(slotOf: Key -> Slot, slot: Slot, s: State, step: Step, k: Key)
    requires Inv(slotOf, slot, s) && Enabled(slotOf, slot, s, step)
    requires (k in s.src || k in s.dst) && k !in Touched(slotOf, slot, s, step)
    ensures var r := Next(slotOf, slot, s, step); k in r.src || k in r.dst
  {
    hide Route, Exec, InSlot, Present, Unread, Remaining, AsksAbsent, BothInv;
    match step {
      case AtSource(c) => ExecKeys(s.src, c);
      case AtTarget(c) => TargetRoutes(slotOf, slot, s, c, false);
      case Follow(i) => ExecKeys(s.dst, s.asks[i]);
      case _ =>
    }
  }

  // ------------------------------------------------ acknowledged transfers are invisible

  /** The slot as clients see it: the source first. */
  function Logical(s: State): Data {
    s.dst + s.src
  }

  /** No key is copied, and a transfer ends with nothing under way and no key taken, unread and still at the source. */
  predicate Settled(s: State, step: Step) {
    match step
    case Start(keys, copy, _) => !copy || Present(s.src, keys) == []
    case GiveUp(n) =>
      n == 0 && s.transfer.Some? && WellFormed(s.transfer.value) && Unread(s.transfer.value) !! s.src.Keys
    case _ => true
  }

  /** Nothing duplicated, nothing under way outside the transfer, and the copies agree. */
  predicate Clean(s: State) {
    && s.dup !! s.src.Keys && s.late == []
    && (s.transfer.Some? ==> CleanTransfer(s, s.transfer.value))
  }

  predicate CleanTransfer(s: State, t: Transfer) {
    && WellFormed(t) && !t.copy
    && (forall i, j | 0 <= i < |t.keys| && 0 <= j < |t.keys| && t.keys[i] == t.keys[j] :: t.values[i] == t.values[j])
    && (forall i | 0 <= i < |t.replies| && t.replies[i] == Good :: t.keys[i] in s.dst && s.dst[t.keys[i]] == t.values[i])
    && (forall i | 0 <= i < |t.keys| :: t.keys[i] in s.src || (t.keys[i] in s.dst && s.dst[t.keys[i]] == t.values[i]))
  }

  /** The client command a step executes, if it executes one. */
  function Executed(slotOf: Key -> Slot, slot: Slot, s: State, step: Step): Option<Command>
    requires Enabled(slotOf, slot, s, step)
  {
    match step
    case AtSource(c) => if Route(slotOf, SourceNode(slot, s), Asked(c, false)) == Serve then Some(c) else None
    case Follow(i) => if Route(slotOf, TargetNode(slot, s), Asked(s.asks[i], true)) == Serve then Some(s.asks[i]) else None
    case _ => None
  }

  /** A command on keys of one part of a split data set. */
  lemma ExecOnPart(m: Data, part: Data, whole: Data, c: Command)
    requires forall k | k in c.keys :: (k in part <==> k in whole) && (k in part ==> part[k] == whole[k])
    ensures forall k | k in c.keys ::
      (k in Exec(part, c) <==> k in Exec(whole, c)) && (k in Exec(part, c) ==> Exec(part, c)[k] == Exec(whole, c)[k])
  {
    assert Restrict(part, c.keys) == Restrict(whole, c.keys);
    ExecFrame(part, whole, c);
    forall k | k in c.keys
      ensures (k in Exec(part, c) <==> k in Exec(whole, c)) && (k in Exec(part, c) ==> Exec(part, c)[k] == Exec(whole, c)[k])
    {
      assert k in Exec(part, c) <==> k in Restrict(Exec(part, c), c.keys);
      assert k in Exec(whole, c) <==> k in Restrict(Exec(whole, c), c.keys);
      assert k in Exec(part, c) ==> Exec(part, c)[k] == Restrict(Exec(part, c), c.keys)[k];
      assert k in Exec(whole, c) ==> Exec(whole, c)[k] == Restrict(Exec(whole, c), c.keys)[k];
    }
  }

  lemma SourceRefines(slotOf: Key -> Slot, slot: Slot, s: State, c: Command)
    requires Inv(slotOf, slot, s) && Clean(s) && Enabled(slotOf, slot, s, AtSource(c))
    requires Route(slotOf, SourceNode(slot, s), Asked(c, false)) == Serve
    ensures s.dst + Exec(s.src, c) == Exec(Logical(s), c)
  {
    hide Route, InSlot, AsksAbsent;
    SourceRoutes(slotOf, slot, s, c);
    SourcePart(s.src, s.dst, c);
  }

  lemma SourcePart(src: Data, dst: Data, c: Command)
    requires forall k | k in c.keys :: k in src && k !in dst
    ensures dst + Exec(src, c) == Exec(dst + src, c)
  {
    hide Exec;
    ExecOnPart(src, src, dst + src, c);
    ExecKeys(src, c);
    ExecKeys(dst + src, c);
  }

  lemma TargetRefines(s: State, c: Command)
    requires forall k | k in c.keys :: k !in s.src
    ensures Exec(s.dst, c) + s.src == Exec(Logical(s), c)
  {
    hide Exec;
    ExecOnPart(s.dst, s.dst, Logical(s), c);
    ExecKeys(s.dst, c);
    ExecKeys(Logical(s), c);
  }

  /**
   A run of acknowledged transfers is indistinguishable from one data set on which the client
   commands are executed one after the other: every other step leaves that data set as it is.
   */
  lemma StepRefines(slotOf: Key -> Slot, slot: Slot, s: State, step: Step)
    requires Inv(slotOf, slot, s) && Clean(s) && Enabled(slotOf, slot, s, step) && Settled(s, step)
    ensures
      var r, c := Next(slotOf, slot, s, step), Executed(slotOf, slot, s, step);
      Logical(r) == if c.Some? then Exec(Logical(s), c.value) else Logical(s)
  {
    hide Exec, InSlot, Present, Remaining, BothInv, Route;
    match step {
      case AtSource(c) =>
        SourceRoutes(slotOf, slot, s, c);
        if Route(slotOf, SourceNode(slot, s), Asked(c, false)) == Serve {
          SourceRefines(slotOf, slot, s, c);
        }
      case AtTarget(c) => TargetRoutes(slotOf, slot, s, c, false);
      case Follow(i) =>
        TargetRoutes(slotOf, slot, s, s.asks[i], true);
        TargetRefines(s, s.asks[i]);
      case Restore(fails) => RestoreIsInvisible(slotOf, slot, s, fails);
      case ReadReply => ReadIsInvisible(slotOf, slot, s);
      case _ =>
    }
  }

  lemma RestoreIsInvisible(slotOf: Key -> Slot, slot: Slot, s: State, fails: bool)
    requires Clean(s) && Enabled(slotOf, slot, s, Restore(fails))
    ensures Logical(Next(slotOf, slot, s, Restore(fails))) == Logical(s)
  {
    var t := s.transfer.value;
    var k := t.keys[|t.replies|];
    assert k in s.src || (k in s.dst && s.dst[k] == t.values[|t.replies|]);
  }

  lemma ReadIsInvisible(slotOf: Key -> Slot, slot: Slot, s: State)
    requires Clean(s) && Enabled(slotOf, slot, s, ReadReply) && s.transfer.Some? && TransferInv(s, s.transfer.value)
    ensures Logical(Next(slotOf, slot, s, ReadReply)) == Logical(s)
  {
    var t := s.transfer.value;
    assert t.replies[t.read] == Good ==> s.dst[t.keys[t.read]] == t.values[t.read];
  }

  lemma StepKeepsClean(slotOf: Key -> Slot, slot: Slot, s: State, step: Step)
    requires Inv(slotOf, slot, s) && Clean(s) && Enabled(slotOf, slot, s, step) && Settled(s, step)
    ensures Clean(Next(slotOf, slot, s, step))
  {
    hide Exec, InSlot, Present, BothInv, Route;
    NextKeepsInv(slotOf, slot, s, step);
    match step {
      case AtTarget(c) => TargetRoutes(slotOf, slot, s, c, false);
      case Follow(i) => FollowKeepsClean(slotOf, slot, s, i);
      case Restore(fails) => RestoreKeepsClean(slotOf, slot, s, fails);
      case ReadReply => ReadKeepsClean(slotOf, slot, s);
      case _ =>
    }
  }

  lemma FollowKeepsClean(slotOf: Key -> Slot, slot: Slot, s: State, i: nat)
    requires Inv(slotOf, slot, s) && Clean(s) && Enabled(slotOf, slot, s, Follow(i))
    ensures Clean(Next(slotOf, slot, s, Follow(i)))
  {
    hide Exec, BothInv, Route, AsksAbsent;
    ExecKeys(s.dst, s.asks[i]);
    if s.transfer.Some? {
      AskedElsewhere(s, s.transfer.value, i);
    }
    hide TransferInv;
  }

  lemma RestoreKeepsClean(slotOf: Key -> Slot, slot: Slot, s: State, fails: bool)
    requires Clean(s) && Enabled(slotOf, slot, s, Restore(fails))
    ensures Clean(Next(slotOf, slot, s, Restore(fails)))
  {
    var t, r := s.transfer.value, Next(slotOf, slot, s, Restore(fails));
    var n := |t.replies|;
    var t' := r.transfer.value;
    assert forall i | 0 <= i < n :: t'.replies[i] == t.replies[i];
    forall i | 0 <= i < |t.keys| ensures t.keys[i] in r.src || (t.keys[i] in r.dst && r.dst[t.keys[i]] == t.values[i]) {
      assert t.keys[i] in s.src || (t.keys[i] in s.dst && s.dst[t.keys[i]] == t.values[i]);
    }
  }

  lemma ReadKeepsClean(slotOf: Key -> Slot, slot: Slot, s: State)
    requires Clean(s) && Enabled(slotOf, slot, s, ReadReply)
    ensures Clean(Next(slotOf, slot, s, ReadReply))
  {
    var t, r := s.transfer.value, Next(slotOf, slot, s, ReadReply);
    forall i | 0 <= i < |t.keys| ensures t.keys[i] in r.src || (t.keys[i] in r.dst && r.dst[t.keys[i]] == t.values[i]) {
      assert t.keys[i] in s.src || (t.keys[i] in s.dst && s.dst[t.keys[i]] == t.values[i]);
      assert t.replies[t.read] == Good ==> s.dst[t.keys[t.read]] == t.values[t.read];
    }
  }

  predicate AllSettled(slotOf: Key -> Slot, slot: Slot, s: State, steps: seq<Step>)
    requires Runs(slotOf, slot, s, steps)
    decreases steps
  {
    steps == [] || (Settled(s, steps[0]) && AllSettled(slotOf, slot, Next(slotOf, slot, s, steps[0]), steps[1..]))
  }

  /** The client commands of a run in the order they were executed, at whichever node. */
  function History(slotOf: Key -> Slot, slot: Slot, s: State, steps: seq<Step>): seq<Command>
    requires Runs(slotOf, slot, s, steps)
    decreases steps
  {
    if steps == [] then []
    else
      var c := Executed(slotOf, slot, s, steps[0]);
      (if c.Some? then [c.value] else []) + History(slotOf, slot, Next(slotOf, slot, s, steps[0]), steps[1..])
  }

  function ExecAll(m: Data, cs: seq<Command>): Data
    decreases cs
  {
    if cs == [] then m else ExecAll(Exec(m, cs[0]), cs[1..])
  }

  /** The whole migration refines a single data set. */
  lemma {:induction false} RunRefines(slotOf: Key -> Slot, slot: Slot, s: State, steps: seq<Step>)
    requires Inv(slotOf, slot, s) && Clean(s) && Runs(slotOf, slot, s, steps) && AllSettled(slotOf, slot, s, steps)
    ensures Logical(After(slotOf, slot, s, steps)) == ExecAll(Logical(s), History(slotOf, slot, s, steps))
    ensures Clean(After(slotOf, slot, s, steps))
    decreases steps
  {
    hide Inv, Clean, Next, Enabled, Settled, Logical, Exec, Executed;
    if steps != [] {
      var r := Next(slotOf, slot, s, steps[0]);
      NextKeepsInv(slotOf, slot, s, steps[0]);
      StepKeepsClean(slotOf, slot, s, steps[0]);
      StepRefines(slotOf, slot, s, steps[0]);
      RunRefines(slotOf, slot, r, steps[1..]);
      var c, rest := Executed(slotOf, slot, s, steps[0]), History(slotOf, slot, r, steps[1..]);
      assert c.Some? ==> ([c.value] + rest)[1..] == rest;
      assert [] + rest == rest;
    }
  }

  /** From the start: what clients see is what one node would have shown them, and no key is at both nodes between transfers. */
  lemma MigrationIsTransparent(slotOf: Key -> Slot, slot: Slot, data: Data, steps: seq<Step>)
    requires Runs(slotOf, slot, Initial(data), steps) && AllSettled(slotOf, slot, Initial(data), steps)
    ensures
      var s := After(slotOf, slot, Initial(data), steps);
      && Logical(s) == ExecAll(data, History(slotOf, slot, Initial(data), steps))
      && (s.transfer.None? ==> s.src.Keys !! s.dst.Keys)
  {
    hide Runs, After, AllSettled, History, ExecAll, InSlot;
    RunKeepsInv(slotOf, slot, Initial(data), steps);
    RunRefines(slotOf, slot, Initial(data), steps);
    assert Logical(Initial(data)) == data;
  }

  // -------------------------------------------------------------- replies that are lost

  /** After an abandoned transfer the keys at both nodes are exactly those taken, unread and still at the source. */
  lemma GiveUpDuplicates(slotOf: Key -> Slot, slot: Slot, s: State, n: nat)
    requires Inv(slotOf, slot, s) && Clean(s) && Enabled(slotOf, slot, s, GiveUp(n))
    ensures
      var r := Next(slotOf, slot, s, GiveUp(n));
      r.src.Keys * r.dst.Keys == Unread(s.transfer.value) * s.src.Keys
  {
    hide InSlot, AsksAbsent, Remaining;
    var t := s.transfer.value;
    forall k | k in Unread(t) ensures k in s.dst {
      var i :| t.read <= i < |t.replies| && t.replies[i] == Good && t.keys[i] == k;
    }
  }

  /** Deletes every declared key. */
  function Del(k: Key): Command {
    Command([k], true, _ => map[k := None])
  }

  /** What clients can expect from here on: every settled continuation refines one data set. */
  ghost predicate Transparent(slotOf: Key -> Slot, slot: Slot, s: State) {
    forall steps | Runs(slotOf, slot, s, steps) && AllSettled(slotOf, slot, s, steps) ::
      Logical(After(slotOf, slot, s, steps)) == ExecAll(Logical(s), History(slotOf, slot, s, steps))
  }

  lemma CleanIsTransparent(slotOf: Key -> Slot, slot: Slot, s: State)
    requires Inv(slotOf, slot, s) && Clean(s)
    ensures Transparent(slotOf, slot, s)
  {
    hide Inv, Clean, Runs, AllSettled, After, Logical, ExecAll, History;
    forall steps | Runs(slotOf, slot, s, steps) && AllSettled(slotOf, slot, s, steps)
      ensures Logical(After(slotOf, slot, s, steps)) == ExecAll(Logical(s), History(slotOf, slot, s, steps))
    {
      RunRefines(slotOf, slot, s, steps);
    }
  }

  lemma NoStep(slotOf: Key -> Slot, slot: Slot, s: State)
    ensures Runs(slotOf, slot, s, []) && AllSettled(slotOf, slot, s, [])
    ensures After(slotOf, slot, s, []) == s && History(slotOf, slot, s, []) == []
  {
  }

  /** A settled step in front of a settled run. */
  lemma OneMore(slotOf: Key -> Slot, slot: Slot, s: State, step: Step, rest: seq<Step>)
    requires Enabled(slotOf, slot, s, step) && Settled(s, step)
    requires Runs(slotOf, slot, Next(slotOf, slot, s, step), rest) && AllSettled(slotOf, slot, Next(slotOf, slot, s, step), rest)
    ensures Runs(slotOf, slot, s, [step] + rest) && AllSettled(slotOf, slot, s, [step] + rest)
    ensures
      var r, c := Next(slotOf, slot, s, step), Executed(slotOf, slot, s, step);
      && After(slotOf, slot, s, [step] + rest) == After(slotOf, slot, r, rest)
      && History(slotOf, slot, s, [step] + rest) == (if c.Some? then [c.value] else []) + History(slotOf, slot, r, rest)
  {
    hide Enabled, Next, Settled, Executed;
    assert ([step] + rest)[1..] == rest;
  }

  /** A run after which a key is back that its client deleted. */
  lemma Broken(slotOf: Key -> Slot, slot: Slot, s: State, steps: seq<Step>, k: Key)
    requires Runs(slotOf, slot, s, steps) && AllSettled(slotOf, slot, s, steps)
    requires History(slotOf, slot, s, steps) == [Del(k)] && k in Logical(After(slotOf, slot, s, steps))
    ensures !Transparent(slotOf, slot, s)
  {
    hide Runs, AllSettled, After, History, Logical;
    var m := Logical(s);
    assert [Del(k)][1..] == [];
    assert ExecAll(m, [Del(k)]) == ExecAll(Exec(m, Del(k)), []) == Exec(m, Del(k));
    DelDeletes(m, k);
  }

  lemma DelDeletes(m: Data, k: Key)
    ensures Exec(m, Del(k)) == m - {k}
  {
  }

  lemma ServesOneKey(slotOf: Key -> Slot, slot: Slot, s: State, k: Key)
    requires slotOf(k) == slot
    ensures
      var d := Route(slotOf, SourceNode(slot, s), Asked(Del(k), false));
      if k in s.src then d == Serve else d == Ask(TARGET)
  {
    if k in s.src {
      assert HasAll(SourceNode(slot, s), [k]);
    } else {
      assert HasNone(SourceNode(slot, s), [k]);
    }
  }

  /** A key at both nodes: deleting it deletes it at the source only. */
  lemma DuplicateRevives(slotOf: Key -> Slot, slot: Slot, s: State, k: Key)
    requires s.transfer.None? && slotOf(k) == slot && k in s.src && k in s.dst
    ensures !Transparent(slotOf, slot, s)
  {
    hide Route, Exec, Transparent, Runs, After, AllSettled, History;
    ServesOneKey(slotOf, slot, s, k);
    DelDeletes(s.src, k);
    var r := Next(slotOf, slot, s, AtSource(Del(k)));
    NoStep(slotOf, slot, r);
    OneMore(slotOf, slot, s, AtSource(Del(k)), []);
    assert [Del(k)] + [] == [Del(k)];
    assert k in Logical(r);
    Broken(slotOf, slot, s, [AtSource(Del(k))] + [], k);
  }

  /** A key whose RESTORE is still under way comes back after its client deleted it, at whichever node. */
  lemma LateRestoreRevives(slotOf: Key -> Slot, slot: Slot, s: State)
    requires s.transfer.None? && s.late != [] && slotOf(s.late[0].key) == slot
    ensures !Transparent(slotOf, slot, s)
  {
    hide Transparent;
    if s.late[0].key in s.src {
      LateAtSource(slotOf, slot, s);
    } else {
      LateAtTarget(slotOf, slot, s);
    }
  }

  lemma LateAtSource(slotOf: Key -> Slot, slot: Slot, s: State)
    requires s.transfer.None? && s.late != [] && slotOf(s.late[0].key) == slot && s.late[0].key in s.src
    ensures !Transparent(slotOf, slot, s)
  {
    hide Route, Exec, Transparent, Runs, After, AllSettled, History;
    var k := s.late[0].key;
    ServesOneKey(slotOf, slot, s, k);
    DelDeletes(s.src, k);
    var r1 := Next(slotOf, slot, s, AtSource(Del(k)));
    var r2 := Next(slotOf, slot, r1, LateRestore(false));
    NoStep(slotOf, slot, r2);
    OneMore(slotOf, slot, r1, LateRestore(false), []);
    OneMore(slotOf, slot, s, AtSource(Del(k)), [LateRestore(false)] + []);
    assert [Del(k)] + ([] + []) == [Del(k)];
    assert k in Logical(r2);
    Broken(slotOf, slot, s, [AtSource(Del(k))] + ([LateRestore(false)] + []), k);
  }

  lemma LateAtTarget(slotOf: Key -> Slot, slot: Slot, s: State)
    requires s.transfer.None? && s.late != [] && slotOf(s.late[0].key) == slot && s.late[0].key !in s.src
    ensures !Transparent(slotOf, slot, s)
  {
    hide Route, Exec, Transparent, Runs, After, AllSettled, History;
    var k, i := s.late[0].key, |s.asks|;
    ServesOneKey(slotOf, slot, s, k);
    var r1 := Next(slotOf, slot, s, AtSource(Del(k)));
    assert r1.asks[i] == Del(k);
    TargetRoutes(slotOf, slot, r1, Del(k), true);
    DelDeletes(s.dst, k);
    var r2 := Next(slotOf, slot, r1, Follow(i));
    var r3 := Next(slotOf, slot, r2, LateRestore(false));
    NoStep(slotOf, slot, r3);
    OneMore(slotOf, slot, r2, LateRestore(false), []);
    OneMore(slotOf, slot, r1, Follow(i), [LateRestore(false)] + []);
    OneMore(slotOf, slot, s, AtSource(Del(k)), [Follow(i)] + ([LateRestore(false)] + []));
    assert [] + ([Del(k)] + ([] + [])) == [Del(k)];
    assert k in Logical(r3);
    Broken(slotOf, slot, s, [AtSource(Del(k))] + ([Follow(i)] + ([LateRestore(false)] + [])), k);
  }

  /** The first key of a COPY, restored and acknowledged, is at both nodes when the transfer is given up. */
  lemma CopyDuplicates(slotOf: Key -> Slot, slot: Slot, s: State, k: Key)
    requires s.transfer.Some? && WellFormed(s.transfer.value) && s.transfer.value.replies == []
    requires s.transfer.value.keys != [] && s.transfer.value.copy && k == s.transfer.value.keys[0] && k in s.src && k !in s.dst
    ensures Enabled(slotOf, slot, s, Restore(false))
    ensures
      var r1 := Next(slotOf, slot, s, Restore(false));
      && Enabled(slotOf, slot, r1, ReadReply) && Logical(r1) == Logical(s)
      && var r2 := Next(slotOf, slot, r1, ReadReply);
      && Enabled(slotOf, slot, r2, GiveUp(0)) && Settled(r2, GiveUp(0)) && Logical(r2) == Logical(s)
      && var r3 := Next(slotOf, slot, r2, GiveUp(0));
      && r3.transfer.None? && k in r3.src && k in r3.dst && Logical(r3) == Logical(s)
  {
    hide Route, Exec, Present, Unread;
    var r2 := Next(slotOf, slot, Next(slotOf, slot, s, Restore(false)), ReadReply);
    NothingUnread(r2.transfer.value);
  }

  /** A copied key stays at both nodes once the transfer is over. */
  lemma CopyRevives(slotOf: Key -> Slot, slot: Slot, s: State, keys: seq<Key>, replace: bool)
    requires Inv(slotOf, slot, s) && Clean(s) && Enabled(slotOf, slot, s, Start(keys, true, replace))
    requires Present(s.src, keys) != []
    ensures !Transparent(slotOf, slot, Next(slotOf, slot, s, Start(keys, true, replace)))
  {
    hide Transparent, Present, Unread, AsksAbsent;
    var here := Present(s.src, keys);
    var r, k := Next(slotOf, slot, s, Start(keys, true, replace)), here[0];
    assert k in here;
    assert slotOf(k) == slot;
    CopyDuplicates(slotOf, slot, r, k);
    hide Next, Inv, Clean, Enabled, Settled, Logical;
    var r1 := Next(slotOf, slot, r, Restore(false));
    var r2 := Next(slotOf, slot, r1, ReadReply);
    DuplicateRevives(slotOf, slot, Next(slotOf, slot, r2, GiveUp(0)), k);
    AlwaysSettled(r, r1);
    Unmoved(slotOf, slot, r2, GiveUp(0));
    Unmoved(slotOf, slot, r1, ReadReply);
    Unmoved(slotOf, slot, r, Restore(false));
  }

  lemma AlwaysSettled(s: State, r: State)
    ensures Settled(s, Restore(false)) && Settled(r, ReadReply)
  {
  }

  lemma NothingUnread(t: Transfer)
    requires WellFormed(t) && t.read == |t.replies|
    ensures Unread(t) == {}
  {
  }

  /** A settled step that is no command and changes nothing clients see cannot restore transparency. */
  lemma Unmoved(slotOf: Key -> Slot, slot: Slot, s: State, step: Step)
    requires Enabled(slotOf, slot, s, step) && Settled(s, step) && Executed(slotOf, slot, s, step).None?
    requires Logical(Next(slotOf, slot, s, step)) == Logical(s)
    ensures Transparent(slotOf, slot, s) ==> Transparent(slotOf, slot, Next(slotOf, slot, s, step))
  {
    hide Enabled, Next, Settled, Executed, Runs, AllSettled, After, History, ExecAll;
    var r := Next(slotOf, slot, s, step);
    if Transparent(slotOf, slot, s) {
      forall steps | Runs(slotOf, slot, r, steps) && AllSettled(slotOf, slot, r, steps)
        ensures Logical(After(slotOf, slot, r, steps)) == ExecAll(Logical(r), History(slotOf, slot, r, steps))
      {
        OneMore(slotOf, slot, s, step, steps);
        assert [] + History(slotOf, slot, r, steps) == History(slotOf, slot, r, steps);
      }
    }
  }

  /** An abandoned transfer: any key under way or taken, unread and still at the source can come back. */
  lemma GiveUpRevives(slotOf: Key -> Slot, slot: Slot, s: State, n: nat)
    requires Inv(slotOf, slot, s) && Clean(s) && Enabled(slotOf, slot, s, GiveUp(n)) && !Settled(s, GiveUp(n))
    ensures !Transparent(slotOf, slot, Next(slotOf, slot, s, GiveUp(n)))
  {
    hide Transparent, InSlot, AsksAbsent, BothInv;
    var t, r := s.transfer.value, Next(slotOf, slot, s, GiveUp(n));
    if n > 0 {
      assert r.late[0].key == t.keys[|t.replies|];
      LateRestoreRevives(slotOf, slot, r);
    } else {
      var k :| k in Unread(t) && k in s.src;
      var i :| t.read <= i < |t.replies| && t.replies[i] == Good && t.keys[i] == k;
      DuplicateRevives(slotOf, slot, r, k);
    }
  }

  /**
   Transparency, exactly: from a clean state every step keeps it, except COPY of a key that is
   there and a transfer given up with a key under way, or taken, unread and still at the source.
   */
  lemma TransparentIffSettled(slotOf: Key -> Slot, slot: Slot, s: State, step: Step)
    requires Inv(slotOf, slot, s) && Clean(s) && Enabled(slotOf, slot, s, step)
    ensures Transparent(slotOf, slot, Next(slotOf, slot, s, step)) <==> Settled(s, step)
  {
    hide Inv, Clean, Transparent, Next;
    if Settled(s, step) {
      NextKeepsInv(slotOf, slot, s, step);
      StepKeepsClean(slotOf, slot, s, step);
      CleanIsTransparent(slotOf, slot, Next(slotOf, slot, s, step));
    } else if step.Start? {
      CopyRevives(slotOf, slot, s, step.keys, step.replace);
    } else {
      GiveUpRevives(slotOf, slot, s, step.arriving);
    }
  }

  /** The same for the first unsettled step of any run from the start of a migration. */
  lemma FirstUnsettledStep(slotOf: Key -> Slot, slot: Slot, data: Data, steps: seq<Step>, step: Step)
    requires Runs(slotOf, slot, Initial(data), steps) && AllSettled(slotOf, slot, Initial(data), steps)
    requires Enabled(slotOf, slot, After(slotOf, slot, Initial(data), steps), step)
    ensures
      var s := After(slotOf, slot, Initial(data), steps);
      Transparent(slotOf, slot, Next(slotOf, slot, s, step)) <==> Settled(s, step)
  {
    hide Runs, After, AllSettled, Transparent, Next, Enabled, Settled;
    InitialIsClean(slotOf, slot, data);
    hide Inv, Clean;
    RunKeepsInv(slotOf, slot, Initial(data), steps);
    RunRefines(slotOf, slot, Initial(data), steps);
    TransparentIffSettled(slotOf, slot, After(slotOf, slot, Initial(data), steps), step);
  }

  /** Every key of the slot can get there: its transfer is given up while it is under way. */
  lemma AbandonedIsReachable(slotOf: Key -> Slot, slot: Slot, data: Data, k: Key)
    requires k in data && slotOf(k) == slot
    ensures
      var start := [Start([k], false, false)];
      && Runs(slotOf, slot, Initial(data), start) && AllSettled(slotOf, slot, Initial(data), start)
      && var s := After(slotOf, slot, Initial(data), start);
      && Enabled(slotOf, slot, s, GiveUp(1)) && !Transparent(slotOf, slot, Next(slotOf, slot, s, GiveUp(1)))
  {
    hide Transparent, Runs, After, AllSettled, History, Unread, Remaining;
    var s0 := Initial(data);
    assert Present(s0.src, [k]) == [k] by { assert [k][1..] == []; }
    var s := Next(slotOf, slot, s0, Start([k], false, false));
    NoStep(slotOf, slot, s);
    OneMore(slotOf, slot, s0, Start([k], false, false), []);
    assert [Start([k], false, false)] + [] == [Start([k], false, false)];
    FirstUnsettledStep(slotOf, slot, data, [Start([k], false, false)], GiveUp(1));
  }

  lemma InitialIsClean(slotOf: Key -> Slot, slot: Slot, data: Data)
    ensures Inv(slotOf, slot, Initial(data)) && Clean(Initial(data))
  {
  }

  // --------------------------------------------------------------------- reading replies

  /** A line read from the target, or a socket error. */
  datatype Line = Answer(reply: Reply) | SocketError

  /** How many replies arrive before the first socket error. */
  function Arrived(lines: seq<Line>): (n: nat)
    ensures n <= |lines|
  {
    if lines == [] || lines[0] == SocketError then 0 else 1 + Arrived(lines[1..])
  }

  /** The acknowledged ones among the first `n` keys. */
  function Acknowledged(keys: seq<Key>, lines: seq<Line>, n: nat): seq<Key>
    requires n <= |keys| && n <= |lines|
  {
    if n == 0 then []
    else Acknowledged(keys, lines, n - 1) + if lines[n - 1] == Answer(Good) then [keys[n - 1]] else []
  }

  class MigrateSource {
    var db: Data

    constructor (data: Data)
      ensures db == data
    {
      db := data;
    }

    /**
     The loop over the RESTORE replies in `migrateCommand`: exactly the acknowledged keys leave
     the source and are propagated as DEL, in order, up to the first socket error.
     */
    method ReadReplies(keys: seq<Key>, lines: seq<Line>, copy: bool) returns (del: seq<Key>, targetError: bool, socketError: bool)
      requires |lines| == |keys|
      modifies this
      ensures
        var acked := Acknowledged(keys, lines, Arrived(lines));
        && db == (if copy then old(db) else old(db) - (set k | k in acked))
        && del == (if copy then [] else acked)
      ensures socketError <==> Arrived(lines) < |lines|
      ensures targetError <==> exists i | 0 <= i < Arrived(lines) :: lines[i] == Answer(Bad)
    {
      del, targetError, socketError := [], false, false;
      var j := 0;
      while j < |keys| && !socketError
        invariant 0 <= j <= |keys| && j <= Arrived(lines)
        invariant if socketError then j == Arrived(lines) < |lines| else Arrived(lines) == j + Arrived(lines[j..])
        invariant targetError <==> exists i | 0 <= i < j :: lines[i] == Answer(Bad)
        invariant db == if copy then old(db) else old(db) - (set k | k in Acknowledged(keys, lines, j))
        invariant del == if copy then [] else Acknowledged(keys, lines, j)
        decreases |keys| - j, if socketError then 0 else 1
      {
        match lines[j] {
          case SocketError =>
            socketError := true;
          case Answer(reply) =>
            assert lines[j..][1..] == lines[j + 1..];
            if reply == Bad {
              targetError := true;
            } else if !copy {
              db := db - {keys[j]};
              del := del + [keys[j]];
            }
            j := j + 1;
        }
      }
    }
  }

  // ---- the loop is a run of ReadReply steps

  function Reads(n: nat): seq<Step> {
    seq(n, i => ReadReply)
  }

  function AckedSet(t: Transfer, a: nat, b: nat): set<Key>
    requires WellFormed(t) && a <= b <= |t.replies|
  {
    set i | a <= i < b && t.replies[i] == Good :: t.keys[i]
  }

  lemma {:induction false} AckedAsSet(t: Transfer, lines: seq<Line>, n: nat)
    requires WellFormed(t) && n <= |t.replies| && n <= |lines|
    requires forall i | 0 <= i < n :: lines[i] == Answer(t.replies[i])
    ensures (set k | k in Acknowledged(t.keys, lines, n)) == AckedSet(t, 0, n)
  {
    if n > 0 {
      AckedAsSet(t, lines, n - 1);
      assert AckedSet(t, 0, n) == AckedSet(t, 0, n - 1) + if t.replies[n - 1] == Good then {t.keys[n - 1]} else {};
    }
  }

  lemma {:induction false} ReadsRun(slotOf: Key -> Slot, slot: Slot, s: State, n: nat)
    requires s.transfer.Some? && WellFormed(s.transfer.value) && s.transfer.value.read + n <= |s.transfer.value.replies|
    ensures Runs(slotOf, slot, s, Reads(n))
    ensures
      var t := s.transfer.value;
      var r := After(slotOf, slot, s, Reads(n));
      && r.src == (if t.copy then s.src else s.src - AckedSet(t, t.read, t.read + n))
      && r.transfer == Some(t.(read := t.read + n)) && r.dst == s.dst
    decreases n
  {
    hide Next, Enabled, AckedSet;
    var t := s.transfer.value;
    if n == 0 {
      assert Reads(0) == [];
      NoneAcked(t);
    } else {
      assert Reads(n)[1..] == Reads(n - 1);
      OneRead(slotOf, slot, s);
      var r := Next(slotOf, slot, s, ReadReply);
      ReadsRun(slotOf, slot, r, n - 1);
      AckedFirst(t, n);
      var first, rest := Acked(t), AckedSet(r.transfer.value, t.read + 1, t.read + n);
      assert s.src - first - rest == s.src - (first + rest);
    }
  }

  lemma NoneAcked(t: Transfer)
    requires WellFormed(t)
    ensures AckedSet(t, t.read, t.read) == {}
  {
  }

  /** The key the next reply acknowledges, if it does. */
  function Acked(t: Transfer): set<Key>
    requires WellFormed(t) && t.read < |t.replies|
  {
    if t.replies[t.read] == Good then {t.keys[t.read]} else {}
  }

  lemma OneRead(slotOf: Key -> Slot, slot: Slot, s: State)
    requires s.transfer.Some? && WellFormed(s.transfer.value) && s.transfer.value.read < |s.transfer.value.replies|
    ensures Enabled(slotOf, slot, s, ReadReply)
    ensures
      var r, t := Next(slotOf, slot, s, ReadReply), s.transfer.value;
      && r.src == (if t.copy then s.src else s.src - Acked(t))
      && r.transfer == Some(t.(read := t.read + 1)) && r.dst == s.dst
  {
    hide Route, Exec, Present, Unread, Remaining;
  }

  lemma AckedFirst(t: Transfer, n: nat)
    requires WellFormed(t) && n > 0 && t.read + n <= |t.replies|
    ensures AckedSet(t, t.read, t.read + n)
         == Acked(t) + AckedSet(t.(read := t.read + 1), t.read + 1, t.read + n)
  {
  }

  /**
   `ReadReplies` leaves at the source what as many ReadReply steps leave as replies arrived
   before the first socket error.
   */
  lemma RepliesAreSteps(slotOf: Key -> Slot, slot: Slot, s: State, lines: seq<Line>)
    requires s.transfer.Some? && WellFormed(s.transfer.value) && s.transfer.value.read == 0
    requires |lines| == |s.transfer.value.keys| && Arrived(lines) <= |s.transfer.value.replies|
    requires forall i | 0 <= i < Arrived(lines) :: lines[i] == Answer(s.transfer.value.replies[i])
    ensures
      var t, n := s.transfer.value, Arrived(lines);
      && Runs(slotOf, slot, s, Reads(n))
      && After(slotOf, slot, s, Reads(n)).src
         == if t.copy then s.src else s.src - (set k | k in Acknowledged(t.keys, lines, n))
  {
    hide Runs, After, Acknowledged, Reads;
    ReadsRun(slotOf, slot, s, Arrived(lines));
    AckedAsSet(s.transfer.value, lines, Arrived(lines));
  }

  // ---------------------------------------------------------- a transfer that goes well

  /** Each key handled by the target and its reply read. */
  function Pairs(n: nat): seq<Step> {
    if n == 0 then [] else [Restore(false), ReadReply] + Pairs(n - 1)
  }

  /** A key of a transfer is still at the source with its value, or already at the target. */
  predicate OneSided(s: State, k: Key, v: Value) {
    || (k in s.src && k !in s.dst && s.src[k] == v)
    || (k !in s.src && k in s.dst && s.dst[k] == v)
  }

  predicate Moving(s: State) {
    && s.transfer.Some? && WellFormed(s.transfer.value)
    && var t := s.transfer.value;
    && !t.copy && t.read == |t.replies|
    && forall i | t.read <= i < |t.keys| :: OneSided(s, t.keys[i], t.values[i])
  }

  lemma OnePair(slotOf: Key -> Slot, slot: Slot, s: State)
    requires Moving(s) && s.transfer.value.read < |s.transfer.value.keys|
    ensures Enabled(slotOf, slot, s, Restore(false)) && Enabled(slotOf, slot, Next(slotOf, slot, s, Restore(false)), ReadReply)
    ensures
      var t := s.transfer.value;
      var r, k, v := Next(slotOf, slot, Next(slotOf, slot, s, Restore(false)), ReadReply), t.keys[t.read], t.values[t.read];
      && r.src == s.src - {k} && r.dst == s.dst[k := v]
      && r.transfer.Some? && r.transfer.value == t.(read := t.read + 1, replies := r.transfer.value.replies)
      && |r.transfer.value.replies| == t.read + 1
  {
    hide Route, Exec, Present, Unread, Remaining;
    var t := s.transfer.value;
    assert OneSided(s, t.keys[t.read], t.values[t.read]);
    var s1 := Next(slotOf, slot, s, Restore(false));
    assert s1.transfer.value.replies[t.read] == if t.keys[t.read] in s.dst && !t.replace then Bad else Good;
    assert t.keys[t.read] !in s.src ==> s.src - {t.keys[t.read]} == s.src;
    assert t.keys[t.read] in s.dst ==> s.dst[t.keys[t.read] := t.values[t.read]] == s.dst;
  }

  /** The keys of a transfer from `at` on are at the target with their values, and only there. */
  predicate Gone(r: State, t: Transfer, at: nat)
    requires WellFormed(t)
  {
    forall i | at <= i < |t.keys| :: t.keys[i] !in r.src && t.keys[i] in r.dst && r.dst[t.keys[i]] == t.values[i]
  }

  /** No other key moved. */
  ghost predicate OthersStay(s: State, r: State, t: Transfer, at: nat) {
    forall k :: (forall i | at <= i < |t.keys| :: t.keys[i] != k) ==>
      (k in r.src <==> k in s.src) && (k in r.dst <==> k in s.dst)
      && (k in s.src ==> r.src[k] == s.src[k]) && (k in s.dst ==> r.dst[k] == s.dst[k])
  }

  lemma {:induction false} MovesRest(slotOf: Key -> Slot, slot: Slot, s: State, n: nat)
    requires Moving(s) && s.transfer.value.read + n == |s.transfer.value.keys|
    ensures Runs(slotOf, slot, s, Pairs(n))
    ensures
      var t, r := s.transfer.value, After(slotOf, slot, s, Pairs(n));
      && r.transfer.Some? && WellFormed(r.transfer.value) && r.transfer.value.read == |r.transfer.value.keys|
      && Gone(r, t, t.read) && OthersStay(s, r, t, t.read)
    decreases n
  {
    hide Next, Enabled;
    if n > 0 {
      hide Gone, OthersStay;
      var t := s.transfer.value;
      OnePair(slotOf, slot, s);
      var s1 := Next(slotOf, slot, s, Restore(false));
      var m := Next(slotOf, slot, s1, ReadReply);
      assert OneSided(s, t.keys[t.read], t.values[t.read]);
      forall i | t.read + 1 <= i < |t.keys| ensures OneSided(m, t.keys[i], t.values[i]) {
        assert OneSided(s, t.keys[i], t.values[i]);
      }
      MovesRest(slotOf, slot, m, n - 1);
      var r := After(slotOf, slot, m, Pairs(n - 1));
      SameKeys(r, t, m.transfer.value, t.read + 1);
      SameOthers(m, r, t, m.transfer.value, t.read + 1);
      MovedBehind(s, m, r);
      PairRuns(slotOf, slot, s, n);
    }
  }

  lemma PairRuns(slotOf: Key -> Slot, slot: Slot, s: State, n: nat)
    requires n > 0 && Enabled(slotOf, slot, s, Restore(false))
    requires
      var s1 := Next(slotOf, slot, s, Restore(false));
      && Enabled(slotOf, slot, s1, ReadReply)
      && Runs(slotOf, slot, Next(slotOf, slot, s1, ReadReply), Pairs(n - 1))
    ensures Runs(slotOf, slot, s, Pairs(n))
    ensures
      var m := Next(slotOf, slot, Next(slotOf, slot, s, Restore(false)), ReadReply);
      After(slotOf, slot, s, Pairs(n)) == After(slotOf, slot, m, Pairs(n - 1))
  {
    hide Next, Enabled;
    var s1 := Next(slotOf, slot, s, Restore(false));
    var steps := Pairs(n);
    assert steps[1..] == [ReadReply] + Pairs(n - 1);
    assert steps[1..][1..] == Pairs(n - 1);
    assert Runs(slotOf, slot, s1, steps[1..]);
  }

  lemma SameKeys(r: State, t: Transfer, u: Transfer, at: nat)
    requires WellFormed(t) && WellFormed(u) && t.keys == u.keys && t.values == u.values && Gone(r, u, at)
    ensures Gone(r, t, at)
  {
  }

  lemma SameOthers(s: State, r: State, t: Transfer, u: Transfer, at: nat)
    requires t.keys == u.keys && OthersStay(s, r, u, at)
    ensures OthersStay(s, r, t, at)
  {
  }

  lemma MovedBehind(s: State, m: State, r: State)
    requires Moving(s) && s.transfer.value.read < |s.transfer.value.keys|
    requires
      var t := s.transfer.value;
      var k, v := t.keys[t.read], t.values[t.read];
      m.src == s.src - {k} && m.dst == s.dst[k := v] && Gone(r, t, t.read + 1) && OthersStay(m, r, t, t.read + 1)
    ensures var t := s.transfer.value; Gone(r, t, t.read) && OthersStay(s, r, t, t.read)
  {
    var t := s.transfer.value;
    var k, v := t.keys[t.read], t.values[t.read];
    if i :| t.read + 1 <= i < |t.keys| && t.keys[i] == k {
      assert OneSided(s, t.keys[i], t.values[i]) && OneSided(s, k, v);
    }
  }

  /** MIGRATE with every step going well: each key that was there is at the target with its value, and only there. */
  lemma TransferMoves(slotOf: Key -> Slot, slot: Slot, s: State, keys: seq<Key>, replace: bool)
    requires Inv(slotOf, slot, s) && Clean(s) && s.transfer.None? && InSlot(slotOf, slot, keys) && Present(s.src, keys) != []
    ensures
      var s1 := Next(slotOf, slot, s, Start(keys, false, replace));
      var n := |Present(s.src, keys)|;
      && Runs(slotOf, slot, s1, Pairs(n))
      && var s2 := After(slotOf, slot, s1, Pairs(n));
      && Enabled(slotOf, slot, s2, Finish)
      && var r := Next(slotOf, slot, s2, Finish);
      && r.transfer.None?
      && (forall k | k in keys && k in s.src :: k !in r.src && k in r.dst && r.dst[k] == s.src[k])
      && (forall k | !(k in keys && k in s.src) :: (k in r.src <==> k in s.src) && (k in r.dst <==> k in s.dst))
  {
    hide Present, Runs, After, InSlot;
    var here := Present(s.src, keys);
    var s1 := Next(slotOf, slot, s, Start(keys, false, replace));
    var t := s1.transfer.value;
    forall i | 0 <= i < |here| ensures OneSided(s1, t.keys[i], t.values[i]) {
      assert here[i] in here;
    }
    MovesRest(slotOf, slot, s1, |here|);
    var s2 := After(slotOf, slot, s1, Pairs(|here|));
    forall k | k in here ensures k !in s2.src && k in s2.dst && s2.dst[k] == s.src[k] {
      var i :| 0 <= i < |here| && here[i] == k;
      assert t.keys[i] == k;
    }
  }
}
