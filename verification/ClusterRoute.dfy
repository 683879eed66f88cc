/** The routing decision of `getNodeByQuery` in src/cluster.c. */
module ClusterRoute {
  import opened Basics

  type Key = string
  type NodeId = nat
  type Slot = nat

  /** What one node knows. */
  datatype Node = Node(
    me: NodeId,
    owner: map<Slot, NodeId>,
    migrating: map<Slot, NodeId>,
    importing: map<Slot, NodeId>,
    keys: set<Key>,
    replicaOf: Option<NodeId>,
    trimming: set<Slot>,
    healthy: bool,
    allowReadsWhenDown: bool,
    allowPubsubWhenDown: bool)

  /** A command, or the commands of a transaction with their keys one after the other. */
  datatype Request = Request(
    keys: seq<Key>,
    write: bool,
    asking: bool,      // the client's flag or the command's own
    migrate: bool,     // the command is MIGRATE
    pubsub: bool,      // a sharded pubsub command is included
    readonly: bool)    // the client accepts stale reads

  datatype Decision = Serve | Ask(to: NodeId) | Moved(to: NodeId) | TryAgain | CrossSlot | Unbound | Down | DownReadOnly | Trimming

  predicate Migrating(node: Node, slot: Slot) {
    slot in node.owner && node.owner[slot] == node.me && slot in node.migrating
  }

  predicate Importing(node: Node, slot: Slot) {
    !Migrating(node, slot) && slot in node.importing
  }

  predicate OneSlot(slotOf: Key -> Slot, keys: seq<Key>) {
    forall i | 0 <= i < |keys| :: slotOf(keys[i]) == slotOf(keys[0])
  }

  predicate HasAll(node: Node, keys: seq<Key>) {
    forall k | k in keys :: k in node.keys
  }

  predicate HasNone(node: Node, keys: seq<Key>) {
    forall k | k in keys :: k !in node.keys
  }

  predicate Single(keys: seq<Key>) {
    forall i | 0 <= i < |keys| :: keys[i] == keys[0]
  }

  /** Presence is not counted for sharded pubsub. */
  predicate Complete(node: Node, r: Request) {
    r.pubsub || HasAll(node, r.keys)
  }

  /** What becomes of a request, stated about its keys as a whole. */
  function Route(slotOf: Key -> Slot, node: Node, r: Request): Decision {
    if r.keys == [] then Serve
    else
      var slot := slotOf(r.keys[0]);
      if slot !in node.owner then Unbound
      else if !OneSlot(slotOf, r.keys) then CrossSlot
      else if !node.healthy && r.pubsub && !node.allowPubsubWhenDown then Down
      else if !node.healthy && !r.pubsub && !node.allowReadsWhenDown then Down
      else if !node.healthy && !r.pubsub && r.write then DownReadOnly
      else if (Migrating(node, slot) || Importing(node, slot)) && r.migrate then Serve
      else if Migrating(node, slot) && !Complete(node, r) then
        if HasNone(node, r.keys) then Ask(node.migrating[slot]) else TryAgain
      else if Importing(node, slot) && r.asking then
        if Single(r.keys) || Complete(node, r) then Serve else TryAgain
      else if (r.readonly || r.pubsub) && !r.write && node.replicaOf == Some(node.owner[slot]) then Serve
      else if node.owner[slot] == node.me && r.write && slot in node.trimming then Trimming
      else if node.owner[slot] == node.me then Serve
      else Moved(node.owner[slot])
  }

  /** How many of the first `n` keys are not here. */
  ghost predicate Counted(node: Node, keys: seq<Key>, missing: nat, existing: nat) {
    (missing == 0 <==> HasAll(node, keys)) && (existing == 0 <==> HasNone(node, keys))
  }

  // ------------------------------------------------------------- when each answer is given

  /** All keys are in one slot, and some node owns it. */
  predicate Placed(slotOf: Key -> Slot, node: Node, r: Request) {
    r.keys != [] && slotOf(r.keys[0]) in node.owner && OneSlot(slotOf, r.keys)
  }

  /** With the cluster down only reads or sharded pubsub are let through, where that is configured. */
  predicate Admitted(node: Node, r: Request) {
    node.healthy || (if r.pubsub then node.allowPubsubWhenDown else node.allowReadsWhenDown && !r.write)
  }

  predicate Open(slotOf: Key -> Slot, node: Node, r: Request)
    requires Placed(slotOf, node, r)
  {
    Migrating(node, slotOf(r.keys[0])) || Importing(node, slotOf(r.keys[0]))
  }

  /** Keys are missing that the node would need: some of a slot it gives away, or several of one it receives. */
  predicate Incomplete(slotOf: Key -> Slot, node: Node, r: Request)
    requires Placed(slotOf, node, r)
  {
    !r.pubsub && !HasAll(node, r.keys) &&
    (Migrating(node, slotOf(r.keys[0])) || (Importing(node, slotOf(r.keys[0])) && r.asking && !Single(r.keys)))
  }

  /** The node may answer for the slot: a client sent here, a read on a replica, or the owner itself. */
  predicate Entitled(slotOf: Key -> Slot, node: Node, r: Request)
    requires Placed(slotOf, node, r)
  {
    var slot := slotOf(r.keys[0]);
    || (Importing(node, slot) && r.asking)
    || ((r.readonly || r.pubsub) && !r.write && node.replicaOf == Some(node.owner[slot]))
    || (node.owner[slot] == node.me && !(r.write && slot in node.trimming))
  }

  ghost predicate Served(slotOf: Key -> Slot, node: Node, r: Request) {
    || r.keys == []
    || (Placed(slotOf, node, r) && Admitted(node, r) &&
          ((Open(slotOf, node, r) && r.migrate) || (!Incomplete(slotOf, node, r) && Entitled(slotOf, node, r))))
  }

  /** The slot is another node's and nothing lets this one answer. */
  ghost predicate SentTo(slotOf: Key -> Slot, node: Node, r: Request, n: NodeId) {
    && Placed(slotOf, node, r) && Admitted(node, r) && !(Open(slotOf, node, r) && r.migrate)
    && !Incomplete(slotOf, node, r) && !Entitled(slotOf, node, r)
    && n != node.me && node.owner[slotOf(r.keys[0])] == n
  }

  /** Nothing of the request is left here, and the rest of the slot is on its way to `n`. */
  ghost predicate AskedTo(slotOf: Key -> Slot, node: Node, r: Request, n: NodeId) {
    && Placed(slotOf, node, r) && Admitted(node, r) && !r.migrate && !r.pubsub
    && Migrating(node, slotOf(r.keys[0])) && HasNone(node, r.keys) && node.migrating[slotOf(r.keys[0])] == n
  }

  ghost predicate Delayed(slotOf: Key -> Slot, node: Node, r: Request) {
    && Placed(slotOf, node, r) && Admitted(node, r) && !r.migrate && Incomplete(slotOf, node, r)
    && !(Migrating(node, slotOf(r.keys[0])) && HasNone(node, r.keys))
  }

  ghost predicate Trimmed(slotOf: Key -> Slot, node: Node, r: Request) {
    && Placed(slotOf, node, r) && Admitted(node, r) && !(Open(slotOf, node, r) && r.migrate)
    && !Incomplete(slotOf, node, r) && !Entitled(slotOf, node, r) && node.owner[slotOf(r.keys[0])] == node.me
  }

  /** Every answer, exactly when it is given. */
  ghost predicate Answers(slotOf: Key -> Slot, node: Node, r: Request, d: Decision) {
    && (d == Serve <==> Served(slotOf, node, r))
    && (forall n :: d == Moved(n) <==> SentTo(slotOf, node, r, n))
    && (forall n :: d == Ask(n) <==> AskedTo(slotOf, node, r, n))
    && (d == TryAgain <==> Delayed(slotOf, node, r))
    && (d == Trimming <==> Trimmed(slotOf, node, r))
    && (d == Unbound <==> r.keys != [] && slotOf(r.keys[0]) !in node.owner)
    && (d == CrossSlot <==> r.keys != [] && slotOf(r.keys[0]) in node.owner && !OneSlot(slotOf, r.keys))
    && (d == Down || d == DownReadOnly <==> Placed(slotOf, node, r) && !Admitted(node, r))
    && (d == DownReadOnly ==> r.write && !r.pubsub && node.allowReadsWhenDown)
    && (d == Down ==> if r.pubsub then !node.allowPubsubWhenDown else !node.allowReadsWhenDown)
  }

  lemma RouteAnswers(slotOf: Key -> Slot, node: Node, r: Request)
    ensures Answers(slotOf, node, r, Route(slotOf, node, r))
  {
    assert r.keys != [] ==> r.keys[0] in r.keys;
  }

  /** The loop over the keys and the decisions after it. */
  method GetNodeByQuery(slotOf: Key -> Slot, node: Node, r: Request) returns (d: Decision)
    ensures d == Route(slotOf, node, r)
    ensures Answers(slotOf, node, r, d)
  {
    hide Answers;
    RouteAnswers(slotOf, node, r);
    if |r.keys| == 0 {
      return Serve;
    }
    var first := r.keys[0];
    var slot := slotOf(first);
    if slot !in node.owner {
      return Unbound;
    }
    var n := node.owner[slot];
    var migratingSlot := n == node.me && slot in node.migrating;
    var importingSlot := !migratingSlot && slot in node.importing;
    var counting := (migratingSlot || importingSlot) && !r.pubsub;
    var missing, existing, multiple := 0, 0, false;
    for j := 0 to |r.keys|
      invariant missing >= 0 && existing >= 0
      invariant forall i | 0 <= i < j :: slotOf(r.keys[i]) == slot
      invariant importingSlot ==> (multiple <==> exists i | 0 <= i < j :: r.keys[i] != first)
      invariant if counting then Counted(node, r.keys[..j], missing, existing) else missing == existing == 0
    {
      var k := r.keys[j];
      if slotOf(k) != slot {
        return CrossSlot;
      }
      assert r.keys[..j + 1] == r.keys[..j] + [k];
      if importingSlot && !multiple && k != first {
        multiple := true;
      }
      if counting {
        if k !in node.keys {
          missing := missing + 1;
        } else {
          existing := existing + 1;
        }
      }
    }
    assert r.keys[..|r.keys|] == r.keys;
    assert first in r.keys;
    d := Decide(slotOf, node, r, missing, existing, multiple);
  }

  method Decide(slotOf: Key -> Slot, node: Node, r: Request, missing: nat, existing: nat, multiple: bool) returns (d: Decision)
    requires r.keys != [] && slotOf(r.keys[0]) in node.owner && OneSlot(slotOf, r.keys)
    requires
      var slot := slotOf(r.keys[0]);
      && (Importing(node, slot) ==> (multiple <==> !Single(r.keys)))
      && (if (Migrating(node, slot) || Importing(node, slot)) && !r.pubsub
          then Counted(node, r.keys, missing, existing) else missing == existing == 0)
    ensures d == Route(slotOf, node, r)
    ensures Answers(slotOf, node, r, d)
  {
    hide Answers;
    RouteAnswers(slotOf, node, r);
    var slot := slotOf(r.keys[0]);
    var n := node.owner[slot];
    var migratingSlot := n == node.me && slot in node.migrating;
    var importingSlot := !migratingSlot && slot in node.importing;
    assert r.keys[0] in r.keys;
    if !node.healthy {
      if r.pubsub {
        if !node.allowPubsubWhenDown {
          return Down;
        }
      } else if !node.allowReadsWhenDown {
        return Down;
      } else if r.write {
        return DownReadOnly;
      }
    }
    if (migratingSlot || importingSlot) && r.migrate {
      return Serve;
    }
    if migratingSlot && missing > 0 {
      if existing > 0 {
        return TryAgain;
      } else {
        return Ask(node.migrating[slot]);
      }
    }
    if importingSlot && r.asking {
      if multiple && missing > 0 {
        return TryAgain;
      } else {
        return Serve;
      }
    }
    if (r.readonly || r.pubsub) && !r.write && node.replicaOf.Some? && node.replicaOf.value == n {
      return Serve;
    }
    if n == node.me && r.write && slot in node.trimming {
      return Trimming;
    }
    return if n == node.me then Serve else Moved(n);
  }
}
