/** The critical sections of src/bio.c on the shared queues, counters and completion list. */
module BioQueues {
  import opened Bio

  /** What the threads share. */
  datatype Shared = Shared(queues: seq<seq<Job>>, counters: map<Kind, nat>, comp: seq<Item>)

  function Counter(v: Shared, kind: Kind): nat {
    if kind in v.counters then v.counters[kind] else 0
  }

  function Submitted(v: Shared, job: Job): Shared
    requires |v.queues| == WORKERS
  {
    var w := WorkerOf(job.kind);
    v.(queues := v.queues[w := v.queues[w] + [job]], counters := v.counters[job.kind := Counter(v, job.kind) + 1])
  }

  function FirstRemoved(v: Shared, w: nat): Shared
    requires w < |v.queues| && v.queues[w] != []
  {
    var kind := v.queues[w][0].kind;
    var n := Counter(v, kind);
    v.(queues := v.queues[w := v.queues[w][1..]], counters := v.counters[kind := if n == 0 then 0 else n - 1])
  }

  class JobQueues {
    var queues: array<seq<Job>>
    var counters: map<Kind, nat>
    var comp: seq<Item>

    /** Each counter is the number of queued jobs of its kind, the one being run included. */
    ghost predicate Valid()
      reads this, queues
    {
      queues.Length == WORKERS &&
      forall kind: Kind :: (if kind in counters then counters[kind] else 0) == CountKind(queues[WorkerOf(kind)], kind)
    }

    function View(): Shared
      reads this, queues
    {
      Shared(queues[..], counters, comp)
    }

    constructor ()
      ensures View() == SharedOf(INITIAL)
      ensures Valid() && fresh(queues) && comp == [] && forall w | 0 <= w < WORKERS :: queues[w] == []
    {
      queues := new seq<Job>[WORKERS](i => []);
      counters, comp := map[], [];
    }

    /** `bioSubmitJob`. */
    method SubmitJob(job: Job)
      requires Valid()
      modifies `counters, queues
      ensures Valid()
      ensures queues[WorkerOf(job.kind)] == old(queues[WorkerOf(job.kind)]) + [job]
      ensures forall w | 0 <= w < WORKERS && w != WorkerOf(job.kind) :: queues[w] == old(queues[w])
      ensures View() == Submitted(old(View()), job)
    {
      hide CountKind;
      var w := WorkerOf(job.kind);
      ghost var before := queues[w];
      queues[w] := queues[w] + [job];
      counters := counters[job.kind := 1 + if job.kind in counters then counters[job.kind] else 0];
      forall kind: Kind ensures CountKind(before + [job], kind) == CountKind(before, kind) + if job.kind == kind then 1 else 0 {
        CountAppend(before, job, kind);
      }
    }

    /** The section that follows the processing of the first job. */
    method RemoveFirst(w: nat)
      requires Valid() && w < WORKERS && queues[w] != [] && WorkerOf(queues[w][0].kind) == w
      modifies `counters, queues
      ensures Valid() && queues[w] == old(queues[w])[1..]
      ensures forall v | 0 <= v < WORKERS && v != w :: queues[v] == old(queues[v])
      ensures View() == FirstRemoved(old(View()), w)
    {
      var job := queues[w][0];
      ghost var before := queues[w];
      assert CountKind(before, job.kind) == 1 + CountKind(before[1..], job.kind);
      assert job.kind in counters;
      queues[w] := queues[w][1..];
      counters := counters[job.kind := counters[job.kind] - 1];
      forall kind: Kind | kind != job.kind ensures CountKind(before, kind) == CountKind(before[1..], kind) {
      }
    }

    /** `bioPendingJobsOfType`: queued or running jobs of one kind. */
    method PendingJobsOfType(kind: Kind) returns (n: nat)
      requires Valid()
      ensures n == CountKind(queues[WorkerOf(kind)], kind)
    {
      n := if kind in counters then counters[kind] else 0;
    }

    /** `bioPipeReadJobCompList`: takes the list over and calls back one by one, in order. */
    method ReadCompletions() returns (called: seq<Item>)
      modifies `comp
      ensures called == old(comp) && comp == []
      ensures View() == old(View()).(comp := [])
    {
      called := [];
      var list: seq<Item> := [];
      if |comp| > 0 {
        list := comp;
        comp := [];
      }
      while |list| > 0
        invariant called + list == old(comp) && comp == []
        decreases |list|
      {
        called := called + [list[0]];
        list := list[1..];
      }
    }
  }

  // ---- the sections are the steps of the threads

  function SharedOf(s: State): Shared {
    Shared(seq(|s.workers|, i requires 0 <= i < |s.workers| => s.workers[i].queue), s.counters, s.comp)
  }

  /** `SubmitJob` is the Submit step, whichever thread the signal reaches. */
  lemma SubmitIsStep(s: State, job: Job, wakeDrain: bool)
    requires Enabled(s, Submit(job, wakeDrain))
    ensures SharedOf(Next(s, Submit(job, wakeDrain))) == Submitted(SharedOf(s), job)
  {
    var r, v := Next(s, Submit(job, wakeDrain)), Submitted(SharedOf(s), job);
    assert forall i | 0 <= i < WORKERS :: SharedOf(r).queues[i] == v.queues[i];
  }

  /** `RemoveFirst` is the Remove step of every reachable state. */
  lemma RemoveIsStep(s: State, w: nat, wakeDrain: bool)
    requires Inv(s) && Enabled(s, Remove(w, wakeDrain))
    ensures SharedOf(Next(s, Remove(w, wakeDrain))) == FirstRemoved(SharedOf(s), w)
  {
    assert WorkerInv(s.workers[w], w);
    var r, v := Next(s, Remove(w, wakeDrain)), FirstRemoved(SharedOf(s), w);
    assert forall i | 0 <= i < WORKERS :: SharedOf(r).queues[i] == v.queues[i];
  }

  /** The state after the list was taken over and worked off. */
  function AfterCallbacks(s: State): State {
    s.(comp := [], taken := [], called := s.called + s.comp)
  }

  function Callbacks(n: nat): seq<Step> {
    seq(n, i => Callback)
  }

  lemma {:induction false} CallbacksRun(s: State, n: nat)
    requires |s.workers| == WORKERS && n == |s.taken|
    ensures Runs(s, Callbacks(n)) && After(s, Callbacks(n)) == s.(taken := [], called := s.called + s.taken)
    decreases n
  {
    if n == 0 {
      assert Callbacks(0) == [];
      assert s.called + s.taken == s.called;
    } else {
      assert Callbacks(n)[1..] == Callbacks(n - 1);
      CallbacksRun(Next(s, Callback), n - 1);
      assert s.called + [s.taken[0]] + s.taken[1..] == s.called + s.taken;
    }
  }

  /** What `ReadCompletions` does is one TakeList step and a Callback step for each response. */
  lemma CompletionsAreSteps(s: State)
    requires |s.workers| == WORKERS && s.taken == []
    ensures
      var steps := [TakeList] + Callbacks(|s.comp|);
      Runs(s, steps) && After(s, steps) == AfterCallbacks(s)
  {
    var steps := [TakeList] + Callbacks(|s.comp|);
    assert steps[1..] == Callbacks(|s.comp|);
    CallbacksRun(Next(s, TakeList), |s.comp|);
  }
}
