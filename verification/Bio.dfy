/**
 The background job threads of src/bio.c: one queue and one thread per worker, submitters,
 one thread that may wait for a worker to drain, and completion callbacks on the main thread.
 A step is a critical section, or the processing of a job between two of them.
 */
module Bio {

  datatype Kind = CloseFile | AofFsync | CloseAof | LazyFree | CompCloseFile | CompAofFsync | CompLazyFree

  datatype Job = Job(kind: Kind, id: nat)

  const WORKERS := 3

  /** bio_job_to_worker. */
  function WorkerOf(kind: Kind): (w: nat)
    ensures w < WORKERS
  {
    match kind
    case CloseFile => 0
    case AofFsync => 1
    case CloseAof => 1
    case LazyFree => 2
    case CompCloseFile => 0
    case CompAofFsync => 1
    case CompLazyFree => 2
  }

  predicate IsCompletion(kind: Kind) {
    kind.CompCloseFile? || kind.CompAofFsync? || kind.CompLazyFree?
  }

  /** Where a worker thread is. */
  datatype Thread =
    | AtTop                      // top of the loop
    | Waiting(notified: bool)    // on the condition variable
    | Running(job: Job)          // has looked at the first job and released the lock
    | Ran(job: Job)              // has processed it; about to remove it

  /** Where the thread that drains this worker is. */
  datatype Drain = NoDrain | Checking | DrainWaiting(notified: bool)

  datatype Worker = Worker(
    queue: seq<Job>,
    thread: Thread,
    drain: Drain,
    submitted: seq<Job>,         // everything ever submitted to this worker
    finished: seq<Job>)          // everything removed from the queue

  /** A completion response: which job of which worker it is for. */
  datatype Item = Item(worker: nat, index: nat)

  datatype State = State(
    workers: seq<Worker>,
    counters: map<Kind, nat>,    // bio_jobs_counter
    comp: seq<Item>,             // bio_comp_list
    taken: seq<Item>,            // the list the main thread is working on
    called: seq<Item>)           // callbacks made so far

  datatype Step =
    | Submit(job: Job, wakeDrain: bool)    // which waiter the signal reaches, if it can choose
    | Sleep(w: nat)
    | Wake(w: nat)
    | Peek(w: nat)
    | Process(w: nat)
    | Remove(w: nat, wakeDrain: bool)
    | StartDrain(w: nat)
    | CheckDrain(w: nat)
    | WakeDrain(w: nat)
    | TakeList
    | Callback

  // ----------------------------------------------------------------------- the steps

  /** pthread_cond_signal: wakes one of the threads that wait, if any. */
  function Notified(w: Worker, wakeDrain: bool): Worker {
    var worker, drain := w.thread == Waiting(false), w.drain == DrainWaiting(false);
    if drain && (wakeDrain || !worker) then w.(drain := DrainWaiting(true))
    else if worker then w.(thread := Waiting(true))
    else w
  }

  function CountOf(s: State, kind: Kind): nat {
    if kind in s.counters then s.counters[kind] else 0
  }

  predicate Enabled(s: State, step: Step) {
    |s.workers| == WORKERS &&
    match step
    case Submit(_, _) => true
    case Sleep(w) => w < WORKERS && s.workers[w].thread.AtTop? && s.workers[w].queue == []
    case Wake(w) => w < WORKERS && s.workers[w].thread.Waiting?          // also without a signal
    case Peek(w) => w < WORKERS && s.workers[w].thread.AtTop? && s.workers[w].queue != []
    case Process(w) => w < WORKERS && s.workers[w].thread.Running?
    case Remove(w, _) => w < WORKERS && s.workers[w].thread.Ran? && s.workers[w].queue != []
    case StartDrain(w) => w < WORKERS && s.workers[w].drain.NoDrain?
    case CheckDrain(w) => w < WORKERS && s.workers[w].drain.Checking?
    case WakeDrain(w) => w < WORKERS && s.workers[w].drain.DrainWaiting?
    case TakeList => s.taken == []
    case Callback => s.taken != []
  }

  function Set(s: State, w: nat, worker: Worker): State
    requires w < |s.workers|
  {
    s.(workers := s.workers[w := worker])
  }

  function Next(s: State, step: Step): State
    requires Enabled(s, step)
  {
    match step
    case Submit(job, wakeDrain) =>
      var n := WorkerOf(job.kind);
      var w := s.workers[n];
      Set(s, n, Notified(w.(queue := w.queue + [job], submitted := w.submitted + [job]), wakeDrain))
        .(counters := s.counters[job.kind := CountOf(s, job.kind) + 1])
    case Sleep(n) => Set(s, n, s.workers[n].(thread := Waiting(false)))
    case Wake(n) => Set(s, n, s.workers[n].(thread := AtTop))
    case Peek(n) => Set(s, n, s.workers[n].(thread := Running(s.workers[n].queue[0])))
    case Process(n) =>
      var w := s.workers[n];
      Set(s, n, w.(thread := Ran(w.thread.job)))
        .(comp := if IsCompletion(w.thread.job.kind) then s.comp + [Item(n, |w.finished|)] else s.comp)
    case Remove(n, wakeDrain) =>
      var w := s.workers[n];
      var kind := w.thread.job.kind;
      Set(s, n, Notified(w.(queue := w.queue[1..], finished := w.finished + [w.queue[0]], thread := AtTop), wakeDrain))
        .(counters := s.counters[kind := if CountOf(s, kind) == 0 then 0 else CountOf(s, kind) - 1])
    case StartDrain(n) => Set(s, n, s.workers[n].(drain := Checking))
    case CheckDrain(n) =>
      // returns if the queue is empty, otherwise waits
      Set(s, n, s.workers[n].(drain := if s.workers[n].queue == [] then NoDrain else DrainWaiting(false)))
    case WakeDrain(n) => Set(s, n, s.workers[n].(drain := Checking))
    case TakeList => s.(taken := s.comp, comp := [])
    case Callback => s.(taken := s.taken[1..], called := s.called + [s.taken[0]])
  }

  // ------------------------------------------------------------------------ invariants

  /** Jobs whose effects have happened. */
  function Processed(w: Worker): nat {
    |w.finished| + if w.thread.Ran? then 1 else 0
  }

  predicate WorkerInv(w: Worker, n: nat) {
    && w.finished + w.queue == w.submitted
    && (w.thread.Running? || w.thread.Ran? ==> w.queue != [] && w.thread.job == w.queue[0])
    && (forall i | 0 <= i < |w.submitted| :: WorkerOf(w.submitted[i].kind) == n)
  }

  /** No wake-up is lost: with jobs queued the worker does not sleep, without any the drainer does not. */
  predicate AwakeInv(w: Worker) {
    && (w.queue != [] ==> w.thread != Waiting(false))
    && (w.queue == [] ==> w.drain != DrainWaiting(false))
  }

  function CountKind(queue: seq<Job>, kind: Kind): nat {
    if queue == [] then 0 else (if queue[0].kind == kind then 1 else 0) + CountKind(queue[1..], kind)
  }

  predicate CountersInv(s: State)
    requires |s.workers| == WORKERS
  {
    forall kind: Kind :: CountOf(s, kind) == CountKind(s.workers[WorkerOf(kind)].queue, kind)
  }

  /** The positions of the completion requests among the first `n` jobs. */
  function Completions(jobs: seq<Job>, n: nat): seq<nat>
    requires n <= |jobs|
  {
    if n == 0 then []
    else Completions(jobs, n - 1) + if IsCompletion(jobs[n - 1].kind) then [n - 1] else []
  }

  /** The responses for worker `w` in a list. */
  function IndexesOf(items: seq<Item>, w: nat): seq<nat> {
    if items == [] then []
    else
      var n := |items| - 1;
      IndexesOf(items[..n], w) + if items[n].worker == w then [items[n].index] else []
  }

  function Responses(s: State): seq<Item> {
    s.called + s.taken + s.comp
  }

  /** Every processed completion request has exactly one response, in order. */
  predicate ItemsInv(s: State)
    requires |s.workers| == WORKERS
  {
    && (forall i | 0 <= i < |Responses(s)| :: Responses(s)[i].worker < WORKERS)
    && forall w | 0 <= w < WORKERS ::
         Processed(s.workers[w]) <= |s.workers[w].submitted| &&
         IndexesOf(Responses(s), w) == Completions(s.workers[w].submitted, Processed(s.workers[w]))
  }

  predicate Inv(s: State) {
    && |s.workers| == WORKERS
    && (forall w | 0 <= w < WORKERS :: WorkerInv(s.workers[w], w) && AwakeInv(s.workers[w]))
    && CountersInv(s)
    && ItemsInv(s)
  }

  // ------------------------------------------------------------------ list lemmas

  lemma {:induction false} CountAppend(a: seq<Job>, j: Job, kind: Kind)
    ensures CountKind(a + [j], kind) == CountKind(a, kind) + if j.kind == kind then 1 else 0
  {
    if a == [] {
      assert a + [j] == [j];
    } else {
      assert (a + [j])[1..] == a[1..] + [j];
      CountAppend(a[1..], j, kind);
    }
  }

  lemma {:induction false} CompletionsPrefix(jobs: seq<Job>, j: Job, n: nat)
    requires n <= |jobs|
    ensures Completions(jobs + [j], n) == Completions(jobs, n)
  {
    if n > 0 {
      CompletionsPrefix(jobs, j, n - 1);
    }
  }

  lemma IndexesSnoc(items: seq<Item>, item: Item, w: nat)
    ensures IndexesOf(items + [item], w) == IndexesOf(items, w) + if item.worker == w then [item.index] else []
  {
    assert (items + [item])[..|items|] == items;
  }

  // --------------------------------------------------------------- every step keeps it

  /** Steps that touch one worker without changing queue, jobs processed or responses. */
  lemma QuietStep(s: State, r: State, n: nat)
    requires Inv(s) && n < WORKERS && |r.workers| == WORKERS && r == s.(workers := r.workers)
    requires forall w | 0 <= w < WORKERS && w != n :: r.workers[w] == s.workers[w]
    requires
      var a, b := s.workers[n], r.workers[n];
      && b.queue == a.queue && b.submitted == a.submitted && b.finished == a.finished
      && Processed(b) == Processed(a) && WorkerInv(b, n) && AwakeInv(b)
    ensures Inv(r)
  {
  }

  lemma SubmitWorker(w: Worker, n: nat, job: Job, wakeDrain: bool)
    requires WorkerInv(w, n) && AwakeInv(w) && WorkerOf(job.kind) == n
    ensures
      var r := Notified(w.(queue := w.queue + [job], submitted := w.submitted + [job]), wakeDrain);
      && WorkerInv(r, n) && AwakeInv(r) && Processed(r) == Processed(w)
      && r.queue == w.queue + [job] && r.submitted == w.submitted + [job]
  {
    assert w.finished + (w.queue + [job]) == w.finished + w.queue + [job];
  }

  lemma SubmitItems(s: State, r: State, n: nat, job: Job)
    requires |s.workers| == |r.workers| == WORKERS && n < WORKERS && ItemsInv(s) && Responses(r) == Responses(s)
    requires forall w | 0 <= w < WORKERS && w != n :: r.workers[w] == s.workers[w]
    requires r.workers[n].submitted == s.workers[n].submitted + [job] && Processed(r.workers[n]) == Processed(s.workers[n])
    ensures ItemsInv(r)
  {
    hide Completions, IndexesOf, Responses;
    CompletionsPrefix(s.workers[n].submitted, job, Processed(s.workers[n]));
  }

  lemma SubmitKeepsInv(s: State, job: Job, wakeDrain: bool)
    requires Inv(s) && Enabled(s, Submit(job, wakeDrain))
    ensures Inv(Next(s, Submit(job, wakeDrain)))
  {
    hide Completions, IndexesOf, CountKind, Notified, ItemsInv, WorkerInv, AwakeInv;
    var n := WorkerOf(job.kind);
    var w, r := s.workers[n], Next(s, Submit(job, wakeDrain));
    SubmitWorker(w, n, job, wakeDrain);
    forall kind: Kind ensures CountOf(r, kind) == CountKind(r.workers[WorkerOf(kind)].queue, kind) {
      CountAppend(w.queue, job, kind);
    }
    SubmitItems(s, r, n, job);
  }

  lemma ProcessItems(s: State, n: nat)
    requires |s.workers| == WORKERS && n < WORKERS && ItemsInv(s) && WorkerInv(s.workers[n], n) && s.workers[n].thread.Running?
    ensures ItemsInv(Next(s, Process(n)))
  {
    hide IndexesOf;
    var w, r := s.workers[n], Next(s, Process(n));
    var item := Item(n, |w.finished|);
    assert w.submitted[|w.finished|] == w.queue[0] == w.thread.job;
    if IsCompletion(w.thread.job.kind) {
      assert Responses(r) == Responses(s) + [item];
      forall v | 0 <= v < WORKERS ensures IndexesOf(Responses(r), v) == IndexesOf(Responses(s), v) + if v == n then [item.index] else [] {
        IndexesSnoc(Responses(s), item, v);
      }
    }
  }

  lemma ProcessKeepsInv(s: State, n: nat)
    requires Inv(s) && Enabled(s, Process(n))
    ensures Inv(Next(s, Process(n)))
  {
    hide Completions, IndexesOf, CountKind, ItemsInv;
    ProcessItems(s, n);
  }

  lemma RemoveKeepsInv(s: State, n: nat, wakeDrain: bool)
    requires Inv(s) && Enabled(s, Remove(n, wakeDrain))
    ensures Inv(Next(s, Remove(n, wakeDrain)))
  {
    hide Completions, IndexesOf;
    var w, r := s.workers[n], Next(s, Remove(n, wakeDrain));
    assert w.finished + [w.queue[0]] + w.queue[1..] == w.finished + w.queue;
    forall kind: Kind ensures CountOf(r, kind) == CountKind(r.workers[WorkerOf(kind)].queue, kind) {
      if WorkerOf(kind) == n {
        assert CountKind(w.queue, kind) == (if w.queue[0].kind == kind then 1 else 0) + CountKind(w.queue[1..], kind);
      }
      OwnKind(w, n);
    }
  }

  /** The first job of a queue belongs to that worker. */
  lemma OwnKind(w: Worker, n: nat)
    requires WorkerInv(w, n) && w.queue != []
    ensures WorkerOf(w.queue[0].kind) == n
  {
    assert w.submitted[|w.finished|] == w.queue[0];
  }

  lemma CallbackKeepsInv(s: State, step: Step)
    requires Inv(s) && Enabled(s, step) && (step.TakeList? || step.Callback?)
    ensures Inv(Next(s, step)) && Responses(Next(s, step)) == Responses(s)
  {
    hide Completions, IndexesOf, CountKind;
    var r := Next(s, step);
    assert Responses(r) == Responses(s);
  }

  lemma NextKeepsInv(s: State, step: Step)
    requires Inv(s) && Enabled(s, step)
    ensures Inv(Next(s, step))
  {
    hide Completions, IndexesOf, CountKind;
    match step
    case Submit(job, wakeDrain) => SubmitKeepsInv(s, job, wakeDrain);
    case Process(n) => ProcessKeepsInv(s, n);
    case Remove(n, wakeDrain) => RemoveKeepsInv(s, n, wakeDrain);
    case TakeList => CallbackKeepsInv(s, step);
    case Callback => CallbackKeepsInv(s, step);
    case _ => QuietStep(s, Next(s, step), step.w);
  }

  // -------------------------------------------------------------------- whole runs

  const IDLE := Worker([], AtTop, NoDrain, [], [])

  const INITIAL := State([IDLE, IDLE, IDLE], map[], [], [], [])

  predicate Runs(s: State, steps: seq<Step>)
    decreases steps
  {
    steps == [] || (Enabled(s, steps[0]) && Runs(Next(s, steps[0]), steps[1..]))
  }

  function After(s: State, steps: seq<Step>): State
    requires Runs(s, steps)
    decreases steps
  {
    if steps == [] then s else After(Next(s, steps[0]), steps[1..])
  }

  lemma {:induction false} RunKeepsInv(s: State, steps: seq<Step>)
    requires Inv(s) && Runs(s, steps)
    ensures Inv(After(s, steps))
    decreases steps
  {
    hide Inv, Next, Enabled;
    if steps != [] {
      NextKeepsInv(s, steps[0]);
      RunKeepsInv(Next(s, steps[0]), steps[1..]);
    }
  }

  lemma InitialInv()
    ensures Inv(INITIAL)
  {
    assert Responses(INITIAL) == [];
  }

  /** Per worker, finished jobs and then the queue are the submission order, and the counters are exact. */
  lemma OrderInEveryRun(steps: seq<Step>, w: nat, kind: Kind)
    requires Runs(INITIAL, steps) && w < WORKERS
    ensures
      var s := After(INITIAL, steps);
      && |s.workers| == WORKERS
      && s.workers[w].finished + s.workers[w].queue == s.workers[w].submitted
      && CountOf(s, kind) == CountKind(s.workers[WorkerOf(kind)].queue, kind)
  {
    hide Runs, After, ItemsInv, CountKind;
    InitialInv();
    RunKeepsInv(INITIAL, steps);
  }

  lemma {:induction false} CompletionAt(jobs: seq<Job>, n: nat, i: nat)
    requires n <= |jobs| && i < |Completions(jobs, n)|
    ensures Completions(jobs, n)[i] < n && IsCompletion(jobs[Completions(jobs, n)[i]].kind)
    ensures forall j | 0 <= j < i :: Completions(jobs, n)[j] < Completions(jobs, n)[i]
  {
    if n > 0 {
      var before := Completions(jobs, n - 1);
      if i < |before| {
        CompletionAt(jobs, n - 1, i);
      } else {
        forall j | 0 <= j < i ensures before[j] < n - 1 {
          CompletionAt(jobs, n - 1, j);
        }
      }
    }
  }

  lemma {:induction false} IndexIsIn(items: seq<Item>, k: nat)
    requires k < |items|
    ensures items[k].index in IndexesOf(items, items[k].worker)
  {
    var n := |items| - 1;
    if k < n {
      IndexIsIn(items[..n], k);
    }
  }

  /**
   A callback is made only for a completion request, and only after every job submitted to the
   same worker before it has been removed from the queue.
   */
  lemma CallbacksComeAfter(steps: seq<Step>, k: nat)
    requires Runs(INITIAL, steps) && k < |After(INITIAL, steps).called|
    ensures
      var s := After(INITIAL, steps);
      var item := s.called[k];
      && item.worker < |s.workers|
      && item.index <= |s.workers[item.worker].finished|
      && item.index < |s.workers[item.worker].submitted|
      && IsCompletion(s.workers[item.worker].submitted[item.index].kind)
      && s.workers[item.worker].finished[..item.index] == s.workers[item.worker].submitted[..item.index]
  {
    hide Runs, After;
    InitialInv();
    RunKeepsInv(INITIAL, steps);
    CalledIsLate(After(INITIAL, steps), k);
  }

  lemma CalledIsLate(s: State, k: nat)
    requires Inv(s) && k < |s.called|
    ensures
      var item := s.called[k];
      && item.worker < |s.workers|
      && item.index <= |s.workers[item.worker].finished|
      && item.index < |s.workers[item.worker].submitted|
      && IsCompletion(s.workers[item.worker].submitted[item.index].kind)
      && s.workers[item.worker].finished[..item.index] == s.workers[item.worker].submitted[..item.index]
  {
    hide CountKind, CountersInv, Completions, IndexesOf, AwakeInv;
    var item := s.called[k];
    assert Responses(s)[k] == item;
    var w := s.workers[item.worker];
    IndexIsIn(Responses(s), k);
    var list := Completions(w.submitted, Processed(w));
    var i :| 0 <= i < |list| && list[i] == item.index;
    CompletionAt(w.submitted, Processed(w), i);
  }

  /** No completion request is answered twice. */
  lemma AnsweredOnce(steps: seq<Step>, a: nat, b: nat)
    requires Runs(INITIAL, steps) && a < b < |After(INITIAL, steps).called|
    ensures After(INITIAL, steps).called[a] != After(INITIAL, steps).called[b]
  {
    hide Runs, After;
    InitialInv();
    RunKeepsInv(INITIAL, steps);
    var s := After(INITIAL, steps);
    hide CountKind, CountersInv, Completions, IndexesOf, AwakeInv, WorkerInv;
    assert Responses(s)[a] == s.called[a] && Responses(s)[b] == s.called[b];
    if s.called[a] == s.called[b] {
      var i, j := TwoPlaces(Responses(s), a, b);
      var w := s.workers[s.called[a].worker];
      CompletionAt(w.submitted, Processed(w), j);
    }
  }

  lemma {:induction false} TwoPlaces(items: seq<Item>, a: nat, b: nat) returns (i: nat, j: nat)
    requires a < b < |items| && items[a].worker == items[b].worker
    ensures
      var list := IndexesOf(items, items[a].worker);
      i < j < |list| && list[i] == items[a].index && list[j] == items[b].index
  {
    var n := |items| - 1;
    if b < n {
      i, j := TwoPlaces(items[..n], a, b);
    } else {
      IndexIsIn(items[..n], a);
      var list := IndexesOf(items[..n], items[a].worker);
      i :| i < |list| && list[i] == items[a].index;
      j := |list|;
    }
  }

  /** `bioDrainWorker` returns only when everything submitted to the worker so far is finished. */
  lemma DrainIsComplete(steps: seq<Step>, w: nat)
    requires Runs(INITIAL, steps) && w < WORKERS
    requires Enabled(After(INITIAL, steps), CheckDrain(w))
    ensures
      var s := After(INITIAL, steps);
      var r := Next(s, CheckDrain(w));
      && |s.workers| == |r.workers| == WORKERS
      && (r.workers[w].drain.NoDrain? <==> s.workers[w].queue == [])
      && (r.workers[w].drain.NoDrain? ==> s.workers[w].finished == s.workers[w].submitted && !s.workers[w].thread.Running?)
  {
    hide Runs, After, ItemsInv, CountersInv;
    InitialInv();
    RunKeepsInv(INITIAL, steps);
    var w0 := After(INITIAL, steps).workers[w];
    assert WorkerInv(w0, w);
    assert w0.finished + [] == w0.finished;
  }

  /** While jobs are queued their worker can always go on; once there are none, a waiting drain has been woken. */
  lemma NobodySleepsForever(steps: seq<Step>, w: nat)
    requires Runs(INITIAL, steps) && w < WORKERS
    ensures
      var s := After(INITIAL, steps);
      && |s.workers| == WORKERS
      && (s.workers[w].queue != [] ==>
            Enabled(s, Peek(w)) || Enabled(s, Process(w)) || Enabled(s, Remove(w, false)) || s.workers[w].thread == Waiting(true))
      && (s.workers[w].queue == [] ==> s.workers[w].drain != DrainWaiting(false))
  {
    hide Runs, After, ItemsInv, CountersInv;
    InitialInv();
    RunKeepsInv(INITIAL, steps);
    assert AwakeInv(After(INITIAL, steps).workers[w]);
  }
}
