/** The fixed thread pool as the interleaving of its atomic steps: critical sections under the one mutex,
    notifications, and the tasks themselves. */
module ThreadPool {

  type Task = int

  /** Where a worker's loop is: about to take the lock and test the predicate, blocked on the condition variable,
      executing a task, or returned. */
  datatype Worker = Ready | Waiting | Running(task: Task) | Done

  /** The queue, the stop flag and the workers; the calls of `notify_one` not made yet; whether the destructor has
      still to call `notify_all`; how many workers it has joined; and the history of the tasks. */
  datatype Pool = Pool(
    queue: seq<Task>, stop: bool, workers: seq<Worker>, notifies: nat, notifyAll: bool, joined: nat,
    accepted: seq<Task>, taken: seq<Task>, finished: multiset<Task>)

  datatype Step =
    | Enqueue(task: Task)
    | NotifyOne(woken: int)
    | Spurious(worker: nat)
    | Loop(worker: nat)
    | Finish(worker: nat)
    | Stop
    | NotifyAll
    | Join

  function Start(workers: nat): Pool {
    Pool([], false, seq(workers, i => Ready), 0, false, 0, [], [], multiset{})
  }

  predicate Is(p: Pool, w: int, state: Worker) {
    0 <= w < |p.workers| && p.workers[w] == state
  }

  /** `notify_one` wakes some waiting worker if there is one; a worker may also wake by itself. */
  predicate Enabled(p: Pool, step: Step) {
    match step
    case Enqueue(_) => true
    case NotifyOne(w) => p.notifies > 0 && (Is(p, w, Waiting) || Waiting !in p.workers)
    case Spurious(w) => Is(p, w, Waiting)
    case Loop(w) => Is(p, w, Ready)
    case Finish(w) => w < |p.workers| && p.workers[w].Running?
    case Stop => !p.stop
    case NotifyAll => p.notifyAll
    case Join => p.stop && !p.notifyAll && p.joined < |p.workers| && p.workers[p.joined] == Done
  }

  function Woken(w: Worker): Worker {
    if w == Waiting then Ready else w
  }

  function Apply(p: Pool, step: Step): Pool
    requires Enabled(p, step)
  {
    match step
    case Enqueue(task) =>
      // A stopped pool throws.
      if p.stop then p
      else p.(queue := p.queue + [task], accepted := p.accepted + [task], notifies := p.notifies + 1)
    case NotifyOne(w) =>
      if Is(p, w, Waiting) then p.(notifies := p.notifies - 1, workers := p.workers[w := Ready])
      else p.(notifies := p.notifies - 1)
    case Spurious(w) => p.(workers := p.workers[w := Ready])
    case Loop(w) =>
      if !p.stop && p.queue == [] then p.(workers := p.workers[w := Waiting])
      else if p.queue == [] then p.(workers := p.workers[w := Done])
      else p.(queue := p.queue[1..], taken := p.taken + [p.queue[0]], workers := p.workers[w := Running(p.queue[0])])
    case Finish(w) =>
      p.(finished := p.finished + multiset{p.workers[w].task}, workers := p.workers[w := Ready])
    case Stop => p.(stop := true, notifyAll := true)
    case NotifyAll =>
      p.(notifyAll := false, workers := seq(|p.workers|, i requires 0 <= i < |p.workers| => Woken(p.workers[i])))
    case Join => p.(joined := p.joined + 1)
  }

  predicate Runs(p: Pool, steps: seq<Step>, q: Pool)
    decreases |steps|
  {
    if steps == [] then p == q
    else Enabled(p, steps[0]) && Runs(Apply(p, steps[0]), steps[1..], q)
  }

  /** The destructor has returned. */
  predicate Returned(p: Pool) {
    p.stop && !p.notifyAll && p.joined == |p.workers|
  }

  // ----- The invariant -----------------------------------------------------------------------

  function One(w: Worker): multiset<Task> {
    if w.Running? then multiset{w.task} else multiset{}
  }

  /** The tasks in execution. */
  function InHand(ws: seq<Worker>): multiset<Task> {
    if ws == [] then multiset{} else One(ws[0]) + InHand(ws[1..])
  }

  lemma Under(a: multiset<Task>, b: multiset<Task>, c: multiset<Task>, d: multiset<Task>, e: multiset<Task>)
    requires b + c == d + e
    ensures (a + b) + c == (a + d) + e
  {
    assert (a + b) + c == a + (b + c) && (a + d) + e == a + (d + e);
  }

  lemma {:induction false} InHandUpdate(ws: seq<Worker>, i: nat, w: Worker)
    requires i < |ws|
    ensures InHand(ws[i := w]) + One(ws[i]) == InHand(ws) + One(w)
  {
    hide One;
    var vs := ws[i := w];
    assert InHand(vs) == One(vs[0]) + InHand(vs[1..]);
    if i == 0 {
      assert vs[1..] == ws[1..];
    } else {
      assert vs[1..] == ws[1..][i - 1 := w];
      InHandUpdate(ws[1..], i - 1, w);
      Under(One(ws[0]), InHand(vs[1..]), One(ws[i]), InHand(ws[1..]), One(w));
    }
  }

  lemma {:induction false} InHandSame(ws: seq<Worker>, vs: seq<Worker>)
    requires |ws| == |vs| && forall i :: 0 <= i < |ws| ==> One(ws[i]) == One(vs[i])
    ensures InHand(ws) == InHand(vs)
  {
    if ws != [] {
      assert One(ws[0]) == One(vs[0]);
      InHandSame(ws[1..], vs[1..]);
    }
  }

  lemma {:induction false} NothingInHand(ws: seq<Worker>)
    requires forall i :: 0 <= i < |ws| ==> !ws[i].Running?
    ensures InHand(ws) == multiset{}
  {
    if ws != [] {
      NothingInHand(ws[1..]);
    }
  }

  function Awake(ws: seq<Worker>): nat {
    multiset(ws)[Ready]
  }

  /** Every accepted task is taken once, in the order of the queue; a taken one is in execution or finished. */
  predicate Conserved(p: Pool) {
    p.accepted == p.taken + p.queue && multiset(p.taken) == p.finished + InHand(p.workers)
  }

  /** No wake-up is lost. */
  predicate NoneLost(p: Pool) {
    Waiting in p.workers ==> |p.queue| <= p.notifies + Awake(p.workers) && (p.stop ==> p.notifyAll)
  }

  /** The destructor's steps come in order, and a worker returns only from a stopped, drained pool. */
  predicate Ordered(p: Pool) {
    (p.notifyAll ==> p.stop) &&
    (Done in p.workers ==> p.stop && p.queue == []) &&
    p.joined <= |p.workers| && (p.joined > 0 ==> p.stop && !p.notifyAll) &&
    forall i :: 0 <= i < p.joined ==> p.workers[i] == Done
  }

  predicate Inv(p: Pool) {
    Conserved(p) && NoneLost(p) && Ordered(p)
  }

  lemma StartHolds(n: nat)
    ensures Inv(Start(n))
  {
    NothingInHand(Start(n).workers);
  }

  lemma AddOne(a: multiset<Task>, b: multiset<Task>, c: multiset<Task>, x: Task)
    requires a == b + c
    ensures a + multiset{x} == b + (c + multiset{x})
  {
  }

  /** A task goes from the queue to a worker. */
  lemma TakeConserves(p: Pool, w: nat)
    requires Is(p, w, Ready) && Conserved(p) && p.queue != []
    ensures Conserved(Apply(p, Loop(w)))
  {
    var x, ws := p.queue[0], Apply(p, Loop(w)).workers;
    InHandUpdate(p.workers, w, Running(x));
    assert p.queue == [x] + p.queue[1..];
    assert (p.taken + [x]) + p.queue[1..] == p.taken + p.queue;
    assert InHand(ws) == InHand(p.workers) + multiset{x};
    AddOne(multiset(p.taken), p.finished, InHand(p.workers), x);
    hide InHand, One;
    assert multiset(p.taken + [x]) == multiset(p.taken) + multiset{x};
  }

  lemma IdleConserves(p: Pool, w: nat)
    requires Is(p, w, Ready) && Conserved(p) && p.queue == []
    ensures Conserved(Apply(p, Loop(w)))
  {
    var ws := Apply(p, Loop(w)).workers;
    InHandSame(p.workers, ws);
  }

  lemma FinishConserves(p: Pool, w: nat)
    requires w < |p.workers| && p.workers[w].Running? && Conserved(p)
    ensures Conserved(Apply(p, Finish(w)))
  {
    var x, ws := p.workers[w].task, Apply(p, Finish(w)).workers;
    InHandUpdate(p.workers, w, Ready);
    assert InHand(ws) + multiset{x} == InHand(p.workers);
    hide InHand;
    assert (p.finished + multiset{x}) + InHand(ws) == p.finished + (InHand(ws) + multiset{x});
  }

  lemma EnqueueConserves(p: Pool, task: Task)
    requires Conserved(p)
    ensures Conserved(Apply(p, Enqueue(task)))
  {
    assert p.taken + (p.queue + [task]) == p.taken + p.queue + [task];
  }

  lemma WakeConserves(ws: seq<Worker>, w: nat)
    requires w < |ws| && ws[w] == Waiting
    ensures InHand(ws[w := Ready]) == InHand(ws)
  {
    InHandSame(ws, ws[w := Ready]);
  }

  lemma StepConserves(p: Pool, step: Step)
    requires Enabled(p, step) && Conserved(p)
    ensures Conserved(Apply(p, step))
  {
    hide InHand;
    match step
    case Enqueue(task) => EnqueueConserves(p, task);
    case NotifyOne(w) =>
      if Is(p, w, Waiting) {
        WakeConserves(p.workers, w);
      }
    case Spurious(w) => WakeConserves(p.workers, w);
    case Loop(w) =>
      if p.queue == [] {
        IdleConserves(p, w);
      } else {
        TakeConserves(p, w);
      }
    case Finish(w) => FinishConserves(p, w);
    case NotifyAll => InHandSame(p.workers, Apply(p, step).workers);
    case _ =>
  }

  lemma StepLosesNone(p: Pool, step: Step)
    requires Enabled(p, step) && NoneLost(p)
    ensures NoneLost(Apply(p, step))
  {
  }

  lemma StepOrdered(p: Pool, step: Step)
    requires Enabled(p, step) && Ordered(p)
    ensures Ordered(Apply(p, step))
  {
  }

  lemma {:induction false} RunKeeps(p: Pool, steps: seq<Step>, q: Pool)
    requires Inv(p) && Runs(p, steps, q)
    ensures Inv(q) && |q.workers| == |p.workers|
    decreases |steps|
  {
    if steps != [] {
      StepConserves(p, steps[0]);
      StepLosesNone(p, steps[0]);
      StepOrdered(p, steps[0]);
      RunKeeps(Apply(p, steps[0]), steps[1..], q);
    }
  }

  // ----- Safety ------------------------------------------------------------------------------------

  /** Over every interleaving: the tasks taken are the first accepted, in order and each once, no wake-up is lost,
      and when the destructor has returned, with at least one worker, every accepted task has been taken and has run. */
  lemma Safety(n: nat, steps: seq<Step>, p: Pool)
    requires Runs(Start(n), steps, p)
    ensures p.accepted == p.taken + p.queue && multiset(p.taken) == p.finished + InHand(p.workers)
    ensures NoneLost(p)
    ensures n >= 1 && Returned(p) ==> p.taken == p.accepted && p.finished == multiset(p.accepted)
  {
    StartHolds(n);
    RunKeeps(Start(n), steps, p);
    if n >= 1 && Returned(p) {
      assert p.workers[0] in p.workers;
      NothingInHand(p.workers);
    }
  }

  /** Without workers the destructor returns at once and the tasks accepted never run. */
  lemma NoWorkersNoRun(task: Task)
    ensures var p := Apply(Apply(Apply(Start(0), Enqueue(task)), Stop), NotifyAll);
      Runs(Start(0), [Enqueue(task), Stop, NotifyAll], p) && Returned(p) && p.accepted == [task] &&
      p.finished == multiset{}
  {
    var a := Apply(Start(0), Enqueue(task));
    var b := Apply(a, Stop);
    var c := Apply(b, NotifyAll);
    assert Runs(c, [], c);
    assert Runs(b, [NotifyAll], c);
    assert Runs(a, [Stop, NotifyAll], c);
  }

  // ----- Progress ------------------------------------------------------------------------------------

  /** The steps that the pool itself owes: not new calls, and not waking without a cause. */
  predicate Owed(p: Pool, step: Step) {
    Enabled(p, step) && !step.Enqueue? && !step.Spurious? && !step.Stop?
  }

  /** While a task is queued, or the destructor is under way, something can happen. */
  lemma NeverStuck(p: Pool) returns (step: Step)
    requires Inv(p) && |p.workers| >= 1 && (p.queue != [] || (p.stop && !Returned(p)))
    ensures Owed(p, step)
  {
    if p.notifyAll {
      step := NotifyAll;
    } else if w :| Is(p, w, Ready) {
      step := Loop(w);
    } else if w :| 0 <= w < |p.workers| && p.workers[w].Running? {
      step := Finish(w);
    } else {
      forall i | 0 <= i < |p.workers| ensures p.workers[i] != Ready {
        assert !Is(p, i, Ready);
      }
      NoneAwake(p.workers);
      if w :| Is(p, w, Waiting) {
        assert p.workers[w] in p.workers;
        step := NotifyOne(w);
      } else {
        assert !Is(p, 0, Waiting);
        assert p.workers[0] in p.workers && p.workers[0] == Done;
        assert p.joined < |p.workers| ==> !Is(p, p.joined, Waiting);
        step := Join;
      }
    }
  }

  lemma NoneAwake(ws: seq<Worker>)
    requires forall i :: 0 <= i < |ws| ==> ws[i] != Ready
    ensures Awake(ws) == 0
  {
  }

  function Weight(w: Worker): nat {
    match w case Ready => 1 case Waiting => 2 case Running(_) => 2 case Done => 0
  }

  function Weights(ws: seq<Worker>): nat {
    if ws == [] then 0 else Weight(ws[0]) + Weights(ws[1..])
  }

  /** What is left to do once the pool is stopped. */
  function ToDo(p: Pool): int {
    2 * |p.queue| + Weights(p.workers) + p.notifies + (if p.notifyAll then 1 else 0) + (|p.workers| - p.joined)
  }

  lemma {:induction false} WeightsUpdate(ws: seq<Worker>, i: nat, w: Worker)
    requires i < |ws|
    ensures Weights(ws[i := w]) + Weight(ws[i]) == Weights(ws) + Weight(w)
  {
    var vs := ws[i := w];
    assert Weights(vs) == Weight(vs[0]) + Weights(vs[1..]);
    if i == 0 {
      assert vs[1..] == ws[1..];
    } else {
      assert vs[1..] == ws[1..][i - 1 := w];
      WeightsUpdate(ws[1..], i - 1, w);
    }
  }

  lemma {:induction false} WeightsWoken(ws: seq<Worker>, vs: seq<Worker>)
    requires |ws| == |vs| && forall i :: 0 <= i < |ws| ==> vs[i] == Woken(ws[i])
    ensures Weights(vs) <= Weights(ws)
  {
    if ws != [] {
      WeightsWoken(ws[1..], vs[1..]);
    }
  }

  /** Once the pool is stopped every step but a refused `enqueue` leaves less to do, whatever the order. */
  lemma LessToDo(p: Pool, step: Step)
    requires Inv(p) && p.stop && Enabled(p, step) && !step.Enqueue?
    ensures ToDo(Apply(p, step)) < ToDo(p)
  {
    hide Weights;
    var q := Apply(p, step);
    match step
    case NotifyOne(w) =>
      if Is(p, w, Waiting) {
        WeightsUpdate(p.workers, w, Ready);
      }
    case Spurious(w) => WeightsUpdate(p.workers, w, Ready);
    case Loop(w) => WeightsUpdate(p.workers, w, q.workers[w]);
    case Finish(w) => WeightsUpdate(p.workers, w, Ready);
    case NotifyAll => WeightsWoken(p.workers, q.workers);
    case _ =>
  }

  /** So from any reachable stopped state the destructor returns within `ToDo` steps. */
  lemma {:induction false} DestructorReturns(p: Pool) returns (steps: seq<Step>, q: Pool)
    requires Inv(p) && p.stop && |p.workers| >= 1
    ensures Runs(p, steps, q) && Returned(q) && |steps| <= ToDo(p)
    decreases ToDo(p)
  {
    if Returned(p) {
      steps, q := [], p;
    } else {
      var step := NeverStuck(p);
      LessToDo(p, step);
      StepConserves(p, step);
      StepLosesNone(p, step);
      StepOrdered(p, step);
      var rest, r := DestructorReturns(Apply(p, step));
      steps, q := [step] + rest, r;
      assert steps[1..] == rest;
    }
  }
}
