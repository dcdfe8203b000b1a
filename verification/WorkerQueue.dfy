/**
 await_worker_queue: coroutines enqueue handles, one worker thread resumes them in batches
 until it sees the shutdown flag. Every step below is one section under the lock, or one resume.
 */
module WorkerQueue {

  /** Where the worker is: at its loop test, in the wait, resuming a batch, or gone. */
  datatype Position = LoopTest | Waiting | Resuming | Exited

  /** enqueued and resumed are the histories of what was handed in and what was resumed. */
  datatype Queue<H> = Queue(
    pending: seq<H>,
    batch: seq<H>,
    shutdown: bool,
    worker: Position,
    enqueued: seq<H>,
    resumed: seq<H>)

  datatype Step<H> =
    | Enqueue(handle: H)
    | ShutDown
    | TestLoop
    | TakeBatch
    | ResumeNext
    | FinishBatch

  function Start<H>(): Queue<H> {
    Queue([], [], false, LoopTest, [], [])
  }

  /** Anyone may enqueue or shut down at any time; the worker's next step depends on its position. */
  predicate Enabled<H>(q: Queue<H>, step: Step<H>) {
    match step
    case Enqueue(_) => true
    case ShutDown => true
    case TestLoop => q.worker == LoopTest
    case TakeBatch => q.worker == Waiting && (q.shutdown || q.pending != [])
    case ResumeNext => q.worker == Resuming && q.batch != []
    case FinishBatch => q.worker == Resuming && q.batch == []
  }

  function Apply<H>(q: Queue<H>, step: Step<H>): Queue<H>
    requires Enabled(q, step)
  {
    match step
    case Enqueue(handle) => q.(pending := q.pending + [handle], enqueued := q.enqueued + [handle])
    case ShutDown => q.(shutdown := true)
    case TestLoop =>
      q.(worker := if q.shutdown then Exited else Waiting)
    case TakeBatch => q.(batch := q.pending, pending := [], worker := Resuming)
    case ResumeNext => q.(batch := q.batch[1..], resumed := q.resumed + [q.batch[0]])
    case FinishBatch => q.(worker := LoopTest)
  }

  /** Resumed, then in the batch, then pending: together the enqueue order. */
  ghost predicate InOrder<H>(q: Queue<H>) {
    && q.resumed + q.batch + q.pending == q.enqueued
    && (q.worker != Resuming ==> q.batch == [])
    && (q.worker == Exited ==> q.shutdown)
  }

  lemma StepKeepsOrder<H>(q: Queue<H>, step: Step<H>)
    requires InOrder(q) && Enabled(q, step)
    ensures InOrder(Apply(q, step))
  {
    var q' := Apply(q, step);
    match step
    case Enqueue(handle) =>
      assert q'.resumed + q'.batch + q'.pending == (q.resumed + q.batch + q.pending) + [handle];
    case ResumeNext =>
      assert q.batch == [q.batch[0]] + q.batch[1..];
      assert q'.resumed + q'.batch == q.resumed + q.batch;
    case _ =>
  }

  predicate Legal<H>(q: Queue<H>, steps: seq<Step<H>>)
    decreases steps
  {
    steps == [] || (Enabled(q, steps[0]) && Legal(Apply(q, steps[0]), steps[1..]))
  }

  function Run<H>(q: Queue<H>, steps: seq<Step<H>>): Queue<H>
    requires Legal(q, steps)
    decreases steps
  {
    if steps == [] then q else Run(Apply(q, steps[0]), steps[1..])
  }

  lemma {:induction false} RunKeepsOrder<H>(q: Queue<H>, steps: seq<Step<H>>)
    requires InOrder(q) && Legal(q, steps)
    ensures InOrder(Run(q, steps))
    ensures q.resumed <= Run(q, steps).resumed && q.enqueued <= Run(q, steps).enqueued
    decreases steps
  {
    if steps != [] {
      StepKeepsOrder(q, steps[0]);
      RunKeepsOrder(Apply(q, steps[0]), steps[1..]);
    }
  }

  /** First in, first out: nothing is invented, repeated or overtaken in any run. */
  lemma EveryRunIsInOrder<H>(steps: seq<Step<H>>)
    requires Legal(Start<H>(), steps)
    ensures InOrder(Run(Start<H>(), steps))
    ensures Run(Start<H>(), steps).resumed <= Run(Start<H>(), steps).enqueued
  {
    RunKeepsOrder(Start<H>(), steps);
    var q := Run(Start<H>(), steps);
    assert q.resumed + (q.batch + q.pending) == q.enqueued;
  }

  /** The handles of the enqueue steps, in their order. */
  function HandlesOf<H>(steps: seq<Step<H>>): seq<H> {
    if steps == [] then []
    else (if steps[0].Enqueue? then [steps[0].handle] else []) + HandlesOf(steps[1..])
  }

  /** Everything handed in is kept in the history, and the flag is set exactly when somebody set it. */
  lemma {:induction false} HistoryIsComplete<H>(q: Queue<H>, steps: seq<Step<H>>)
    requires Legal(q, steps)
    ensures Run(q, steps).enqueued == q.enqueued + HandlesOf(steps)
    ensures Run(q, steps).shutdown <==> q.shutdown || exists i :: 0 <= i < |steps| && steps[i].ShutDown?
    decreases steps
  {
    if steps != [] {
      var rest := steps[1..];
      HistoryIsComplete(Apply(q, steps[0]), rest);
      assert forall i | 0 <= i < |rest| :: rest[i] == steps[i + 1];
      assert forall i | 0 < i < |steps| :: steps[i] == rest[i - 1];
    }
  }

  /** In every run: what was handed in was resumed or is still held, in its order, and nothing else. */
  lemma HandedInIsResumedOrHeld<H>(steps: seq<Step<H>>)
    requires Legal(Start<H>(), steps)
    ensures var q := Run(Start<H>(), steps);
            q.resumed + q.batch + q.pending == HandlesOf(steps) &&
            (q.shutdown <==> exists i :: 0 <= i < |steps| && steps[i].ShutDown?)
  {
    EveryRunIsInOrder(steps);
    HistoryIsComplete(Start<H>(), steps);
  }

  /** The worker has no step exactly when it has left, or waits with nothing to resume and nobody to stop it. */
  lemma IdleExactlyWhen<H>(q: Queue<H>)
    ensures (forall step | IsWorkerStep(step) :: !Enabled(q, step)) <==>
            q.worker == Exited || (q.worker == Waiting && q.pending == [] && !q.shutdown)
  {
    var steps: seq<Step<H>> := [TestLoop, TakeBatch, ResumeNext, FinishBatch];
    assert forall i | 0 <= i < |steps| :: IsWorkerStep(steps[i]);
    assert IsWorkerStep<H>(TestLoop) && IsWorkerStep<H>(TakeBatch);
    assert IsWorkerStep<H>(ResumeNext) && IsWorkerStep<H>(FinishBatch);
  }

  /** Once the worker is gone nothing more is resumed, so what was pending then stays unresumed. */
  lemma {:induction false} ExitedStaysExited<H>(q: Queue<H>, steps: seq<Step<H>>)
    requires Legal(q, steps) && q.worker == Exited
    ensures Run(q, steps).worker == Exited
    ensures Run(q, steps).resumed == q.resumed
    decreases steps
  {
    if steps != [] {
      ExitedStaysExited(Apply(q, steps[0]), steps[1..]);
    }
  }

  /**
   When the worker leaves, the handles left unresumed are exactly those pending at the loop test
   that saw the shutdown; whatever is enqueued later is unresumed too, and nothing else is.
   */
  lemma UnresumedWerePending<H>(before: seq<Step<H>>, after: seq<Step<H>>)
    requires Legal(Start<H>(), before) && Enabled(Run(Start<H>(), before), TestLoop)
    requires Run(Start<H>(), before).shutdown
    requires Legal(Apply(Run(Start<H>(), before), TestLoop), after)
    ensures var test := Run(Start<H>(), before);
            var last := Run(Apply(test, TestLoop), after);
            last.worker == Exited &&
            test.enqueued == last.resumed + test.pending &&
            last.enqueued == last.resumed + last.pending &&
            test.pending <= last.pending
  {
    var test := Run(Start<H>(), before);
    RunKeepsOrder(Start<H>(), before);
    var exited := Apply(test, TestLoop);
    StepKeepsOrder(test, TestLoop);
    ExitedStaysExited(exited, after);
    RunKeepsOrder(exited, after);
    PendingOnlyGrows(exited, after);
  }

  lemma {:induction false} PendingOnlyGrows<H>(q: Queue<H>, steps: seq<Step<H>>)
    requires Legal(q, steps) && q.worker == Exited
    ensures q.pending <= Run(q, steps).pending
    decreases steps
  {
    if steps != [] {
      PendingOnlyGrows(Apply(q, steps[0]), steps[1..]);
    }
  }

  // ---- Shutting down ----

  predicate IsWorkerStep<H>(step: Step<H>) {
    !step.Enqueue? && !step.ShutDown?
  }

  /** Bounds the steps the worker takes after the shutdown flag is set. */
  function StepsLeft<H>(q: Queue<H>): nat {
    match q.worker
    case Exited => 0
    case LoopTest => 1
    case Resuming => 2 + |q.batch|
    case Waiting => 3 + |q.pending|
  }

  /** After shutdown the worker always has a step until it exits, and each step brings it closer. */
  lemma ShutdownEndsWorker<H>(q: Queue<H>)
    requires q.shutdown && q.worker != Exited
    ensures exists step :: IsWorkerStep(step) && Enabled(q, step)
    ensures forall step | IsWorkerStep(step) && Enabled(q, step) ::
              Apply(q, step).shutdown && StepsLeft(Apply(q, step)) == StepsLeft(q) - 1
  {
    var step: Step<H> := match q.worker
      case LoopTest => TestLoop
      case Waiting => TakeBatch
      case _ => if q.batch == [] then FinishBatch else ResumeNext;
    assert IsWorkerStep(step) && Enabled(q, step);
  }

  // ---- The object ----

  class AwaitWorkerQueue<H> {
    var pending: seq<H>
    var shutdown: bool
    var batch: seq<H>
    ghost var worker: Position
    ghost var enqueued: seq<H>
    ghost var resumed: seq<H>

    ghost function Current(): Queue<H>
      reads this
    {
      Queue(pending, batch, shutdown, worker, enqueued, resumed)
    }

    constructor ()
      ensures Current() == Start()
    {
      pending, batch, shutdown := [], [], false;
      worker, enqueued, resumed := LoopTest, [], [];
    }

    /** await_suspend */
    method Suspend(handle: H)
      modifies this
      ensures Current() == Apply(old(Current()), Enqueue(handle))
    {
      pending := pending + [handle];
      enqueued := enqueued + [handle];
    }

    /** The destructor up to the join. */
    method BeginShutdown()
      modifies this
      ensures Current() == Apply(old(Current()), ShutDown)
    {
      shutdown := true;
    }

    /** One round of resumePending with nobody else running: false when the worker leaves. */
    method ResumePending() returns (again: bool)
      requires InOrder(Current()) && worker == LoopTest
      requires !shutdown ==> pending != []
      modifies this
      ensures InOrder(Current())
      ensures again <==> !old(shutdown)
      ensures again ==> worker == LoopTest && pending == [] && resumed == old(enqueued)
      ensures !again ==> worker == Exited && resumed == old(resumed) && pending == old(pending)
      ensures enqueued == old(enqueued)
    {
      if shutdown {
        worker := Exited;
        return false;
      }
      batch, pending := pending, [];
      worker := Resuming;
      while batch != []
        invariant pending == [] && enqueued == old(enqueued) && shutdown == old(shutdown)
        invariant worker == Resuming && resumed + batch == enqueued
        decreases |batch|
      {
        assert batch == [batch[0]] + batch[1..];
        resumed := resumed + [batch[0]];
        batch := batch[1..];
      }
      worker := LoopTest;
      again := true;
    }
  }
}
