/** The job queue behind a session and its two-phase shutdown, server/app/services/threaded_backend.py: submitters,
    one worker thread and one closing thread, interleaved in every order. */
module WorkerQueue {
  import opened Text
  import opened Collections

  type JobId = nat

  /** Where the worker thread is in `_run`. */
  datatype Worker = AtCheck | AtGet | Running(job: JobId) | Stopped

  /** Where the closing thread is in `close`. */
  datatype Closer =
    | Open
    | Draining(popped: Option<JobId>)
    | Emptied
    | Waiting(exit: JobId)
    | Finished(exit: JobId, timedOut: bool)

  /** `submitting` are the jobs whose submitter has passed the guard and not yet put them; `late` those that were
      put after the queue had been drained. `enqueued`, `gone`, `executed` and `resolutions` record, in order, what
      has been put, what has been taken out, what the worker has started, and which futures have been resolved. */
  datatype State = State(queue: seq<JobId>, worker: Worker, closer: Closer, shuttingDown: bool, stop: bool,
                         created: set<JobId>, submitting: set<JobId>, late: set<JobId>, cancelled: set<JobId>,
                         enqueued: seq<JobId>, gone: seq<JobId>, executed: seq<JobId>, resolutions: seq<JobId>)

  function Start(): State {
    State([], AtCheck, Open, false, false, {}, {}, {}, {}, [], [], [], [])
  }

  datatype Step =
    | SubmitStep(job: JobId)
    | GuardStep(job: JobId)
    | PutStep(job: JobId)
    | CheckStep
    | GetStep
    | FinishStep
    | CloseStep
    | DrainStep
    | CancelStep
    | ExitStep(job: JobId)
    | AnsweredStep
    | TimeoutStep

  /** A future is created for each job, so job ids are new. There is one closing thread: a session that is taken
      out of the pool is taken out once. */
  predicate Enabled(s: State, step: Step) {
    match step
    case SubmitStep(job) => job !in s.created
    case GuardStep(job) => job !in s.created
    case PutStep(job) => job in s.submitting
    case CheckStep => s.worker == AtCheck
    case GetStep => s.worker == AtGet
    case FinishStep => s.worker.Running?
    case CloseStep => s.closer == Open
    case DrainStep => s.closer == Draining(None)
    case CancelStep => s.closer.Draining? && s.closer.popped.Some?
    case ExitStep(job) => s.closer == Emptied && job !in s.created
    case AnsweredStep => s.closer.Waiting? && s.closer.exit in s.resolutions
    case TimeoutStep => s.closer.Waiting?
  }

  predicate Drained(s: State) {
    s.closer.Emptied? || s.closer.Waiting? || s.closer.Finished?
  }

  function Enqueue(s: State, job: JobId): State {
    s.(queue := s.queue + [job], enqueued := s.enqueued + [job])
  }

  function Pop(s: State): State
    requires s.queue != []
  {
    s.(queue := s.queue[1..], gone := s.gone + [s.queue[0]])
  }

  function Resolve(s: State, job: JobId): State {
    s.(resolutions := s.resolutions + [job])
  }

  /** `SubmitStep` is `submit` with its guard and its put at once; `GuardStep` and `PutStep` are its two halves. */
  function Next(s: State, step: Step): State
    requires Enabled(s, step)
  {
    match step
    case SubmitStep(job) =>
      var t := s.(created := s.created + {job});
      if s.shuttingDown then Resolve(t, job) else Enqueue(t, job)
    case GuardStep(job) =>
      var t := s.(created := s.created + {job});
      if s.shuttingDown then Resolve(t, job) else t.(submitting := t.submitting + {job})
    case PutStep(job) =>
      Enqueue(s, job).(submitting := s.submitting - {job}, late := if Drained(s) then s.late + {job} else s.late)
    case CheckStep => s.(worker := if s.stop then Stopped else AtGet)
    case GetStep =>
      if s.queue == [] then s.(worker := AtCheck)
      else Pop(s).(worker := Running(s.queue[0]), executed := s.executed + [s.queue[0]])
    case FinishStep => Resolve(s, s.worker.job).(worker := AtCheck)
    case CloseStep => s.(shuttingDown := true, closer := Draining(None))
    case DrainStep =>
      if s.queue == [] then s.(closer := Emptied)
      else Pop(s).(closer := Draining(Some(s.queue[0])), cancelled := s.cancelled + {s.queue[0]})
    case CancelStep => Resolve(s, s.closer.popped.value).(closer := Draining(None))
    case ExitStep(job) => Enqueue(s, job).(created := s.created + {job}, closer := Waiting(job))
    case AnsweredStep => s.(stop := true, closer := Finished(s.closer.exit, false))
    case TimeoutStep => s.(stop := true, closer := Finished(s.closer.exit, true))
  }

  /** The state after the steps, if each of them can be taken. */
  function Run(s: State, steps: seq<Step>): Option<State>
    decreases |steps|
  {
    if steps == [] then Some(s)
    else if Enabled(s, steps[0]) then Run(Next(s, steps[0]), steps[1..])
    else None
  }

  // ----- invariants ----------------------------------------------------------------------------

  function InHand(s: State): set<JobId> {
    (if s.worker.Running? then {s.worker.job} else {})
    + (if s.closer.Draining? && s.closer.popped.Some? then {s.closer.popped.value} else {})
  }

  ghost function Elems(s: seq<JobId>): set<JobId> {
    set j | j in s
  }

  lemma Append(s: seq<JobId>, x: JobId)
    ensures Elems(s + [x]) == Elems(s) + {x}
    ensures NoRepeats(s) && x !in Elems(s) ==> NoRepeats(s + [x])
  {
  }

  lemma Head(s: seq<JobId>)
    requires s != [] && NoRepeats(s)
    ensures Elems(s) == {s[0]} + Elems(s[1..]) && NoRepeats(s[1..]) && s[0] !in Elems(s[1..])
  {
    assert s == [s[0]] + s[1..];
  }

  /** `part` takes its elements from `whole`, in order and without repetition. */
  ghost predicate InOrder(part: seq<JobId>, whole: seq<JobId>) {
    && Elems(part) <= Elems(whole)
    && (forall i, j, a, b | 0 <= i < j < |part| && 0 <= a < |whole| && 0 <= b < |whole|
                            && whole[a] == part[i] && whole[b] == part[j] :: a < b)
  }

  lemma InOrderGrows(part: seq<JobId>, whole: seq<JobId>, x: JobId)
    requires InOrder(part, whole) && x !in Elems(whole)
    ensures InOrder(part, whole + [x]) && InOrder(part + [x], whole + [x])
  {
    Append(part, x);
    Append(whole, x);
    var p, w := part + [x], whole + [x];
    assert forall a | 0 <= a < |w| :: w[a] == x <==> a == |whole| by {
      assert forall a | 0 <= a < |whole| :: whole[a] in Elems(whole);
    }
    assert forall i | 0 <= i < |part| :: p[i] == part[i] && part[i] != x by {
      assert forall i | 0 <= i < |part| :: part[i] in Elems(part);
    }
    hide Elems;
  }

  /** Every job is in exactly one place, and once in it. */
  ghost predicate OnePlace(s: State) {
    && s.created == s.submitting + Elems(s.queue) + InHand(s) + Elems(s.resolutions)
    && s.submitting !! Elems(s.queue) !! InHand(s) !! Elems(s.resolutions)
    && (s.worker.Running? && s.closer.Draining? ==> s.closer.popped != Some(s.worker.job))
    && NoRepeats(s.queue) && NoRepeats(s.resolutions)
  }

  /** The queue is first-in first-out, and what is taken out of it is either started or cancelled. */
  ghost predicate Fifo(s: State) {
    && s.enqueued == s.gone + s.queue && NoRepeats(s.enqueued)
    && Elems(s.enqueued) == Elems(s.gone) + Elems(s.queue) && Elems(s.gone) !! Elems(s.queue)
    && Elems(s.enqueued) <= s.created && Elems(s.enqueued) !! s.submitting
    && s.cancelled <= Elems(s.gone) && s.cancelled !! Elems(s.executed)
    && InOrder(s.executed, s.gone)
  }

  ghost predicate Inv(s: State) {
    OnePlace(s) && Fifo(s)
  }

  lemma StartIsInv()
    ensures Inv(Start())
  {
  }

  lemma EnqueueKeeps(s: State, job: JobId, created: set<JobId>, submitting: set<JobId>)
    requires Inv(s) && created == s.created + {job} && (job !in s.created || job in s.submitting)
    requires submitting == s.submitting - {job}
    ensures Inv(Enqueue(s, job).(created := created, submitting := submitting))
  {
    Append(s.queue, job);
    Append(s.enqueued, job);
    assert s.gone + (s.queue + [job]) == (s.gone + s.queue) + [job];
    hide Elems, NoRepeats, InOrder;
  }

  lemma PopKeeps(s: State)
    requires Inv(s) && s.queue != []
    ensures var t := Pop(s);
      && s.queue[0] !in Elems(t.queue) && Elems(s.queue) == {s.queue[0]} + Elems(t.queue)
      && t.enqueued == t.gone + t.queue && NoRepeats(t.queue)
      && Elems(t.gone) == Elems(s.gone) + {s.queue[0]} && Elems(s.executed) <= Elems(s.gone)
      && InOrder(s.executed, t.gone) && InOrder(s.executed + [s.queue[0]], t.gone)
      && Elems(s.executed + [s.queue[0]]) == Elems(s.executed) + {s.queue[0]}
  {
    Head(s.queue);
    Append(s.gone, s.queue[0]);
    Append(s.executed, s.queue[0]);
    assert s.queue == [s.queue[0]] + s.queue[1..];
    assert s.gone + s.queue == s.gone + [s.queue[0]] + s.queue[1..];
    InOrderGrows(s.executed, s.gone, s.queue[0]);
  }

  lemma TakingKeeps(s: State, step: Step)
    requires Inv(s) && Enabled(s, step) && (step.GetStep? || step.DrainStep?) && s.queue != []
    ensures Inv(Next(s, step))
  {
    PopKeeps(s);
    hide Elems, NoRepeats, InOrder, Enqueue, Resolve;
  }

  lemma ResolvingKeeps(s: State, step: Step, job: JobId)
    requires Inv(s) && Enabled(s, step)
    requires || (step.FinishStep? && job == s.worker.job)
             || (step.CancelStep? && job == s.closer.popped.value)
             || ((step.SubmitStep? || step.GuardStep?) && s.shuttingDown && job == step.job)
    ensures Inv(Next(s, step))
  {
    Append(s.resolutions, job);
    hide Elems, NoRepeats, InOrder, Enqueue, Pop;
  }

  lemma PuttingKeeps(s: State, step: Step)
    requires Inv(s) && Enabled(s, step)
    requires step.PutStep? || step.ExitStep? || (step.SubmitStep? && !s.shuttingDown)
    ensures Inv(Next(s, step))
  {
    hide Elems, NoRepeats, InOrder;
    if step.PutStep? {
      EnqueueKeeps(s, step.job, s.created, s.submitting - {step.job});
      assert s.created + {step.job} == s.created;
    } else {
      EnqueueKeeps(s, step.job, s.created + {step.job}, s.submitting);
      assert s.submitting - {step.job} == s.submitting;
    }
  }

  lemma StepKeepsInv(s: State, step: Step)
    requires Inv(s) && Enabled(s, step)
    ensures Inv(Next(s, step))
  {
    if step.FinishStep? {
      ResolvingKeeps(s, step, s.worker.job);
    } else if step.CancelStep? {
      ResolvingKeeps(s, step, s.closer.popped.value);
    } else if (step.SubmitStep? || step.GuardStep?) && s.shuttingDown {
      ResolvingKeeps(s, step, step.job);
    } else if (step.GetStep? || step.DrainStep?) && s.queue != [] {
      TakingKeeps(s, step);
    } else if step.PutStep? || step.SubmitStep? || step.ExitStep? {
      PuttingKeeps(s, step);
    } else {
      hide Elems, NoRepeats, InOrder;
    }
  }

  // ----- every interleaving --------------------------------------------------------------------

  lemma InOrderInFront(part: seq<JobId>, front: seq<JobId>, rest: seq<JobId>)
    requires InOrder(part, front) && NoRepeats(front + rest)
    ensures InOrder(part, front + rest)
  {
    var whole := front + rest;
    forall i, a | 0 <= i < |part| && 0 <= a < |whole| && whole[a] == part[i]
      ensures a < |front|
    {
      assert part[i] in Elems(part);
      var k :| 0 <= k < |front| && front[k] == part[i];
      assert whole[k] == part[i];
    }
    forall j | j in front
      ensures j in whole
    {
    }
  }

  lemma {:induction false} RunKeepsInv(s: State, steps: seq<Step>)
    requires Inv(s) && Run(s, steps).Some?
    ensures Inv(Run(s, steps).value)
    decreases |steps|
  {
    if steps != [] {
      StepKeepsInv(s, steps[0]);
      RunKeepsInv(Next(s, steps[0]), steps[1..]);
    }
  }

  /** For every interleaving: jobs are executed in the order in which they were put, none twice; no job is both
      executed and cancelled; and no future is resolved twice. */
  lemma EveryInterleaving(steps: seq<Step>)
    requires Run(Start(), steps).Some?
    ensures var t := Run(Start(), steps).value;
      && InOrder(t.executed, t.enqueued) && NoRepeats(t.enqueued)
      && (forall j | j in t.executed :: j !in t.cancelled)
      && NoRepeats(t.resolutions) && (forall j | j in t.resolutions :: j in t.created && j !in t.queue)
  {
    StartIsInv();
    RunKeepsInv(Start(), steps);
    var t := Run(Start(), steps).value;
    InOrderInFront(t.executed, t.gone, t.queue);
    assert forall j | j in t.executed :: j in Elems(t.executed);
    assert forall j | j in t.resolutions :: j in Elems(t.resolutions);
    assert forall j | j in t.queue :: j in Elems(t.queue);
  }

  // ----- the two-phase shutdown ----------------------------------------------------------------

  ghost predicate HasExit(s: State) {
    s.closer.Waiting? || s.closer.Finished?
  }

  /** Everything that is started after `x` has been put late. */
  ghost predicate OnlyLateAfter(s: State, x: JobId) {
    forall a, b | 0 <= a < b < |s.executed| && s.executed[a] == x :: s.executed[b] in s.late
  }

  ghost predicate ExitInv(s: State, x: JobId) {
    && x in s.created && x !in s.late && x !in s.submitting
    && Elems(s.queue) <= s.late + {x}
    && (x in Elems(s.queue) || x in Elems(s.executed))
    && (x in Elems(s.executed) ==>
          x !in Elems(s.queue) && (s.worker.Running? ==> s.worker.job == x || s.worker.job in s.late))
    && OnlyLateAfter(s, x)
  }

  /** What holds during a shutdown: once the queue has been drained it holds only the exit job and late jobs, and
      once the exit job has been started only late jobs follow. */
  ghost predicate ClosingInv(s: State) {
    && (s.shuttingDown <==> !s.closer.Open?) && (s.stop <==> s.closer.Finished?)
    && (!Drained(s) ==> s.late == {})
    && (s.worker.Running? ==> s.executed != [] && s.executed[|s.executed| - 1] == s.worker.job)
    && (s.closer.Emptied? ==> Elems(s.queue) <= s.late)
    && s.late !! s.submitting && s.late <= s.created
    && (HasExit(s) ==> ExitInv(s, s.closer.exit))
    && (s.closer.Finished? && !s.closer.timedOut ==> s.closer.exit in Elems(s.resolutions))
  }

  lemma ResolveKeepsClosing(s: State, job: JobId, t: State)
    requires ClosingInv(s) && t == Resolve(s, job).(worker := t.worker, created := t.created, closer := t.closer)
    requires !t.worker.Running? || t.worker == s.worker
    requires t.closer == s.closer || (s.closer.Draining? && t.closer.Draining?)
    requires s.created <= t.created
    ensures ClosingInv(t)
  {
    Append(s.resolutions, job);
    hide Elems;
  }

  lemma StartJobKeepsClosing(s: State)
    requires Inv(s) && ClosingInv(s) && s.worker == AtGet && s.queue != []
    ensures ClosingInv(Next(s, GetStep))
  {
    PopKeeps(s);
    var t := Next(s, GetStep);
    var n := |s.executed|;
    assert t.executed[n] == s.queue[0];
    if HasExit(s) {
      var x := s.closer.exit;
      assert s.queue[0] in s.late || s.queue[0] == x;
      assert x in Elems(s.executed) ==> s.queue[0] in s.late;
      forall a, b | 0 <= a < b < |t.executed| && t.executed[a] == x
        ensures t.executed[b] in t.late
      {
        assert t.executed[a] == s.executed[a] && s.executed[a] in Elems(s.executed);
      }
    }
    hide Elems, NoRepeats, InOrder;
  }

  lemma PutKeepsClosing(s: State, step: Step)
    requires Inv(s) && ClosingInv(s) && Enabled(s, step)
    requires step.PutStep? || (step.SubmitStep? && !s.shuttingDown)
    ensures ClosingInv(Next(s, step))
  {
    Append(s.queue, step.job);
    hide Elems, NoRepeats, InOrder;
  }

  lemma ExitStarts(s: State, x: JobId)
    requires Inv(s) && ClosingInv(s) && Enabled(s, ExitStep(x))
    ensures ClosingInv(Next(s, ExitStep(x)))
  {
    Append(s.queue, x);
    assert Elems(s.executed) <= Elems(s.gone) <= s.created;
    assert forall a | 0 <= a < |s.executed| :: s.executed[a] in Elems(s.executed);
    hide Elems, NoRepeats, InOrder;
  }

  lemma StepKeepsClosing(s: State, step: Step)
    requires Inv(s) && ClosingInv(s) && Enabled(s, step)
    ensures ClosingInv(Next(s, step))
  {
    hide NoRepeats, InOrder;
    var t := Next(s, step);
    match step {
      case SubmitStep(job) => if s.shuttingDown { ResolveKeepsClosing(s, job, t); } else { PutKeepsClosing(s, step); }
      case GuardStep(job) => if s.shuttingDown { ResolveKeepsClosing(s, job, t); }
      case PutStep(job) => PutKeepsClosing(s, step);
      case GetStep => if s.queue != [] { StartJobKeepsClosing(s); }
      case FinishStep => ResolveKeepsClosing(s, s.worker.job, t);
      case CancelStep => ResolveKeepsClosing(s, s.closer.popped.value, t);
      case ExitStep(job) => ExitStarts(s, job);
      case DrainStep => assert Elems([]) == {};
      case AnsweredStep => assert s.closer.exit in Elems(s.resolutions);
      case _ =>
    }
  }

  lemma {:induction false} RunKeepsClosing(s: State, steps: seq<Step>)
    requires Inv(s) && ClosingInv(s) && Run(s, steps).Some?
    ensures Inv(Run(s, steps).value) && ClosingInv(Run(s, steps).value)
    decreases |steps|
  {
    if steps != [] {
      StepKeepsInv(s, steps[0]);
      StepKeepsClosing(s, steps[0]);
      RunKeepsClosing(Next(s, steps[0]), steps[1..]);
    }
  }

  /** After a shutdown whose exit job was answered in time, for every interleaving: the exit job has been executed
      and only late jobs after it, and a future that is not resolved belongs to a job that was put late or whose
      submitter is still between the guard and the put. */
  lemma ShutdownSettles(steps: seq<Step>)
    requires Run(Start(), steps).Some?
    requires var t := Run(Start(), steps).value; t.closer.Finished? && !t.closer.timedOut
    ensures var t := Run(Start(), steps).value;
      && t.closer.exit in t.executed && t.closer.exit in t.resolutions && OnlyLateAfter(t, t.closer.exit)
      && forall j | j in t.created && j !in t.resolutions :: j in t.late || j in t.submitting
  {
    StartIsInv();
    assert Elems([]) == {};
    RunKeepsClosing(Start(), steps);
    var t := Run(Start(), steps).value;
    forall j | j in t.created && j !in t.resolutions
      ensures j in t.late || j in t.submitting
    {
      assert j !in Elems(t.resolutions);
    }
  }

  ghost predicate Atomic(steps: seq<Step>) {
    forall k | 0 <= k < |steps| :: !steps[k].GuardStep?
  }

  lemma {:induction false} AtomicHasNoLate(s: State, steps: seq<Step>)
    requires s.submitting == {} && s.late == {} && Atomic(steps) && Run(s, steps).Some?
    ensures Run(s, steps).value.submitting == {} && Run(s, steps).value.late == {}
    decreases |steps|
  {
    if steps != [] {
      assert !steps[0].GuardStep?;
      AtomicHasNoLate(Next(s, steps[0]), steps[1..]);
    }
  }

  /** When each submit makes its guard and its put at once and the exit job is answered in time, then after the
      shutdown each future that was ever handed out is resolved, each exactly once, and the exit job was the last
      to run. */
  lemma AtomicShutdownResolvesAll(steps: seq<Step>)
    requires Atomic(steps) && Run(Start(), steps).Some?
    requires var t := Run(Start(), steps).value; t.closer.Finished? && !t.closer.timedOut
    ensures var t := Run(Start(), steps).value;
      && (forall j :: j in t.created <==> j in t.resolutions) && NoRepeats(t.resolutions)
      && t.executed != [] && t.executed[|t.executed| - 1] == t.closer.exit
  {
    ShutdownSettles(steps);
    AtomicHasNoLate(Start(), steps);
    EveryInterleaving(steps);
    var t := Run(Start(), steps).value;
    var p :| 0 <= p < |t.executed| && t.executed[p] == t.closer.exit;
    var last := t.executed[|t.executed| - 1];
    assert last in t.executed && last !in t.late;
  }

  // ----- which futures are never resolved ------------------------------------------------------

  /** After a shutdown: the jobs whose futures are resolved or can still be. A worker that is about to look into the
      queue takes one more job, the first there, or the first that is put. */
  ghost function CanStill(s: State): set<JobId> {
    Elems(s.resolutions) + InHand(s)
    + (if !s.worker.AtGet? then {} else if s.queue != [] then {s.queue[0]} else s.submitting)
  }

  /** The shutdown has come to its end. */
  ghost predicate ShutDown(s: State) {
    s.closer.Finished? && s.shuttingDown && s.stop
  }

  lemma StepKeepsStranded(s: State, step: Step, j: JobId)
    requires Inv(s) && Enabled(s, step) && ShutDown(s) && j in s.created && j !in CanStill(s)
    ensures var t := Next(s, step); ShutDown(t) && j in t.created && j !in CanStill(t)
  {
    if step.FinishStep? {
      Append(s.resolutions, s.worker.job);
    } else if step.SubmitStep? || step.GuardStep? {
      Append(s.resolutions, step.job);
    }
    hide Elems, NoRepeats, InOrder, Inv;
  }

  lemma NotResolved(s: State, j: JobId)
    requires j !in CanStill(s)
    ensures j !in s.resolutions
  {
  }

  lemma {:induction false} StrandedForEver(s: State, steps: seq<Step>, j: JobId)
    requires Inv(s) && ShutDown(s) && j in s.created && j !in CanStill(s) && Run(s, steps).Some?
    ensures j !in Run(s, steps).value.resolutions
    decreases |steps|
  {
    hide Inv, ShutDown, CanStill, Next, Enabled;
    if steps != [] {
      StepKeepsInv(s, steps[0]);
      StepKeepsStranded(s, steps[0], j);
      StrandedForEver(Next(s, steps[0]), steps[1..], j);
    } else {
      NotResolved(s, j);
    }
  }

  /** The steps that resolve a future that can still be resolved. */
  function WayOut(s: State, j: JobId): seq<Step> {
    if j in s.resolutions then []
    else if s.worker == Running(j) then [FinishStep]
    else if s.queue != [] then [GetStep, FinishStep]
    else [PutStep(j), GetStep, FinishStep]
  }

  lemma RunOfOne(s: State, a: Step)
    requires Enabled(s, a)
    ensures Run(s, [a]) == Some(Next(s, a))
  {
    assert [a][1..] == [];
  }

  lemma RunOfTwo(s: State, a: Step, b: Step)
    requires Enabled(s, a) && Enabled(Next(s, a), b)
    ensures Run(s, [a, b]) == Some(Next(Next(s, a), b))
  {
    assert [a, b][1..] == [b];
    RunOfOne(Next(s, a), b);
  }

  lemma WayOutResolves(s: State, j: JobId)
    requires Inv(s) && ShutDown(s) && j in CanStill(s)
    ensures var r := Run(s, WayOut(s, j)); r.Some? && j in r.value.resolutions
  {
    if j !in s.resolutions {
      if s.worker == Running(j) {
        RunOfOne(s, FinishStep);
      } else if s.queue != [] {
        RunOfTwo(s, GetStep, FinishStep);
      } else {
        var t := Next(s, PutStep(j));
        RunOfTwo(t, GetStep, FinishStep);
        assert [PutStep(j), GetStep, FinishStep][1..] == [GetStep, FinishStep];
      }
    }
  }

  lemma {:induction false} RunAppend(s: State, a: seq<Step>, b: seq<Step>)
    requires Run(s, a).Some?
    ensures Run(s, a + b) == Run(Run(s, a).value, b)
    decreases |a|
  {
    if a == [] {
      assert a + b == b;
    } else {
      assert (a + b)[1..] == a[1..] + b;
      RunAppend(Next(s, a[0]), a[1..], b);
    }
  }

  /** However the run goes on, the future of job `j` is never resolved. */
  ghost predicate LeftBehind(steps: seq<Step>, j: JobId)
    requires Run(Start(), steps).Some?
  {
    forall more | Run(Start(), steps + more).Some? :: j !in Run(Start(), steps + more).value.resolutions
  }

  lemma AfterShutdown(steps: seq<Step>) returns (t: State)
    requires Run(Start(), steps).Some? && Run(Start(), steps).value.closer.Finished?
    ensures t == Run(Start(), steps).value && Inv(t) && ShutDown(t)
  {
    StartIsInv();
    assert Elems([]) == {};
    RunKeepsClosing(Start(), steps);
    t := Run(Start(), steps).value;
  }

  /** For every interleaving that ends a shutdown, in time or not: a future is left behind for ever exactly when it
      is not resolved, its job is not in the worker's hands, and it is not the one job that a worker about to look
      into the queue will find there. */
  lemma LeftBehindExactly(steps: seq<Step>, j: JobId)
    requires Run(Start(), steps).Some? && Run(Start(), steps).value.closer.Finished?
    requires j in Run(Start(), steps).value.created
    ensures LeftBehind(steps, j) <==> j !in CanStill(Run(Start(), steps).value)
  {
    var t := AfterShutdown(steps);
    hide Inv, ShutDown, CanStill, Run, WayOut;
    if j in CanStill(t) {
      WayOutResolves(t, j);
      RunAppend(Start(), steps, WayOut(t, j));
      assert Run(Start(), steps + WayOut(t, j)).Some?;
    } else {
      forall more | Run(Start(), steps + more).Some?
        ensures j !in Run(Start(), steps + more).value.resolutions
      {
        RunAppend(Start(), steps, more);
        StrandedForEver(t, more, j);
      }
    }
  }

  lemma PlaceOfJob(t: State, j: JobId)
    requires Inv(t) && t.worker == Stopped && t.closer.Finished? && j in t.created
    ensures j in CanStill(t) <==> j in t.resolutions
    ensures j in t.resolutions <==> !(j in t.queue || j in t.submitting)
  {
    assert (j in Elems(t.queue) <==> j in t.queue) && (j in Elems(t.resolutions) <==> j in t.resolutions);
  }

  /** Once the worker has stopped, the futures left behind are those of the jobs in the queue and of the submitters
      between guard and put; so all futures are resolved exactly when there are no such jobs. */
  lemma ResolvedExactly(steps: seq<Step>)
    requires Run(Start(), steps).Some?
    requires Run(Start(), steps).value.closer.Finished? && Run(Start(), steps).value.worker == Stopped
    ensures var t := Run(Start(), steps).value;
      && (forall j | j in t.created :: LeftBehind(steps, j) <==> j in t.queue || j in t.submitting)
      && ((forall j | j in t.created :: j in t.resolutions) <==> t.queue == [] && t.submitting == {})
  {
    var t := AfterShutdown(steps);
    forall j | j in t.created
      ensures LeftBehind(steps, j) <==> j in t.queue || j in t.submitting
    {
      LeftBehindExactly(steps, j);
      PlaceOfJob(t, j);
    }
    forall j | j in t.created
      ensures j in t.resolutions <==> !(j in t.queue || j in t.submitting)
    {
      PlaceOfJob(t, j);
    }
    if t.queue != [] {
      assert t.queue[0] in Elems(t.queue);
    }
  }

  function RunPastGuard(): seq<Step> {
    [GuardStep(0), CloseStep, DrainStep, ExitStep(1), CheckStep, GetStep, FinishStep, AnsweredStep, PutStep(0),
        CheckStep]
  }

  function RunTimedOut(): seq<Step> {
    [SubmitStep(0), CheckStep, GetStep, CloseStep, DrainStep, ExitStep(1), TimeoutStep, FinishStep, CheckStep]
  }

  lemma NoStep(s: State)
    ensures Run(s, []) == Some(s)
  {
  }

  lemma TakeStep(s: State, steps: seq<Step>, k: nat) returns (t: State)
    requires k < |steps| && Enabled(s, steps[k])
    ensures t == Next(s, steps[k]) && Run(s, steps[k..]) == Run(t, steps[k + 1..])
  {
    t := Next(s, steps[k]);
    assert steps[k..][0] == steps[k] && steps[k..][1..] == steps[k + 1..];
  }

  ghost predicate EndsWith(t: State, j: JobId, timedOut: bool) {
    t.queue == [j] && t.worker == Stopped && t.closer.Finished? && t.closer.timedOut == timedOut
  }

  /** The state after the first five steps of `RunPastGuard`. */
  function PastGuardMiddle(): State {
    State([1], AtGet, Waiting(1), true, false, {0, 1}, {0}, {}, {}, [1], [], [], [])
  }

  lemma PastGuardBegin()
    ensures Run(Start(), RunPastGuard()) == Run(PastGuardMiddle(), RunPastGuard()[5..])
  {
    var r := RunPastGuard();
    hide Run;
    var s0 := Start();
    var s1 := TakeStep(s0, r, 0);
    var s2 := TakeStep(s1, r, 1);
    var s3 := TakeStep(s2, r, 2);
    var s4 := TakeStep(s3, r, 3);
    var s5 := TakeStep(s4, r, 4);
    assert r[0..] == r && s5 == PastGuardMiddle();
  }

  lemma PastGuardEnd()
    ensures Run(Start(), RunPastGuard()).Some? && EndsWith(Run(Start(), RunPastGuard()).value, 0, false)
  {
    PastGuardBegin();
    var r := RunPastGuard();
    hide Run;
    var s5 := PastGuardMiddle();
    var s6 := TakeStep(s5, r, 5);
    var s7 := TakeStep(s6, r, 6);
    var s8 := TakeStep(s7, r, 7);
    var s9 := TakeStep(s8, r, 8);
    var s10 := TakeStep(s9, r, 9);
    assert r[10..] == [];
    NoStep(s10);
  }

  /** The state after the first four steps of `RunTimedOut`. */
  function TimedOutMiddle(): State {
    State([], Running(0), Draining(None), true, false, {0}, {}, {}, {}, [0], [0], [0], [])
  }

  lemma TimedOutBegin()
    ensures Run(Start(), RunTimedOut()) == Run(TimedOutMiddle(), RunTimedOut()[4..])
  {
    var r := RunTimedOut();
    hide Run;
    var s0 := Start();
    var s1 := TakeStep(s0, r, 0);
    var s2 := TakeStep(s1, r, 1);
    var s3 := TakeStep(s2, r, 2);
    var s4 := TakeStep(s3, r, 3);
    assert r[0..] == r && s4 == TimedOutMiddle();
  }

  lemma TimedOutEnd()
    ensures Run(Start(), RunTimedOut()).Some? && EndsWith(Run(Start(), RunTimedOut()).value, 1, true)
  {
    TimedOutBegin();
    var r := RunTimedOut();
    hide Run;
    var s4 := TimedOutMiddle();
    var s5 := TakeStep(s4, r, 4);
    var s6 := TakeStep(s5, r, 5);
    var s7 := TakeStep(s6, r, 6);
    var s8 := TakeStep(s7, r, 7);
    var s9 := TakeStep(s8, r, 8);
    assert r[9..] == [];
    NoStep(s9);
  }

  /** The run ends a shutdown, in time or not, that leaves job `j` behind. */
  ghost predicate Strands(steps: seq<Step>, j: JobId, timedOut: bool) {
    Run(Start(), steps).Some? && EndsWith(Run(Start(), steps).value, j, timedOut) && LeftBehind(steps, j)
  }

  lemma EndingStrands(steps: seq<Step>, j: JobId, timedOut: bool)
    requires Run(Start(), steps).Some? && EndsWith(Run(Start(), steps).value, j, timedOut)
    ensures Strands(steps, j, timedOut)
  {
    var t := AfterShutdown(steps);
    assert j in Elems(t.queue);
    ResolvedExactly(steps);
  }

  /** Both conditions are needed: a submitter that is between its guard and its put can leave its job behind for
      ever, and when the exit job is not answered in time it can be left behind itself. */
  lemma JobsCanBeStranded()
    ensures Strands(RunPastGuard(), 0, false)
    ensures Strands(RunTimedOut(), 1, true) && Atomic(RunTimedOut())
  {
    PastGuardEnd();
    TimedOutEnd();
    hide Run, EndsWith, RunPastGuard;
    EndingStrands(RunPastGuard(), 0, false);
    EndingStrands(RunTimedOut(), 1, true);
  }
}
