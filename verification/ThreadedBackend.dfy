/** The object of server/app/services/threaded_backend.py. Each of its methods takes the steps of the WorkerQueue
    machine that its contract names, when no other thread comes in between. */
module ThreadedBackend {
  import opened Text
  import opened WorkerQueue

  datatype Future = Pending | Returned | Raised(message: string)

  function AfterTurn(s: State): State
    requires s.worker == AtCheck
  {
    var t := Next(s, CheckStep);
    if s.stop then t
    else
      var u := Next(t, GetStep);
      if s.queue == [] then u else Next(u, FinishStep)
  }

  lemma TurnKeepsInv(s: State)
    requires Inv(s) && s.worker == AtCheck
    ensures Inv(AfterTurn(s))
    ensures Elems(AfterTurn(s).resolutions)
         == Elems(s.resolutions) + (if s.stop || s.queue == [] then {} else {s.queue[0]})
    ensures s.queue != [] ==> s.queue[0] in s.created
  {
    var t := Next(s, CheckStep);
    StepKeepsInv(s, CheckStep);
    if s.queue != [] {
      assert s.queue[0] in Elems(s.queue);
    }
    if !s.stop {
      var u := Next(t, GetStep);
      StepKeepsInv(t, GetStep);
      if s.queue != [] {
        StepKeepsInv(u, FinishStep);
        Append(s.resolutions, s.queue[0]);
      }
    }
  }

  /** The drain loop run to its end. */
  function DrainAll(s: State): (t: State)
    requires s.closer == Draining(None)
    ensures t.closer == Emptied && t.created == s.created
    decreases |s.queue|
  {
    if s.queue == [] then Next(s, DrainStep) else DrainAll(Next(Next(s, DrainStep), CancelStep))
  }

  function AfterShutdownBegins(s: State, exit: JobId): State
    requires s.closer.Open? && exit !in s.created
  {
    Next(DrainAll(Next(s, CloseStep)), ExitStep(exit))
  }

  lemma DrainOne(s: State) returns (t: State)
    requires Inv(s) && s.closer == Draining(None) && s.queue != []
    ensures Inv(t) && t.closer == Draining(None) && DrainAll(s) == DrainAll(t) && t.queue == s.queue[1..]
    ensures t.created == s.created && t.shuttingDown == s.shuttingDown && t.stop == s.stop
    ensures Elems(t.resolutions) == Elems(s.resolutions) + {s.queue[0]}
    ensures s.queue[0] in s.created && (forall j :: j in s.queue <==> j == s.queue[0] || j in t.queue)
    ensures s.queue[0] !in t.queue
  {
    t := Next(Next(s, DrainStep), CancelStep);
    StepKeepsInv(s, DrainStep);
    StepKeepsInv(Next(s, DrainStep), CancelStep);
    Append(s.resolutions, s.queue[0]);
    Head(s.queue);
    assert forall j :: j in s.queue <==> j in Elems(s.queue);
    assert forall j :: j in s.queue[1..] <==> j in Elems(s.queue[1..]);
  }

  lemma DrainNone(s: State)
    requires Inv(s) && s.closer == Draining(None) && s.queue == []
    ensures var t := DrainAll(s);
      Inv(t) && t.queue == [] && t.resolutions == s.resolutions && t.shuttingDown == s.shuttingDown && t.stop == s.stop
  {
    StepKeepsInv(s, DrainStep);
  }

  class ThreadedBackend {
    const name: string
    var q: seq<JobId>
    var shuttingDown: bool
    var stop: bool
    var futures: map<JobId, Future>

    ghost predicate Represents(s: State)
      reads this
    {
      && Inv(s) && q == s.queue && shuttingDown == s.shuttingDown && stop == s.stop
      && futures.Keys == s.created
      && forall j | j in futures :: futures[j] != Pending <==> j in Elems(s.resolutions)
    }

    constructor (name: string)
      ensures Represents(Start())
    {
      this.name := name;
      q, shuttingDown, stop, futures := [], false, false, map[];
      new;
      StartIsInv();
    }

    lemma InvCovers(s: State)
      requires Inv(s)
      ensures Elems(s.resolutions) <= s.created && Elems(s.queue) <= s.created && Elems(s.queue) !! Elems(s.resolutions)
      ensures InHand(s) <= s.created && InHand(s) !! Elems(s.resolutions)
    {
    }

    method Submit(job: JobId, ghost s: State)
      requires Represents(s) && Enabled(s, SubmitStep(job))
      modifies this
      ensures Represents(Next(s, SubmitStep(job)))
      ensures futures == old(futures)[job := if old(shuttingDown) then Raised("Backend " + name + " is shutting down")
                                              else Pending]
    {
      StepKeepsInv(s, SubmitStep(job));
      Append(s.resolutions, job);
      hide Inv, Elems;
      InvCovers(s);
      if shuttingDown {
        futures := futures[job := Raised("Backend " + name + " is shutting down")];
        return;
      }
      futures, q := futures[job := Pending], q + [job];
    }

    /** One turn of the loop in `_run`; `error` is the message of the exception that the job raises, if any. */
    method WorkerTurn(error: Option<string>, ghost s: State)
      requires Represents(s) && s.worker == AtCheck
      modifies this
      ensures Represents(AfterTurn(s))
      ensures futures == if old(stop) || old(q) == [] then old(futures)
                         else old(futures)[old(q)[0] := if error.Some? then Raised(error.value) else Returned]
    {
      TurnKeepsInv(s);
      if stop {
        return;
      }
      if q == [] {
        return;
      }
      var job := q[0];
      q := q[1..];
      futures := futures[job := if error.Some? then Raised(error.value) else Returned];
    }

    lemma ShutdownFlag(s: State)
      requires Represents(s) && s.closer.Open?
      ensures Next(s, CloseStep) == s.(shuttingDown := true, closer := Draining(None)) && Inv(Next(s, CloseStep))
    {
      StepKeepsInv(s, CloseStep);
    }

    /** `_submit_unchecked`, as `close` uses it. */
    method SubmitUnchecked(exit: JobId, ghost s: State)
      requires Represents(s) && Enabled(s, ExitStep(exit))
      modifies this`q, this`futures
      ensures Represents(Next(s, ExitStep(exit)))
      ensures q == old(q) + [exit] && futures == old(futures)[exit := Pending]
    {
      StepKeepsInv(s, ExitStep(exit));
      InvCovers(s);
      hide Inv, Elems;
      futures, q := futures[exit := Pending], q + [exit];
    }

    /** The loop that cancels what is in the queue. */
    method Drain(ghost s: State)
      requires Represents(s) && s.closer == Draining(None)
      modifies this`q, this`futures
      ensures Represents(DrainAll(s)) && q == []
      ensures forall j | j in old(futures) :: j in futures
                && futures[j] == if j in old(q) then Raised("Backend " + name + " shut down before job executed")
                                 else old(futures)[j]
    {
      hide Inv, Elems, DrainAll, Next;
      ghost var t := s;
      while q != []
        invariant Represents(t) && t.closer == Draining(None) && DrainAll(t) == DrainAll(s) && t.created == s.created
        invariant forall j | j in q :: j in old(q)
        invariant forall j | j in old(futures) ::
                    futures[j] == if j !in old(q) || j in q then old(futures)[j]
                                  else Raised("Backend " + name + " shut down before job executed")
        decreases |q|
      {
        var job := q[0];
        t := DrainOne(t);
        q := q[1..];
        futures := futures[job := Raised("Backend " + name + " shut down before job executed")];
      }
      DrainNone(t);
    }

    /** The first phase of `close` and the start of the second: no job is accepted any more, what is in the queue
        is cancelled in its order, and the exit job is put. */
    method BeginShutdown(exit: JobId, ghost s: State)
      requires Represents(s) && s.closer.Open? && exit !in s.created
      modifies this
      ensures Represents(AfterShutdownBegins(s, exit))
      ensures q == [exit] && exit in futures && futures[exit] == Pending
      ensures forall j | j in old(futures) :: j in futures
                && futures[j] == if j in old(q) then Raised("Backend " + name + " shut down before job executed")
                                 else old(futures)[j]
    {
      ShutdownFlag(s);
      hide Inv, Elems, DrainAll, Next;
      shuttingDown := true;
      Drain(s.(shuttingDown := true, closer := Draining(None)));
      SubmitUnchecked(exit, DrainAll(s.(shuttingDown := true, closer := Draining(None))));
    }

    /** The end of `close`, when the exit job has been answered or its time is over. */
    method FinishShutdown(answered: bool, ghost s: State)
      requires Represents(s) && s.closer.Waiting? && (answered ==> s.closer.exit in s.resolutions)
      modifies this
      ensures Represents(Next(s, if answered then AnsweredStep else TimeoutStep)) && stop && futures == old(futures)
    {
      StepKeepsInv(s, if answered then AnsweredStep else TimeoutStep);
      stop := true;
    }
  }
}
