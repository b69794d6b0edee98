/** Critical sections that follow one another: the relief of memory pressure and one pass of the reaper. */
module PoolMaintenance {
  import opened Text
  import opened SessionPool
  import opened SessionPoolRuns

  // ----- memory relief -------------------------------------------------------------------------

  datatype Snapshot = Snapshot(pressurePct: real, availableBytes: int)

  datatype Limits = Limits(pressureThreshold: real, minAvailableBytes: int) {
    predicate CanAdmit(snap: Snapshot) {
      snap.pressurePct < pressureThreshold && snap.availableBytes > minAvailableBytes
    }
  }

  /** The idle sessions, oldest first. */
  function IdleOf(lru: seq<Session>): (r: seq<Session>)
    ensures r == [] <==> forall k | 0 <= k < |lru| :: !lru[k].Idle()
  {
    if lru == [] then [] else if lru[0].Idle() then [lru[0]] + IdleOf(lru[1..]) else IdleOf(lru[1..])
  }

  /** The pool without its `n` oldest idle sessions. */
  function DropIdle(lru: seq<Session>, n: nat): seq<Session> {
    if lru == [] || n == 0 then lru
    else if lru[0].Idle() then DropIdle(lru[1..], n - 1)
    else [lru[0]] + DropIdle(lru[1..], n)
  }

  lemma OldestIdleHead(x: Session, rest: seq<Session>)
    ensures OldestIdle([x] + rest) == if x.Idle() then 0 else 1 + OldestIdle(rest)
  {
    assert ([x] + rest)[1..] == rest;
  }

  lemma EvictHead(x: Session, rest: seq<Session>)
    ensures x.Idle() ==> EvictIdle([x] + rest) == Reply(rest, Granted(x.id), [x], None)
    ensures !x.Idle() && IdleOf(rest) != [] ==>
              EvictIdle([x] + rest) == EvictIdle(rest).(lru := [x] + EvictIdle(rest).lru)
  {
    hide IdleOf, OldestIdle;
    var all, k := [x] + rest, OldestIdle(rest);
    OldestIdleHead(x, rest);
    assert all[0] == x;
    if x.Idle() {
      assert Without(all, 0) == rest;
    } else if k < |rest| {
      assert Without(all, k + 1) == [x] + Without(rest, k) && all[k + 1] == rest[k];
    }
  }

  lemma DropHead(x: Session, rest: seq<Session>, n: nat)
    ensures IdleOf([x] + rest) == if x.Idle() then [x] + IdleOf(rest) else IdleOf(rest)
    ensures DropIdle([x] + rest, n) == if n == 0 then [x] + rest
                                       else if x.Idle() then DropIdle(rest, n - 1)
                                       else [x] + DropIdle(rest, n)
    ensures n == 0 ==> DropIdle(rest, n) == rest
  {
    var all := [x] + rest;
    assert all[0] == x && all[1..] == rest;
  }

  /** After `n` evictions the next one takes the idle session number `n`. */
  ghost predicate EvictsNext(lru: seq<Session>, n: nat) {
    && n < |IdleOf(lru)|
    && var y := IdleOf(lru)[n];
       EvictIdle(DropIdle(lru, n)) == Reply(DropIdle(lru, n + 1), Granted(y.id), [y], None)
  }

  lemma EvictFirst(x: Session, rest: seq<Session>)
    requires x.Idle()
    ensures EvictsNext([x] + rest, 0)
  {
    DropHead(x, rest, 0);
    DropHead(x, rest, 1);
    EvictHead(x, rest);
    hide EvictIdle, DropIdle, IdleOf;
  }

  lemma EvictIdleHead(x: Session, rest: seq<Session>, n: nat)
    requires x.Idle() && n > 0 && EvictsNext(rest, n - 1)
    ensures EvictsNext([x] + rest, n)
  {
    DropHead(x, rest, n);
    DropHead(x, rest, n + 1);
    hide EvictIdle, DropIdle, IdleOf;
  }

  lemma {:induction false} IdleAfterDrop(lru: seq<Session>, n: nat)
    requires n <= |IdleOf(lru)|
    ensures IdleOf(DropIdle(lru, n)) == IdleOf(lru)[n..]
  {
    if lru != [] && n > 0 {
      if lru[0].Idle() {
        IdleAfterDrop(lru[1..], n - 1);
      } else {
        IdleAfterDrop(lru[1..], n);
        assert ([lru[0]] + DropIdle(lru[1..], n))[1..] == DropIdle(lru[1..], n);
      }
    }
  }

  lemma EvictBusyHead(x: Session, rest: seq<Session>, n: nat)
    requires !x.Idle() && EvictsNext(rest, n)
    ensures EvictsNext([x] + rest, n)
  {
    DropHead(x, rest, n);
    DropHead(x, rest, n + 1);
    IdleAfterDrop(rest, n);
    EvictHead(x, DropIdle(rest, n));
    hide EvictIdle, DropIdle, IdleOf;
  }

  lemma IdleOfHead(lru: seq<Session>, n: nat)
    requires n < |IdleOf(lru)|
    ensures lru != [] && lru == [lru[0]] + lru[1..]
    ensures n < (if lru[0].Idle() then 1 else 0) + |IdleOf(lru[1..])|
  {
  }

  lemma {:induction false} EvictOne(lru: seq<Session>, n: nat)
    requires n < |IdleOf(lru)|
    ensures EvictsNext(lru, n)
  {
    hide EvictIdle, DropIdle, IdleOf, EvictsNext;
    IdleOfHead(lru, n);
    var x, rest := lru[0], lru[1..];
    if !x.Idle() {
      EvictOne(rest, n);
      EvictBusyHead(x, rest, n);
    } else if n > 0 {
      EvictOne(rest, n - 1);
      EvictIdleHead(x, rest, n);
    } else {
      EvictFirst(x, rest);
    }
  }

  /** The state after `n` evictions. */
  ghost function Evictions(s: State, n: nat): (t: State)
    requires Inv(s)
    ensures Inv(t)
  {
    if n == 0 then s
    else
      var t := Evictions(s, n - 1);
      StepKeepsInv(t, EvictStep);
      Next(t, EvictStep)
  }

  lemma EvictionsUnfold(s: State, n: nat)
    requires Inv(s)
    ensures n == 0 ==> Evictions(s, n) == s
    ensures n > 0 ==> var t := Evictions(s, n - 1); |t.lru| <= t.poolSize && Evictions(s, n) == Next(t, EvictStep)
  {
  }

  lemma NoEviction(lru: seq<Session>)
    ensures DropIdle(lru, 0) == lru && Ids(IdleOf(lru)[..0]) == []
  {
  }

  lemma OneMoreEviction(lru: seq<Session>, n: nat, taken: seq<Id>, t: State)
    requires n > 0 && EvictsNext(lru, n - 1) && |t.lru| <= t.poolSize
    requires t.lru == DropIdle(lru, n - 1) && t.taken == taken + Ids(IdleOf(lru)[..n - 1])
    ensures Next(t, EvictStep).lru == DropIdle(lru, n)
    ensures Next(t, EvictStep).taken == taken + Ids(IdleOf(lru)[..n])
  {
    var idle := IdleOf(lru);
    assert Ids(idle[..n]) == Ids(idle[..n - 1]) + Ids([idle[n - 1]]);
    hide EvictIdle, IdleOf, DropIdle;
  }

  /** Evictions that run alone take exactly the oldest idle sessions, in the order of their last use, and leave
      the others in their order. */
  lemma {:induction false} EvictionsTakeOldestIdle(s: State, n: nat)
    requires Inv(s) && n <= |IdleOf(s.lru)|
    ensures Evictions(s, n).lru == DropIdle(s.lru, n)
    ensures Evictions(s, n).taken == s.taken + Ids(IdleOf(s.lru)[..n])
    ensures IdleOf(Evictions(s, n).lru) == IdleOf(s.lru)[n..]
  {
    hide Inv, EvictIdle, IdleOf, DropIdle, EvictsNext, Evictions, Next;
    IdleAfterDrop(s.lru, n);
    EvictionsUnfold(s, n);
    if n > 0 {
      EvictionsTakeOldestIdle(s, n - 1);
      EvictOne(s.lru, n - 1);
      OneMoreEviction(s.lru, n, s.taken, Evictions(s, n - 1));
    } else {
      NoEviction(s.lru);
    }
  }

  // ----- one pass of the reaper ----------------------------------------------------------------

  /** The reaper closes what its scan has collected; `arrived` says how many requests begin on a session while it
      is being closed. */
  ghost function ReapAll(s: State, arrived: Id -> nat, now: real): (t: State)
    requires Inv(s)
    ensures Inv(t) && t.pending == []
    decreases |s.pending|
  {
    if s.pending == [] then s
    else
      var step := ReapStep(arrived(s.pending[0].id), now);
      StepKeepsInv(s, step);
      ReapAll(Next(s, step), arrived, now)
  }

  /** The state after a scan and the closes, when nothing else runs. */
  ghost function AfterReaper(s: State, scan: Step, arrived: Id -> nat): (t: State)
    requires Inv(s) && Enabled(s, scan) && scan.ScanStep?
    ensures Inv(t) && t.pending == []
  {
    StepKeepsInv(s, scan);
    ReapAll(Next(s, scan), arrived, scan.now)
  }

  ghost predicate NotInUse(lru: seq<Session>, id: Id) {
    exists k :: 0 <= k < |lru| && lru[k].id == id && lru[k].active == 0
  }

  ghost predicate IsOverdue(lru: seq<Session>, id: Id, now: real, idleTimeout: real, maxLeaseAge: real) {
    exists k :: 0 <= k < |lru| && lru[k].id == id && Overdue(lru[k], now, idleTimeout, maxLeaseAge)
  }

  lemma NotInUseWithout(lru: seq<Session>, k: nat)
    requires DistinctIds(lru) && k < |lru|
    ensures forall i :: NotInUse(Without(lru, k), i) <==> NotInUse(lru, i) && i != lru[k].id
  {
    var r := Without(lru, k);
    forall i
      ensures NotInUse(r, i) <==> NotInUse(lru, i) && i != lru[k].id
    {
      if NotInUse(lru, i) && i != lru[k].id {
        var j :| 0 <= j < |lru| && lru[j].id == i && lru[j].active == 0;
        assert r[if j < k then j else j - 1] == lru[j];
      }
      if NotInUse(r, i) {
        var j :| 0 <= j < |r| && r[j].id == i && r[j].active == 0;
        assert r[j] == lru[if j < k then j else j + 1];
      }
    }
  }

  lemma NotInUseAppend(lru: seq<Session>, x: Session)
    ensures forall i :: NotInUse(lru + [x], i) <==> NotInUse(lru, i) || (x.id == i && x.active == 0)
  {
    var r := lru + [x];
    assert r[|lru|] == x;
    forall i
      ensures NotInUse(r, i) <==> NotInUse(lru, i) || (x.id == i && x.active == 0)
    {
      if NotInUse(lru, i) {
        var j :| 0 <= j < |lru| && lru[j].id == i && lru[j].active == 0;
        assert r[j] == lru[j];
      }
    }
  }

  /** The four ways in which a close without a token goes. */
  lemma CloseCases(lru: seq<Session>, id: Id, arrived: nat, now: real)
    requires DistinctIds(lru) && AllAlive(lru)
    ensures var r, k := Close(lru, id, None, false, arrived, now).lru, Position(lru, id);
      && (k < |lru| && lru[k].active == 0 <==> NotInUse(lru, id))
      && r == if !NotInUse(lru, id) then lru
              else if arrived == 0 then Without(lru, k)
              else Without(lru, k) + [lru[k].(active := arrived, lastActivity := now)]
  {
  }

  lemma CloseEffect(lru: seq<Session>, id: Id, arrived: nat, now: real)
    requires DistinctIds(lru) && AllAlive(lru)
    ensures var r := Close(lru, id, None, false, arrived, now).lru;
      && IdSet(r) == IdSet(lru) - (if NotInUse(lru, id) && arrived == 0 then {id} else {})
      && (forall i | i != id :: NotInUse(r, i) <==> NotInUse(lru, i))
      && !(NotInUse(r, id) && arrived == 0)
  {
    CloseCases(lru, id, arrived, now);
    var k := Position(lru, id);
    if NotInUse(lru, id) {
      var x := lru[k].(active := arrived, lastActivity := now);
      IdSetWithout(lru, k);
      NotInUseWithout(lru, k);
      IdSetAppend(Without(lru, k), x);
      NotInUseAppend(Without(lru, k), x);
      IdSetHas(lru, id);
    }
    hide Close, Without, NotInUse, IdSet, DistinctIds;
  }

  /** Between the closes of the reaper anything may run that does not run on the event loop. */
  ghost predicate OffEventLoop(steps: seq<Step>) {
    forall k | 0 <= k < |steps| :: !OnEventLoop(steps[k])
  }

  /** The reaper comes to session `id` in these steps. */
  ghost predicate HasTurn(s: State, steps: seq<Step>, id: Id)
    requires Inv(s) && IsRun(s, steps)
    decreases |steps|
  {
    steps != [] &&
    ((steps[0].ReapStep? && s.pending[0].id == id)
     || (StepKeepsInv(s, steps[0]); HasTurn(Next(s, steps[0]), steps[1..], id)))
  }

  /** It comes to session `id`, and at that moment the session serves no request, and none arrives. */
  ghost predicate TurnTakes(s: State, steps: seq<Step>, id: Id)
    requires Inv(s) && IsRun(s, steps)
    decreases |steps|
  {
    steps != [] &&
    ((steps[0].ReapStep? && s.pending[0].id == id && NotInUse(s.lru, id) && steps[0].arrived == 0)
     || (StepKeepsInv(s, steps[0]); TurnTakes(Next(s, steps[0]), steps[1..], id)))
  }

  /** The sessions that a step takes out. */
  ghost function Taken(s: State, step: Step): set<Id>
    requires Inv(s) && Enabled(s, step)
  {
    IdSet(ReplyOf(s, step).out)
  }

  /** Somebody else takes session `id` out: an eviction, a close, or recovery. */
  ghost predicate OtherTakes(s: State, steps: seq<Step>, id: Id)
    requires Inv(s) && IsRun(s, steps)
    decreases |steps|
  {
    steps != [] &&
    ((!steps[0].ReapStep? && id in Taken(s, steps[0]))
     || (StepKeepsInv(s, steps[0]); OtherTakes(Next(s, steps[0]), steps[1..], id)))
  }

  lemma Conservation(s: State)
    requires Inv(s)
    ensures s.built == IdSet(s.lru) + s.limbo + s.closed && IdSet(s.lru) !! s.limbo !! s.closed
  {
  }

  lemma NoIds()
    ensures IdSet([]) == {}
  {
  }

  /** A step off the event loop puts nothing in: the pool loses what the step takes out. */
  lemma PoolLosesTaken(s: State, step: Step)
    requires Inv(s) && Enabled(s, step) && !OnEventLoop(step)
    ensures IdSet(Next(s, step).lru) == IdSet(s.lru) - Taken(s, step)
    ensures Next(s, step).pending == if step.ReapStep? then s.pending[1..] else s.pending
  {
    hide IdSet, Inv, Create, Acquire, Find, Release, Get, Close, EvictIdle, Purge, Scan, Position, Ids;
    StepKeepsInv(s, step);
    InvBounds(s);
    var t := Next(s, step);
    Conservation(s);
    Conservation(t);
    assert t.built == s.built;
    NoIds();
    assert t.limbo + t.closed == s.limbo + s.closed + Taken(s, step);
  }

  lemma ReapTakes(s: State, step: Step)
    requires Inv(s) && Enabled(s, step) && step.ReapStep?
    ensures var id := s.pending[0].id;
      IdSet(Next(s, step).lru) == IdSet(s.lru) - (if NotInUse(s.lru, id) && step.arrived == 0 then {id} else {})
  {
    CloseEffect(s.lru, s.pending[0].id, step.arrived, step.now);
  }

  /** The ids on the reaper's list. */
  ghost predicate Listed(pending: seq<Doomed>, id: Id) {
    exists d :: d in pending && d.id == id
  }

  lemma ListedHead(pending: seq<Doomed>, id: Id)
    requires pending != []
    ensures Listed(pending, id) <==> pending[0].id == id || Listed(pending[1..], id)
  {
    assert forall d :: d in pending <==> d == pending[0] || d in pending[1..];
  }

  lemma HasPending(s: State, step: Step)
    requires Enabled(s, step) && step.ReapStep?
    ensures s.pending != []
  {
  }

  lemma {:induction false} TurnsTake(s: State, steps: seq<Step>, id: Id)
    requires Inv(s) && IsRun(s, steps) && OffEventLoop(steps)
    ensures id in IdSet(After(s, steps).lru) <==>
              id in IdSet(s.lru) && !TurnTakes(s, steps, id) && !OtherTakes(s, steps, id)
    ensures Listed(s.pending, id) <==> HasTurn(s, steps, id) || Listed(After(s, steps).pending, id)
    decreases |steps|
  {
    hide Inv, Next, NotInUse, IdSet, Enabled, OnEventLoop, Taken, Listed;
    if steps != [] {
      var step := steps[0];
      InvBounds(s);
      StepKeepsInv(s, step);
      PoolLosesTaken(s, step);
      TurnsTake(Next(s, step), steps[1..], id);
      if step.ReapStep? {
        HasPending(s, step);
        ReapTakes(s, step);
        ListedHead(s.pending, id);
      }
    }
  }

  lemma ScanLists(s: State, scan: Step, id: Id)
    requires Inv(s) && Enabled(s, scan) && scan.ScanStep?
    ensures Listed(Next(s, scan).pending, id) <==> IsOverdue(s.lru, id, scan.now, scan.idleTimeout, scan.maxLeaseAge)
    ensures Next(s, scan).lru == s.lru
  {
    hide Conserved, OrderedByUse, PendingOk, DistinctIds;
  }

  /** One pass of the reaper, from its scan until its list is done, with any steps of other threads in between: it comes
      exactly to the sessions that its scan finds overdue, and takes out exactly those that are still there and serve
      no request when their turn comes. */
  lemma ReaperPass(s: State, scan: Step, steps: seq<Step>, id: Id)
    requires Inv(s) && Enabled(s, scan) && scan.ScanStep? && Inv(Next(s, scan))
    requires IsRun(Next(s, scan), steps) && OffEventLoop(steps) && After(Next(s, scan), steps).pending == []
    ensures HasTurn(Next(s, scan), steps, id) <==> IsOverdue(s.lru, id, scan.now, scan.idleTimeout, scan.maxLeaseAge)
    ensures id in IdSet(After(Next(s, scan), steps).lru) <==>
              id in IdSet(s.lru) && !TurnTakes(Next(s, scan), steps, id) && !OtherTakes(Next(s, scan), steps, id)
  {
    hide Inv, IdSet, HasTurn, TurnTakes, OtherTakes, IsOverdue;
    InvBounds(s);
    var u := Next(s, scan);
    TurnsTake(u, steps, id);
    ScanLists(s, scan, id);
    assert !Listed([], id);
  }

  /** The closes of a pass during which nothing else runs. */
  ghost function ReapSteps(s: State, arrived: Id -> nat, now: real): (steps: seq<Step>)
    requires Inv(s)
    ensures OffEventLoop(steps)
    decreases |s.pending|
  {
    if s.pending == [] then []
    else
      var step := ReapStep(arrived(s.pending[0].id), now);
      StepKeepsInv(s, step);
      [step] + ReapSteps(Next(s, step), arrived, now)
  }

  lemma {:induction false} ReapAllIsRun(s: State, arrived: Id -> nat, now: real)
    requires Inv(s)
    ensures IsRun(s, ReapSteps(s, arrived, now)) && After(s, ReapSteps(s, arrived, now)) == ReapAll(s, arrived, now)
    decreases |s.pending|
  {
    if s.pending != [] {
      var step := ReapStep(arrived(s.pending[0].id), now);
      StepKeepsInv(s, step);
      ReapAllIsRun(Next(s, step), arrived, now);
      var rest := ReapSteps(Next(s, step), arrived, now);
      assert ([step] + rest)[0] == step && ([step] + rest)[1..] == rest;
    }
  }
}
