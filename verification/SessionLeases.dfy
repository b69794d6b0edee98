/** The holder's side of a lease in server/app/services/session_manager.py: what an acquisition takes, what its token is
    good for, and what a release or a close leaves behind. */
module SessionLeases {
  import opened Text
  import opened SessionPool
  import opened SessionPoolRuns

  // ----- one session and all others ------------------------------------------------------------

  /** The other sessions, in their order. */
  function Others(lru: seq<Session>, id: Id): seq<Session> {
    if lru == [] then []
    else if lru[0].id == id then Others(lru[1..], id)
    else [lru[0]] + Others(lru[1..], id)
  }

  lemma {:induction false} OthersAre(lru: seq<Session>, id: Id)
    ensures forall x :: x in Others(lru, id) <==> x in lru && x.id != id
  {
    if lru != [] {
      OthersAre(lru[1..], id);
      assert lru == [lru[0]] + lru[1..];
    }
  }

  lemma {:induction false} OthersOfOthers(lru: seq<Session>, id: Id)
    requires forall x | x in lru :: x.id != id
    ensures Others(lru, id) == lru
  {
    if lru != [] {
      OthersOfOthers(lru[1..], id);
    }
  }

  lemma {:induction false} OthersAppend(lru: seq<Session>, x: Session, id: Id)
    ensures Others(lru + [x], id) == Others(lru, id) + if x.id == id then [] else [x]
  {
    if lru == [] {
      assert lru + [x] == [x];
    } else {
      OthersAppend(lru[1..], x, id);
      assert (lru + [x])[1..] == lru[1..] + [x];
    }
  }

  lemma {:induction false} WithoutIsOthers(lru: seq<Session>, k: nat)
    requires DistinctIds(lru) && k < |lru|
    ensures Without(lru, k) == Others(lru, lru[k].id)
  {
    if k == 0 {
      OthersOfOthers(lru[1..], lru[0].id);
    } else {
      WithoutIsOthers(lru[1..], k - 1);
      assert Without(lru, k) == [lru[0]] + Without(lru[1..], k - 1);
    }
  }

  lemma {:induction false} OthersOfUpdate(lru: seq<Session>, k: nat, x: Session)
    requires k < |lru| && x.id == lru[k].id
    ensures Others(lru[k := x], x.id) == Others(lru, x.id)
  {
    if k == 0 {
      assert lru[0 := x][1..] == lru[1..];
    } else {
      OthersOfUpdate(lru[1..], k - 1, x);
      assert lru[k := x][1..] == lru[1..][k - 1 := x];
    }
  }

  /** The session `x` is in the pool. */
  ghost predicate Has(s: State, x: Session) {
    x in s.lru
  }

  lemma PositionIs(s: State, x: Session)
    requires Inv(s) && Has(s, x)
    ensures Position(s.lru, x.id) < |s.lru| && s.lru[Position(s.lru, x.id)] == x
    ensures Without(s.lru, Position(s.lru, x.id)) == Others(s.lru, x.id)
    ensures !x.closed && (x.leased <==> x.leaseId.Some?) && |s.lru| <= s.poolSize
  {
    var k :| 0 <= k < |s.lru| && s.lru[k] == x;
    assert Position(s.lru, x.id) == k;
    WithoutIsOthers(s.lru, k);
  }

  // ----- release -------------------------------------------------------------------------------

  lemma HeldBy(s: State, x: Session, token: Token)
    requires Inv(s) && Has(s, x) && Held(s, x.id, token)
    ensures x.leased && x.leaseId == Some(token) && token != ""
  {
    var k :| 0 <= k < |s.lru| && s.lru[k] == x;
    assert s.lru[k].Alive();
  }

  /** A release with the token of the lease frees the session, unless a request is at work: it is last in the order
      and has no lease, and all others are as before. */
  lemma ReleaseFrees(s: State, x: Session, token: Token, now: real)
    requires Inv(s) && Has(s, x) && Held(s, x.id, token) && Enabled(s, ReleaseStep(x.id, token, now))
    ensures var (r, t) := (ReplyOf(s, ReleaseStep(x.id, token, now)), Next(s, ReleaseStep(x.id, token, now)));
      if x.active > 0 then r.outcome == Busy && t.lru == s.lru
      else
        && r.outcome == Granted(x.id)
        && t.lru == Others(s.lru, x.id) + [Session(x.id, x.key, false, false, None, 0, now, x.dirty)]
  {
    PositionIs(s, x);
    HeldBy(s, x, token);
  }

  /** The session at the end of the order is the first that an acquisition or a lookup considers. */
  lemma LastMatches(lru: seq<Session>, x: Session, key: string, reuseDirty: bool)
    requires lru != [] && lru[|lru| - 1] == x && Matches(x, key, reuseDirty)
    ensures LatestMatch(lru, key, reuseDirty) == |lru| - 1
  {
  }

  /** After a release the next acquisition with the key of the session gets it, under its own token; with
      `reuseDirty` off, exactly if the session has no history. */
  lemma ReleasedIsReused(s: State, x: Session, token: Token, now: real, reuseDirty: bool, token': Token, now': real)
    requires Inv(s) && Has(s, x) && Held(s, x.id, token) && x.active == 0
    requires Enabled(s, ReleaseStep(x.id, token, now)) && token' != ""
    ensures var (t, step) := (Next(s, ReleaseStep(x.id, token, now)), AcquireStep(x.key, reuseDirty, token', now'));
      && Inv(t) && Enabled(t, step)
      && (ReplyOf(t, step).outcome == Granted(x.id) <==> reuseDirty || !x.dirty)
      && (reuseDirty || !x.dirty ==>
            && Next(t, step).lru == Others(s.lru, x.id)
                                    + [Session(x.id, x.key, false, true, Some(token'), 0, now', x.dirty)]
            && Held(Next(t, step), x.id, token'))
  {
    var (t, step) := (Next(s, ReleaseStep(x.id, token, now)), AcquireStep(x.key, reuseDirty, token', now'));
    StepKeepsInv(s, ReleaseStep(x.id, token, now));
    ReleaseFrees(s, x, token, now);
    var y := Session(x.id, x.key, false, false, None, 0, now, x.dirty);
    var k := LatestMatch(t.lru, x.key, reuseDirty);
    var last := |t.lru| - 1;
    assert t.lru[last] == y;
    if reuseDirty || !x.dirty {
      LastMatches(t.lru, y, x.key, reuseDirty);
      assert Without(t.lru, last) == Others(s.lru, x.id);
      GrantIsHeld(t, step, x.id, token');
    } else if k >= 0 {
      assert k != last;
      assert t.lru[k].id != t.lru[last].id;
    }
  }

  // ----- get and close -------------------------------------------------------------------------

  /** With its token the holder gets the session, which is now last in the order and otherwise as before. */
  lemma HolderGets(s: State, x: Session, token: Token)
    requires Inv(s) && Has(s, x) && Held(s, x.id, token) && Enabled(s, GetStep(x.id, Some(token), true))
    ensures var step := GetStep(x.id, Some(token), true);
      && ReplyOf(s, step).outcome == Granted(x.id)
      && Next(s, step).lru == Others(s.lru, x.id) + [x] && Held(Next(s, step), x.id, token)
  {
    PositionIs(s, x);
    HeldBy(s, x, token);
    StepKeepsLease(s, GetStep(x.id, Some(token), true), x.id, token);
  }

  /** With its token the holder closes the session, unless a request is at work or comes up meanwhile: then the
      session is gone, without its lease. */
  lemma HolderCloses(s: State, x: Session, token: Token, arrived: nat, now: real)
    requires Inv(s) && Has(s, x) && Held(s, x.id, token)
    ensures var step := CloseStep(x.id, Some(token), true, arrived, now);
      var (r, t) := (ReplyOf(s, step), Next(s, step));
      if x.active > 0 then r.outcome == Busy && t.lru == s.lru && r.out == []
      else if arrived > 0 then
        r.outcome == Busy && t.lru == Others(s.lru, x.id) + [x.(active := arrived, lastActivity := now)] && r.out == []
      else
        && r.outcome == Granted(x.id) && t.lru == Others(s.lru, x.id)
        && r.out == [x.(leased := false, leaseId := None, lastActivity := now)] && x.id in t.taken
  {
    PositionIs(s, x);
    HeldBy(s, x, token);
    if x.active == 0 && arrived == 0 {
      var step := CloseStep(x.id, Some(token), true, arrived, now);
      assert Ids(ReplyOf(s, step).out)[0] == x.id && Next(s, step).taken == s.taken + Ids(ReplyOf(s, step).out);
    }
  }

  /** The caller is let through to the session. */
  ghost predicate LetThrough(x: Session, token: Option<Token>, requireLease: bool) {
    requireLease ==> x.leased && x.leaseId.Some? && token == x.leaseId
  }

  lemma TokenIsNotEmpty(s: State, x: Session)
    requires Inv(s) && Has(s, x)
    ensures x.leased ==> x.leaseId.Some? && x.leaseId.value != ""
  {
    var k :| 0 <= k < |s.lru| && s.lru[k] == x;
    assert s.lru[k].Alive();
  }

  /** Get, for any caller: not found exactly if no pooled session has the id; refused exactly if a lease is asked for
      and the token is not that of the session; otherwise the session moves to the end. */
  lemma GetExactly(s: State, id: Id, token: Option<Token>, requireLease: bool)
    requires Inv(s) && Enabled(s, GetStep(id, token, requireLease))
    ensures var (r, t) := (ReplyOf(s, GetStep(id, token, requireLease)), Next(s, GetStep(id, token, requireLease)));
      && (r.outcome == NotFound <==> forall x | Has(s, x) :: x.id != id)
      && (r.outcome == NotFound ==> t.lru == s.lru)
      && forall x | Has(s, x) && x.id == id ::
           if LetThrough(x, token, requireLease) then r.outcome == Granted(id) && t.lru == Others(s.lru, id) + [x]
           else r.outcome == LeaseError && t.lru == s.lru
  {
    forall x | Has(s, x) && x.id == id
      ensures ReplyOf(s, GetStep(id, token, requireLease)) ==
                if LetThrough(x, token, requireLease) then Reply(Others(s.lru, id) + [x], Granted(id), [], Some(id))
                else Reply(s.lru, LeaseError, [], None)
    {
      PositionIs(s, x);
      TokenIsNotEmpty(s, x);
    }
    if Position(s.lru, id) < |s.lru| {
      assert Has(s, s.lru[Position(s.lru, id)]);
      PositionIs(s, s.lru[Position(s.lru, id)]);
    }
  }

  /** Close, for any caller. */
  lemma CloseExactly(s: State, id: Id, token: Option<Token>, requireLease: bool, arrived: nat, now: real)
    requires Inv(s)
    ensures var step := CloseStep(id, token, requireLease, arrived, now);
      var (r, t) := (ReplyOf(s, step), Next(s, step));
      && (r.outcome == NotFound <==> forall x | Has(s, x) :: x.id != id)
      && (r.outcome == NotFound ==> t.lru == s.lru)
      && forall x | Has(s, x) && x.id == id ::
           if !LetThrough(x, token, requireLease) then r.outcome == LeaseError && t.lru == s.lru
           else if x.active > 0 then r.outcome == Busy && t.lru == s.lru
           else if arrived > 0 then
             r.outcome == Busy && t.lru == Others(s.lru, id) + [x.(active := arrived, lastActivity := now)]
           else r.outcome == Granted(id) && t.lru == Others(s.lru, id)
  {
    forall x | Has(s, x) && x.id == id
      ensures var r := ReplyOf(s, CloseStep(id, token, requireLease, arrived, now));
        if !LetThrough(x, token, requireLease) then r == Reply(s.lru, LeaseError, [], None)
        else if x.active > 0 then r == Reply(s.lru, Busy, [], None)
        else if arrived > 0 then
          r == Reply(Others(s.lru, id) + [x.(active := arrived, lastActivity := now)], Busy, [], Some(id))
        else r.outcome == Granted(id) && r.lru == Others(s.lru, id)
    {
      PositionIs(s, x);
      TokenIsNotEmpty(s, x);
    }
    if Position(s.lru, id) < |s.lru| {
      assert Has(s, s.lru[Position(s.lru, id)]);
      PositionIs(s, s.lru[Position(s.lru, id)]);
    }
  }

  /** A step that asks for the session `id`. */
  predicate Names(step: Step, id: Id) {
    (step.GetStep? || step.CloseStep? || step.ReleaseStep?) && step.id == id
  }

  /** A step that is about the session `id`. */
  predicate Concerns(s: State, step: Step, id: Id)
    requires Enabled(s, step) && |s.lru| <= s.poolSize
  {
    || Names(step, id)
    || ((step.BeginStep? || step.EndStep?) && step.id == id)
    || ((step.AcquireStep? || step.FindStep? || step.EvictStep?) && ReplyOf(s, step).outcome == Granted(id))
    || (step.ReapStep? && s.pending[0].id == id)
  }

  lemma EditKeepsOthers(lru: seq<Session>, k: nat, y: Session, r: seq<Session>)
    requires DistinctIds(lru) && k < |lru| && lru[k].id == y.id
    requires r == lru[k := y] || r == Without(lru, k) || r == Without(lru, k) + [y]
    ensures Others(r, y.id) == Others(lru, y.id)
  {
    hide Without;
    OthersOfUpdate(lru, k, y);
    WithoutIsOthers(lru, k);
    OthersAre(lru, y.id);
    OthersOfOthers(Others(lru, y.id), y.id);
    OthersAppend(Others(lru, y.id), y, y.id);
  }

  lemma DistinctInPool(s: State)
    requires Inv(s)
    ensures DistinctIds(s.lru) && |s.lru| <= s.poolSize
  {
  }

  lemma MoveKeepsOthers(lru: seq<Session>, k: nat, r: seq<Session>, id: Id)
    requires DistinctIds(lru) && k < |lru| && lru[k].id == id
    requires r == Without(lru, k) || exists y: Session :: y.id == id && r == Without(lru, k) + [y]
    ensures Others(r, id) == Others(lru, id)
  {
    hide Without, DistinctIds, Others;
    if r == Without(lru, k) {
      EditKeepsOthers(lru, k, lru[k], r);
    } else {
      var y: Session :| y.id == id && r == Without(lru, k) + [y];
      EditKeepsOthers(lru, k, y, r);
    }
  }

  /** A step that is about one session leaves all others as they are, and in their order. */
  lemma OthersStay(s: State, step: Step, id: Id)
    requires Inv(s) && Enabled(s, step) && Concerns(s, step, id)
    ensures Others(Next(s, step).lru, id) == Others(s.lru, id)
  {
    hide Inv, DistinctIds, Others, Without, LatestMatch, OldestIdle, Position, Create, Purge;
    DistinctInPool(s);
    var (lru, r) := (s.lru, ReplyOf(s, step).lru);
    if r != lru {
      match step {
        case AcquireStep(key, reuseDirty, _, _) => MoveKeepsOthers(lru, LatestMatch(lru, key, reuseDirty), r, id);
        case FindStep(key, reuseDirty) => MoveKeepsOthers(lru, LatestMatch(lru, key, reuseDirty), r, id);
        case EvictStep => MoveKeepsOthers(lru, OldestIdle(lru), r, id);
        case BeginStep(_, _) => EditKeepsOthers(lru, Position(lru, id), r[Position(lru, id)], r);
        case EndStep(_, _) => EditKeepsOthers(lru, Position(lru, id), r[Position(lru, id)], r);
        case _ => MoveKeepsOthers(lru, Position(lru, id), r, id);
      }
    }
  }

  lemma {:induction false} TakenStays(s: State, steps: seq<Step>, id: Id)
    requires Inv(s) && IsRun(s, steps) && id in s.taken
    ensures Inv(After(s, steps)) && id in After(s, steps).taken
    decreases |steps|
  {
    hide Inv, Next, Enabled;
    InvBounds(s);
    if steps != [] {
      StepKeepsInv(s, steps[0]);
      StepOnlyAddsTaken(s, steps[0]);
      TakenStays(Next(s, steps[0]), steps[1..], id);
    }
  }

  lemma TakenIsOut(s: State, id: Id)
    requires Inv(s) && id in s.taken
    ensures Position(s.lru, id) == |s.lru| <= s.poolSize
  {
    IdSetHas(s.lru, id);
  }

  /** What has been taken out is not found by anybody, after any run. */
  lemma GoneForGood(s: State, steps: seq<Step>, id: Id, step: Step)
    requires Inv(s) && IsRun(s, steps) && id in s.taken
    requires Enabled(After(s, steps), step) && Names(step, id)
    ensures Inv(After(s, steps))
    ensures ReplyOf(After(s, steps), step) == Reply(After(s, steps).lru, NotFound, [], None)
  {
    hide IsRun, After;
    RunKeepsInv(s, steps);
    TakenStays(s, steps, id);
    var t := After(s, steps);
    TakenIsOut(t, id);
  }

  // ----- acquisition and creation --------------------------------------------------------------

  /** The session can be given to an acquisition with this key. */
  ghost predicate CanServe(s: State, x: Session, key: string, reuseDirty: bool) {
    Has(s, x) && !x.leased && x.key == key && (reuseDirty || !x.dirty)
  }

  /** And among those that can, it is the one that was used last. */
  ghost predicate ServesFirst(s: State, x: Session, key: string, reuseDirty: bool)
    requires Inv(s)
  {
    && CanServe(s, x, key, reuseDirty)
    && forall y | CanServe(s, y, key, reuseDirty) :: s.touch[y.id] <= s.touch[x.id]
  }

  lemma LatestServesFirst(s: State, key: string, reuseDirty: bool)
    requires Inv(s)
    ensures var k := LatestMatch(s.lru, key, reuseDirty);
      if k >= 0 then CanServe(s, s.lru[k], key, reuseDirty) && ServesFirst(s, s.lru[k], key, reuseDirty)
      else forall x :: !CanServe(s, x, key, reuseDirty)
  {
    hide Conserved, PendingOk, IdSet, DistinctIds;
    var k := LatestMatch(s.lru, key, reuseDirty);
    forall y | CanServe(s, y, key, reuseDirty)
      ensures k >= 0 && s.touch[y.id] <= s.touch[s.lru[k].id]
    {
      var j :| 0 <= j < |s.lru| && s.lru[j] == y;
      assert s.lru[j].Alive() && Matches(s.lru[j], key, reuseDirty);
      assert j <= k;
    }
  }

  /** An acquisition takes the open, unleased session with the key that was used last, and nothing exactly when there
      is none; all others are as before. */
  lemma AcquisitionTakes(s: State, key: string, reuseDirty: bool, token: Token, now: real)
    requires Inv(s) && Enabled(s, AcquireStep(key, reuseDirty, token, now))
    ensures var step := AcquireStep(key, reuseDirty, token, now);
      var (r, t) := (ReplyOf(s, step), Next(s, step));
      if exists x :: CanServe(s, x, key, reuseDirty) then
        exists x ::
          && ServesFirst(s, x, key, reuseDirty) && r.outcome == Granted(x.id)
          && t.lru == Others(s.lru, x.id) + [Session(x.id, key, false, true, Some(token), x.active, now, x.dirty)]
      else r.outcome == Nothing && t.lru == s.lru
  {
    hide Inv, Others, ServesFirst;
    LatestServesFirst(s, key, reuseDirty);
    var k := LatestMatch(s.lru, key, reuseDirty);
    if k >= 0 {
      PositionIs(s, s.lru[k]);
      DistinctInPool(s);
      WithoutIsOthers(s.lru, k);
    }
  }

  /** A lookup finds the same session; it moves to the end and is otherwise as before. */
  lemma LookupFinds(s: State, key: string, reuseDirty: bool)
    requires Inv(s) && Enabled(s, FindStep(key, reuseDirty))
    ensures var step := FindStep(key, reuseDirty);
      var (r, t) := (ReplyOf(s, step), Next(s, step));
      if exists x :: CanServe(s, x, key, reuseDirty) then
        exists x ::
          && ServesFirst(s, x, key, reuseDirty) && r.outcome == Granted(x.id)
          && t.lru == Others(s.lru, x.id) + [x] && t.touch == s.touch[x.id := s.clock]
      else r.outcome == Nothing && t.lru == s.lru
  {
    hide Inv, Others, ServesFirst;
    LatestServesFirst(s, key, reuseDirty);
    var k := LatestMatch(s.lru, key, reuseDirty);
    if k >= 0 {
      PositionIs(s, s.lru[k]);
      DistinctInPool(s);
      WithoutIsOthers(s.lru, k);
    }
  }

  /** A session that was created under a lease is held under it, and its holder gets it; one that was created without
      a lease is what the next acquisition with its key takes. */
  lemma CreatedIsUsable(s: State, id: Id, key: string, lease: Option<Token>, now: real, token: Token, now': real)
    requires Inv(s) && Enabled(s, CreateStep(id, key, lease, now)) && token != ""
    requires ReplyOf(s, CreateStep(id, key, lease, now)).outcome == Granted(id)
    ensures var t := Next(s, CreateStep(id, key, lease, now));
      && Inv(t) && t.pending == []
      && if lease.Some? then
           && Held(t, id, lease.value)
           && ReplyOf(t, GetStep(id, lease, true)).outcome == Granted(id)
         else
           forall reuseDirty :: ReplyOf(t, AcquireStep(key, reuseDirty, token, now')).outcome == Granted(id)
  {
    var step := CreateStep(id, key, lease, now);
    var t := Next(s, step);
    StepKeepsInv(s, step);
    CreationEvictsLeastRecentlyUsed(s, step);
    var x := t.lru[|t.lru| - 1];
    if lease.Some? {
      GrantIsHeld(s, step, id, lease.value);
      HolderGets(t, x, lease.value);
    } else {
      LastMatches(t.lru, x, key, true);
      LastMatches(t.lru, x, key, false);
    }
  }

  // ----- requests ------------------------------------------------------------------------------

  /** While a request is at work neither release nor close gets at the session; when it has ended, the session is as
      before, save the time of its last use and its history. */
  lemma RequestKeepsBusy(s: State, x: Session, token: Token, now: real, dirty: bool, arrived: nat)
    requires Inv(s) && Has(s, x) && Held(s, x.id, token) && s.pending == []
    ensures var t := Next(s, BeginStep(x.id, now));
      && Inv(t) && t.pending == [] && Others(t.lru, x.id) == Others(s.lru, x.id)
      && ReplyOf(t, ReleaseStep(x.id, token, now)).outcome == Busy
      && ReplyOf(t, CloseStep(x.id, Some(token), true, arrived, now)).outcome == Busy
      && var u := Next(t, EndStep(x.id, dirty));
         Inv(u) && Has(u, x.(lastActivity := now, dirty := dirty)) && Others(u.lru, x.id) == Others(s.lru, x.id)
  {
    hide Inv, Others, Held;
    PositionIs(s, x);
    HeldBy(s, x, token);
    var k := Position(s.lru, x.id);
    var y := x.(active := x.active + 1, lastActivity := now);
    var t := Next(s, BeginStep(x.id, now));
    StepKeepsInv(s, BeginStep(x.id, now));
    assert t.lru == s.lru[k := y] && t.lru[k] == y;
    OthersOfUpdate(s.lru, k, y);
    PositionIs(t, y);
    HeldBy(t, y, token);
    var z := x.(lastActivity := now, dirty := dirty);
    StepKeepsInv(t, EndStep(x.id, dirty));
    var u := Next(t, EndStep(x.id, dirty));
    assert Position(t.lru, x.id) == k;
    assert u.lru == t.lru[k := z] && u.lru[k] == z;
    OthersOfUpdate(t.lru, k, z);
  }
}
