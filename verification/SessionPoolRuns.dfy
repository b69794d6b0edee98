/** What holds over every run of the session pool: its size, the fate of every session, the LRU order and the
    exclusiveness of leases. */
module SessionPoolRuns {
  import opened Text
  import opened SessionPool

  // ----- sets of ids under the edits that steps make -------------------------------------------

  lemma IdSetHas(lru: seq<Session>, id: Id)
    ensures id in IdSet(lru) <==> exists k :: 0 <= k < |lru| && lru[k].id == id
  {
  }

  lemma IdSetWithout(lru: seq<Session>, k: nat)
    requires k < |lru| && DistinctIds(lru)
    ensures IdSet(Without(lru, k)) == IdSet(lru) - {lru[k].id}
    ensures DistinctIds(Without(lru, k))
  {
    var r := Without(lru, k);
    forall id
      ensures id in IdSet(r) <==> id in IdSet(lru) - {lru[k].id}
    {
      if id in IdSet(lru) && id != lru[k].id {
        var j :| 0 <= j < |lru| && lru[j].id == id;
        assert r[if j < k then j else j - 1].id == id;
      }
      if id in IdSet(r) {
        var j :| 0 <= j < |r| && r[j].id == id;
        assert lru[if j < k then j else j + 1].id == id;
      }
    }
  }

  lemma IdSetAppend(lru: seq<Session>, x: Session)
    ensures IdSet(lru + [x]) == IdSet(lru) + {x.id}
    ensures DistinctIds(lru) && x.id !in IdSet(lru) ==> DistinctIds(lru + [x])
  {
    var r := lru + [x];
    assert r[|lru|] == x;
    forall id
      ensures id in IdSet(r) <==> id in IdSet(lru) + {x.id}
    {
      if id in IdSet(lru) {
        var j :| 0 <= j < |lru| && lru[j].id == id;
        assert r[j].id == id;
      }
    }
  }

  lemma IdSetUpdate(lru: seq<Session>, k: nat, x: Session)
    requires k < |lru| && x.id == lru[k].id
    ensures IdSet(lru[k := x]) == IdSet(lru)
    ensures DistinctIds(lru) ==> DistinctIds(lru[k := x])
  {
    var r := lru[k := x];
    forall id
      ensures id in IdSet(r) <==> id in IdSet(lru)
    {
      if id in IdSet(lru) {
        var j :| 0 <= j < |lru| && lru[j].id == id;
        assert r[j].id == id;
      }
    }
  }

  // ----- each kind of edit keeps the invariant -------------------------------------------------

  lemma KeepUpdate(s: State, k: nat, x: Session)
    requires Inv(s) && k < |s.lru| && x.id == s.lru[k].id && x.Alive() && x.leased == s.lru[k].leased
    ensures Inv(Apply(s, Reply(s.lru[k := x], Nothing, [], None)))
  {
    IdSetUpdate(s.lru, k, x);
    var t := Apply(s, Reply(s.lru[k := x], Nothing, [], None));
    assert t.taken == s.taken && t.limbo == s.limbo;
    assert forall j | 0 <= j < |s.lru| :: t.lru[j].id == s.lru[j].id && t.lru[j].leased == s.lru[j].leased;
  }

  lemma KeepMove(s: State, k: nat, x: Session, o: Outcome)
    requires Inv(s) && k < |s.lru| && x.id == s.lru[k].id && x.Alive()
    requires x.leased && !s.lru[k].leased ==> s.pending == []
    ensures Inv(Apply(s, Reply(Without(s.lru, k) + [x], o, [], Some(x.id))))
  {
    var rest := Without(s.lru, k);
    var t := Apply(s, Reply(rest + [x], o, [], Some(x.id)));
    IdSetWithout(s.lru, k);
    IdSetAppend(rest, x);
    assert t.taken == s.taken && t.limbo == s.limbo && IdSet(t.lru) == IdSet(s.lru);
    IdSetHas(s.lru, x.id);
    assert OrderedByUse(t) by {
      forall j | 0 <= j < |rest|
        ensures rest[j].id != x.id && t.touch[rest[j].id] < s.clock
      {
        assert rest[j] == s.lru[if j < k then j else j + 1];
      }
    }
    assert PendingOk(t);
  }

  lemma KeepRemove(s: State, k: nat, y: Session, o: Outcome)
    requires Inv(s) && k < |s.lru| && y.id == s.lru[k].id
    ensures Inv(Apply(s, Reply(Without(s.lru, k), o, [y], None)))
  {
    var r := Reply(Without(s.lru, k), o, [y], None);
    var t := Apply(s, r);
    IdSetWithout(s.lru, k);
    IdSetHas(s.lru, y.id);
    assert IdSet([y]) == {y.id} by {
      assert [y][0] == y;
    }
    assert Ids([y]) == [y.id] && t.taken == s.taken + [y.id];
    assert y.id !in s.taken;
    assert Conserved(t);
  }

  lemma KeepAppend(s: State, x: Session, o: Outcome)
    requires Inv(s) && |s.lru| < s.poolSize && x.id !in s.built && x.Alive() && s.pending == []
    ensures Inv(Apply(s, Reply(s.lru + [x], o, [], Some(x.id))).(built := s.built + {x.id}))
  {
    var t := Apply(s, Reply(s.lru + [x], o, [], Some(x.id))).(built := s.built + {x.id});
    IdSetAppend(s.lru, x);
    assert t.taken == s.taken && t.limbo == s.limbo;
    forall j | 0 <= j < |s.lru|
      ensures s.lru[j].id != x.id
    {
      IdSetHas(s.lru, s.lru[j].id);
    }
  }

  lemma KeepRefuse(s: State, x: Session)
    requires Inv(s) && x.id !in s.built
    ensures Inv(Apply(s, Reply(s.lru, PoolExhausted, [x], None)).(built := s.built + {x.id}))
  {
    var t := Apply(s, Reply(s.lru, PoolExhausted, [x], None)).(built := s.built + {x.id});
    assert IdSet([x]) == {x.id} by {
      assert [x][0] == x;
    }
    assert t.taken == s.taken + [x.id];
    assert x.id !in s.taken;
  }

  lemma KeepPurge(s: State)
    requires Inv(s)
    ensures Inv(Apply(s, Purge(s.lru)))
  {
    var t := Apply(s, Purge(s.lru));
    forall i, j | 0 <= i < j < |t.taken|
      ensures t.taken[i] != t.taken[j]
    {
      var n := |s.taken|;
      if j >= n {
        IdSetHas(s.lru, s.lru[j - n].id);
        assert t.taken[j] == s.lru[j - n].id;
        if i >= n {
          assert t.taken[i] == s.lru[i - n].id;
        } else {
          assert t.taken[i] == s.taken[i] && s.taken[i] in s.taken;
        }
      }
    }
    forall id
      ensures id in t.taken <==> id in s.taken || id in IdSet(s.lru)
    {
      if id in IdSet(s.lru) {
        var k :| 0 <= k < |s.lru| && s.lru[k].id == id;
        assert t.taken[|s.taken| + k] == id;
      }
    }
  }

  // ----- every step keeps the invariant --------------------------------------------------------

  lemma CreateKeeps(s: State, step: Step)
    requires Inv(s) && Enabled(s, step) && step.CreateStep?
    ensures Inv(Next(s, step))
  {
    var x := NewSession(step.id, step.key, step.lease, step.now);
    var k := OldestIdle(s.lru);
    if |s.lru| < s.poolSize {
      KeepAppend(s, x, Granted(x.id));
    } else if k < |s.lru| {
      var mid := Apply(s, Reply(Without(s.lru, k), Nothing, [s.lru[k]], None));
      KeepRemove(s, k, s.lru[k], Nothing);
      KeepAppend(mid, x, Granted(x.id));
    } else {
      KeepRefuse(s, x);
    }
  }

  lemma NothingChanges(s: State, r: Reply)
    requires r.lru == s.lru && r.out == [] && r.touched.None?
    ensures Apply(s, r) == s
  {
    assert IdSet([]) == {} && Ids([]) == [];
  }

  lemma CloseKeeps(s: State, id: Id, token: Option<Token>, requireLease: bool, arrived: nat, now: real)
    requires Inv(s)
    ensures Inv(Apply(s, Close(s.lru, id, token, requireLease, arrived, now)))
  {
    var k := Position(s.lru, id);
    var r := Close(s.lru, id, token, requireLease, arrived, now);
    if r.out != [] {
      KeepRemove(s, k, r.out[0], Granted(id));
    } else if r.touched.Some? {
      KeepMove(s, k, s.lru[k].(active := arrived, lastActivity := now), Busy);
    } else {
      NothingChanges(s, r);
    }
  }

  lemma InvBounds(s: State)
    requires Inv(s)
    ensures |s.lru| <= s.poolSize
  {
  }

  lemma InvAlive(s: State)
    requires Inv(s)
    ensures AllAlive(s.lru)
  {
  }

  lemma MatchKeeps(s: State, key: string, reuseDirty: bool, step: Step)
    requires Inv(s) && Enabled(s, step)
    requires (step.AcquireStep? && step.key == key && step.reuseDirty == reuseDirty)
               || step == FindStep(key, reuseDirty)
    ensures Inv(Next(s, step))
  {
    hide OrderedByUse, Conserved, DistinctIds, PendingOk;
    var k := LatestMatch(s.lru, key, reuseDirty);
    if k < 0 {
      NothingChanges(s, ReplyOf(s, step));
    } else {
      KeepMove(s, k, if step.AcquireStep? then s.lru[k].WithLease(step.token, step.now)
          else s.lru[k], Granted(s.lru[k].id));
    }
  }

  lemma DropPending(s: State)
    requires Inv(s) && s.pending != []
    ensures Inv(s.(pending := s.pending[1..]))
  {
  }

  lemma ScanKeeps(s: State, now: real, idleTimeout: real, maxLeaseAge: real)
    requires Inv(s)
    ensures Inv(s.(pending := Scan(s.lru, now, idleTimeout, maxLeaseAge)))
  {
  }

  lemma ClosedKeeps(s: State, id: Id)
    requires Inv(s) && id in s.limbo
    ensures Inv(s.(limbo := s.limbo - {id}, closed := s.closed + {id}))
  {
  }

  lemma UseKeeps(s: State, step: Step, id: Id)
    requires Inv(s) && (step.BeginStep? || step.EndStep?) && step.id == id
    ensures Inv(Next(s, step))
  {
    hide OrderedByUse, Conserved, DistinctIds, PendingOk;
    var k := Position(s.lru, id);
    var r := ReplyOf(s, step);
    if k == |s.lru| {
      NothingChanges(s, r);
    } else {
      KeepUpdate(s, k, r.lru[k]);
      assert s.lru[k := r.lru[k]] == r.lru;
    }
  }

  lemma StepKeepsInv(s: State, step: Step)
    requires Inv(s) && Enabled(s, step)
    ensures Inv(Next(s, step))
  {
    hide Inv;
    assert |s.lru| <= s.poolSize by { InvBounds(s); }
    var r := ReplyOf(s, step);
    match step {
      case CreateStep(_, _, _, _) => CreateKeeps(s, step);
      case AcquireStep(key, reuseDirty, token, now) =>
        MatchKeeps(s, key, reuseDirty, step);
      case FindStep(key, reuseDirty) =>
        MatchKeeps(s, key, reuseDirty, step);
      case ReleaseStep(id, token, now) =>
        InvAlive(s);
        if r.touched.Some? {
          KeepMove(s, Position(s.lru, id), s.lru[Position(s.lru, id)].WithoutLease(now), r.outcome);
        } else {
          NothingChanges(s, r);
        }
      case GetStep(id, token, requireLease) =>
        InvAlive(s);
        if r.touched.Some? {
          KeepMove(s, Position(s.lru, id), s.lru[Position(s.lru, id)], r.outcome);
        } else {
          NothingChanges(s, r);
        }
      case CloseStep(id, token, requireLease, arrived, now) =>
        CloseKeeps(s, id, token, requireLease, arrived, now);
      case EvictStep =>
        if r.out != [] {
          KeepRemove(s, OldestIdle(s.lru), r.out[0], r.outcome);
        } else {
          NothingChanges(s, r);
        }
      case PurgeStep => KeepPurge(s);
      case ReapStep(arrived, now) =>
        CloseKeeps(s, s.pending[0].id, None, false, arrived, now);
        DropPending(Apply(s, r));
      case ScanStep(now, idleTimeout, maxLeaseAge) =>
        NothingChanges(s, r);
        ScanKeeps(s, now, idleTimeout, maxLeaseAge);
      case ClosedStep(id) =>
        NothingChanges(s, r);
        ClosedKeeps(s, id);
      case BeginStep(id, now) => UseKeeps(s, step, id);
      case EndStep(id, dirty) => UseKeeps(s, step, id);
    }
  }

  // ----- runs ----------------------------------------------------------------------------------

  /** Every step of the run is enabled when it is taken. */
  ghost predicate IsRun(s: State, steps: seq<Step>)
    requires Inv(s)
    decreases |steps|
  {
    steps == [] || (Enabled(s, steps[0]) && (StepKeepsInv(s, steps[0]); IsRun(Next(s, steps[0]), steps[1..])))
  }

  ghost function After(s: State, steps: seq<Step>): State
    requires Inv(s) && IsRun(s, steps)
    decreases |steps|
  {
    if steps == [] then s
    else
      StepKeepsInv(s, steps[0]);
      After(Next(s, steps[0]), steps[1..])
  }

  lemma StartIsInv(poolSize: nat)
    ensures Inv(Start(poolSize))
  {
    assert IdSet([]) == {};
  }

  /** Over every run from the empty pool: the pool is never over its size, its order is the order of last use,
      each session built is open and in the pool or was taken out exactly once, and none is closed inside. */
  lemma {:induction false} RunKeepsInv(s: State, steps: seq<Step>)
    requires Inv(s) && IsRun(s, steps)
    ensures Inv(After(s, steps))
    decreases |steps|
  {
    if steps != [] {
      StepKeepsInv(s, steps[0]);
      RunKeepsInv(Next(s, steps[0]), steps[1..]);
    }
  }

  /** After every run from the empty pool: each session built is either in the pool, open and never taken out, or
      it is not in the pool and was taken out exactly once; only those taken out are closed. */
  lemma EachSessionIsTakenOutOnce(poolSize: nat, steps: seq<Step>, id: Id)
    requires Inv(Start(poolSize)) && IsRun(Start(poolSize), steps)
    ensures var t := After(Start(poolSize), steps);
      && |t.lru| <= t.poolSize
      && (id in t.built <==> id in IdSet(t.lru) || id in t.taken)
      && !(id in IdSet(t.lru) && id in t.taken)
      && (forall i, j | 0 <= i < j < |t.taken| :: t.taken[i] != t.taken[j])
      && (id in t.closed ==> id in t.taken)
      && (forall k | 0 <= k < |t.lru| :: !t.lru[k].closed)
  {
    RunKeepsInv(Start(poolSize), steps);
    hide OrderedByUse, PendingOk, DistinctIds, IdSet, IsRun;
    var t := After(Start(poolSize), steps);
    assert id in t.taken <==> id in t.limbo + t.closed;
    assert forall k | 0 <= k < |t.lru| :: t.lru[k].Alive();
  }

  /** Sessions taken out stay out, and what a step takes out is added at the end of the list. */
  lemma StepOnlyAddsTaken(s: State, step: Step)
    requires Inv(s) && Enabled(s, step)
    ensures Next(s, step).taken == s.taken + Ids(ReplyOf(s, step).out)
    ensures forall id | id in s.taken :: id !in IdSet(Next(s, step).lru)
  {
    StepKeepsInv(s, step);
    hide OrderedByUse, PendingOk, DistinctIds, AllAlive, IdSet;
    var t := Next(s, step);
    forall id | id in s.taken
      ensures id !in IdSet(t.lru)
    {
      assert id in t.taken;
      assert id in t.limbo + t.closed;
    }
  }

  // ----- capacity ------------------------------------------------------------------------------

  /** `victim` is idle, no other idle session of the pool has been unused for longer, and `rest` is the pool
      without it. */
  ghost predicate IsLeastRecentlyUsed(s: State, victim: Session, rest: seq<Session>)
    requires Inv(s)
  {
    victim.Idle() && exists k ::
      && 0 <= k < |s.lru| && s.lru[k] == victim && rest == Without(s.lru, k)
      && forall j | 0 <= j < |s.lru| && j != k && s.lru[j].Idle() :: s.touch[victim.id] < s.touch[s.lru[j].id]
  }

  /** A creation is refused exactly when the pool is full and nobody in it is idle; then the pool is left as it
      was. Otherwise the new session ends up last, and at most one session has to go: the idle one that has not
      been used for the longest time. */
  lemma CreationEvictsLeastRecentlyUsed(s: State, step: Step)
    requires Inv(s) && Enabled(s, step) && step.CreateStep?
    ensures var r := ReplyOf(s, step);
      var full := |s.lru| == s.poolSize;
      var idle := exists k :: 0 <= k < |s.lru| && s.lru[k].Idle();
      && (r.outcome == PoolExhausted <==> full && !idle)
      && (r.outcome == PoolExhausted ==> r.lru == s.lru && Ids(r.out) == [step.id])
      && (r.outcome != PoolExhausted ==>
            && r.lru != [] && r.lru[|r.lru| - 1] == NewSession(step.id, step.key, step.lease, step.now)
            && (!full ==> r.out == [] && r.lru[..|r.lru| - 1] == s.lru)
            && (full ==> |r.out| == 1 && IsLeastRecentlyUsed(s, r.out[0], r.lru[..|r.lru| - 1])))
  {
    hide PendingOk, Conserved, IdSet;
    var r := ReplyOf(s, step);
    var k := OldestIdle(s.lru);
    if |s.lru| == s.poolSize && k < |s.lru| {
      assert s.lru[k] == r.out[0] && r.lru[..|r.lru| - 1] == Without(s.lru, k);
    }
  }

  /** An eviction, whatever runs before and after it, takes the idle session that has not been used for the longest
      time, and nothing exactly when nobody is idle. */
  lemma EvictionTakesLeastRecentlyUsed(s: State)
    requires Inv(s)
    ensures var r := EvictIdle(s.lru);
      if exists k :: 0 <= k < |s.lru| && s.lru[k].Idle() then
        |r.out| == 1 && IsLeastRecentlyUsed(s, r.out[0], r.lru)
      else
        r.lru == s.lru && r.out == []
  {
    hide PendingOk, Conserved, IdSet;
    var k := OldestIdle(s.lru);
    if k < |s.lru| {
      assert EvictIdle(s.lru).lru == Without(s.lru, k);
    }
  }

  // ----- leases are exclusive ------------------------------------------------------------------

  /** The session is in the pool under this lease, and the reaper is not about to close it. */
  ghost predicate Held(s: State, id: Id, token: Token) {
    && (exists k :: 0 <= k < |s.lru| && s.lru[k].id == id && s.lru[k].leased && s.lru[k].leaseId == Some(token))
    && (forall d | d in s.pending :: d.id != id)
  }

  /** The steps that may end a lease: release or close with its token, a close that asks for no token, recovery or
      shutdown, and a reaper's scan that finds the session idle for longer than the maximal age of a lease. */
  ghost predicate MayEnd(s: State, step: Step, id: Id, token: Token) {
    || (step.ReleaseStep? && step.id == id && step.token == token)
    || (step.CloseStep? && step.id == id && (step.requireLease ==> step.tokenGiven == Some(token)))
    || step.PurgeStep?
    || (step.ScanStep? && exists k ::
          && 0 <= k < |s.lru| && s.lru[k].id == id
          && step.now - s.lru[k].lastActivity > step.maxLeaseAge)
  }

  /** A reply that leaves the holder alone: its session is in the pool under the same lease, and it is not among
      those taken out. */
  ghost predicate Leaves(r: Reply, id: Id, token: Token) {
    && (exists k :: 0 <= k < |r.lru| && r.lru[k].id == id && r.lru[k].leased && r.lru[k].leaseId == Some(token))
    && (forall x | x in r.out :: x.id != id)
  }

  /** The holder's session is at `h`. */
  ghost predicate HolderAt(lru: seq<Session>, h: nat, id: Id, token: Token) {
    && h < |lru| && lru[h].id == id && lru[h].leased && lru[h].leaseId == Some(token)
    && forall k | 0 <= k < |lru| :: lru[k].id == id <==> k == h
  }

  /** Dropping or moving another session leaves the holder's in the pool. */
  lemma WithoutLeaves(lru: seq<Session>, k: nat, tail: seq<Session>, h: nat, id: Id, token: Token, r: Reply)
    requires HolderAt(lru, h, id, token) && k < |lru| && k != h && r.lru == Without(lru, k) + tail
    requires forall x | x in r.out :: x.id != id
    ensures Leaves(r, id, token)
  {
    var j := if h < k then h else h - 1;
    assert r.lru[j] == lru[h];
  }

  lemma CreateLeaves(lru: seq<Session>, poolSize: nat, x: Session, h: nat, id: Id, token: Token)
    requires HolderAt(lru, h, id, token) && |lru| <= poolSize && x.id != id
    ensures Leaves(Create(lru, poolSize, x), id, token) && Create(lru, poolSize, x).outcome != Granted(id)
  {
    var k := OldestIdle(lru);
    var r := Create(lru, poolSize, x);
    if |lru| == poolSize && k < |lru| {
      WithoutLeaves(lru, k, [x], h, id, token, r);
    } else {
      assert r.lru[h] == lru[h];
    }
  }

  lemma MatchLeaves(lru: seq<Session>, key: string, reuseDirty: bool, t: Token, now: real, h: nat, id: Id, token: Token)
    requires HolderAt(lru, h, id, token)
    ensures Leaves(Acquire(lru, key, reuseDirty, t, now), id, token) && Leaves(Find(lru, key, reuseDirty), id, token)
    ensures Acquire(lru, key, reuseDirty, t, now).outcome != Granted(id)
    ensures Find(lru, key, reuseDirty).outcome != Granted(id)
  {
    var k := LatestMatch(lru, key, reuseDirty);
    if k >= 0 {
      WithoutLeaves(lru, k, [lru[k].WithLease(t, now)], h, id, token, Acquire(lru, key, reuseDirty, t, now));
      WithoutLeaves(lru, k, [lru[k]], h, id, token, Find(lru, key, reuseDirty));
    }
  }

  lemma ReleaseLeaves(lru: seq<Session>, i: Id, t: Token, now: real, h: nat, id: Id, token: Token)
    requires HolderAt(lru, h, id, token) && !(i == id && t == token)
    ensures Leaves(Release(lru, i, t, now), id, token)
  {
    var r := Release(lru, i, t, now);
    var k := Position(lru, i);
    if r.touched.Some? {
      WithoutLeaves(lru, k, [lru[k].WithoutLease(now)], h, id, token, r);
    }
  }

  lemma GetLeaves(lru: seq<Session>, i: Id, t: Option<Token>, requireLease: bool, h: nat, id: Id, token: Token)
    requires HolderAt(lru, h, id, token)
    ensures Leaves(Get(lru, i, t, requireLease), id, token)
  {
    var r := Get(lru, i, t, requireLease);
    var k := Position(lru, i);
    if r.touched.Some? && k != h {
      WithoutLeaves(lru, k, [lru[k]], h, id, token, r);
    } else if r.touched.Some? {
      assert r.lru[|r.lru| - 1] == lru[h];
    }
  }

  lemma CloseLeaves(lru: seq<Session>, i: Id, t: Option<Token>, requireLease: bool, arrived: nat, now: real, h: nat,
                    id: Id, token: Token)
    requires HolderAt(lru, h, id, token) && !(i == id && (requireLease ==> t == Some(token)))
    ensures Leaves(Close(lru, i, t, requireLease, arrived, now), id, token)
  {
    var r := Close(lru, i, t, requireLease, arrived, now);
    var k := Position(lru, i);
    if r.out != [] {
      WithoutLeaves(lru, k, [], h, id, token, r);
    } else if r.touched.Some? {
      WithoutLeaves(lru, k, [lru[k].(active := arrived, lastActivity := now)], h, id, token, r);
    }
  }

  lemma EvictLeaves(lru: seq<Session>, h: nat, id: Id, token: Token)
    requires HolderAt(lru, h, id, token)
    ensures Leaves(EvictIdle(lru), id, token)
  {
    var k := OldestIdle(lru);
    if k < |lru| {
      WithoutLeaves(lru, k, [], h, id, token, EvictIdle(lru));
    }
  }

  lemma UseLeaves(s: State, step: Step, h: nat, id: Id, token: Token)
    requires Enabled(s, step) && |s.lru| <= s.poolSize && (step.BeginStep? || step.EndStep?)
    requires HolderAt(s.lru, h, id, token)
    ensures Leaves(ReplyOf(s, step), id, token)
  {
    var r := ReplyOf(s, step);
    assert r.lru[h].id == id && r.lru[h].leased && r.lru[h].leaseId == Some(token);
  }

  lemma HolderIsThere(s: State, id: Id, token: Token) returns (h: nat)
    requires Inv(s) && Held(s, id, token)
    ensures HolderAt(s.lru, h, id, token) && id in s.built && |s.lru| <= s.poolSize
  {
    h :| 0 <= h < |s.lru| && s.lru[h].id == id && s.lru[h].leased && s.lru[h].leaseId == Some(token);
    IdSetHas(s.lru, id);
  }

  lemma ScanSpares(s: State, step: Step, h: nat, id: Id, token: Token)
    requires HolderAt(s.lru, h, id, token) && step.ScanStep? && !MayEnd(s, step, id, token)
    ensures forall d | d in Scan(s.lru, step.now, step.idleTimeout, step.maxLeaseAge) :: d.id != id
  {
  }

  /** A step that asks for the session with another token, or with none where one is asked for. */
  predicate WithAnotherToken(step: Step, id: Id, token: Token) {
    || (step.GetStep? && step.id == id && step.requireLease && step.tokenGiven != Some(token))
    || (step.CloseStep? && step.id == id && step.requireLease && step.tokenGiven != Some(token))
    || (step.ReleaseStep? && step.id == id && step.token != token)
  }

  /** Whoever asks so is refused, and the pool stays as it was. */
  lemma OthersAreRefused(s: State, step: Step, id: Id, token: Token)
    requires Inv(s) && Enabled(s, step) && Held(s, id, token) && WithAnotherToken(step, id, token)
    ensures ReplyOf(s, step) == Reply(s.lru, LeaseError, [], None)
  {
    InvAlive(s);
    var h := HolderIsThere(s, id, token);
    hide Inv, Conserved, OrderedByUse, PendingOk, IdSet;
    assert Position(s.lru, id) == h;
  }

  /** While the lease lasts, no step hands the session to anybody else, nobody gets at it with another token, and none
      takes it out. */
  lemma StepKeepsLease(s: State, step: Step, id: Id, token: Token)
    requires Inv(s) && Enabled(s, step) && Held(s, id, token) && !MayEnd(s, step, id, token)
    ensures Held(Next(s, step), id, token)
    ensures (step.AcquireStep? || step.FindStep?) ==> ReplyOf(s, step).outcome != Granted(id)
    ensures forall x | x in ReplyOf(s, step).out :: x.id != id
    ensures WithAnotherToken(step, id, token) ==> ReplyOf(s, step) == Reply(s.lru, LeaseError, [], None)
  {
    hide Inv, HolderAt, WithAnotherToken, IdSet, Ids, Scan, Create, Acquire, Find, Release, Get, Close, EvictIdle,
        Position;
    var h := HolderIsThere(s, id, token);
    var r := ReplyOf(s, step);
    assert Leaves(r, id, token) by {
      match step {
        case CreateStep(i, key, lease, now) => CreateLeaves(s.lru, s.poolSize, NewSession(i, key, lease, now), h, id,
            token);
        case AcquireStep(key, reuseDirty, t, now) => MatchLeaves(s.lru, key, reuseDirty, t, now, h, id, token);
        case FindStep(key, reuseDirty) => MatchLeaves(s.lru, key, reuseDirty, "", 0.0, h, id, token);
        case ReleaseStep(i, t, now) => ReleaseLeaves(s.lru, i, t, now, h, id, token);
        case GetStep(i, t, requireLease) => GetLeaves(s.lru, i, t, requireLease, h, id, token);
        case CloseStep(i, t, requireLease, arrived, now) => CloseLeaves(s.lru, i, t, requireLease, arrived, now, h,
            id, token);
        case EvictStep => EvictLeaves(s.lru, h, id, token);
        case ReapStep(arrived, now) => CloseLeaves(s.lru, s.pending[0].id, None, false, arrived, now, h, id, token);
        case BeginStep(_, _) => UseLeaves(s, step, h, id, token);
        case EndStep(_, _) => UseLeaves(s, step, h, id, token);
        case _ =>
      }
    }
    if WithAnotherToken(step, id, token) {
      OthersAreRefused(s, step, id, token);
    }
    match step {
      case AcquireStep(key, reuseDirty, t, now) => MatchLeaves(s.lru, key, reuseDirty, t, now, h, id, token);
      case FindStep(key, reuseDirty) => MatchLeaves(s.lru, key, reuseDirty, "", 0.0, h, id, token);
      case ScanStep(_, _, _) => ScanSpares(s, step, h, id, token);
      case _ =>
    }
  }

  /** A lease begins when `Acquire` or `Create` grants it. */
  lemma GrantIsHeld(s: State, step: Step, id: Id, token: Token)
    requires Inv(s) && Enabled(s, step)
    requires (step.AcquireStep? && step.token == token) || (step.CreateStep? && step.lease == Some(token))
    requires ReplyOf(s, step).outcome == Granted(id)
    ensures Held(Next(s, step), id, token)
  {
    InvBounds(s);
    hide Inv, IdSet, Ids;
    var r := ReplyOf(s, step);
    var x := r.lru[|r.lru| - 1];
    assert x.id == id && x.leased && x.leaseId == Some(token);
  }

  /** The state before step number `k` of a run. */
  ghost function StateAt(s: State, steps: seq<Step>, k: nat): (t: State)
    requires Inv(s) && IsRun(s, steps) && k <= |steps|
    ensures Inv(t)
    decreases k
  {
    if k == 0 then s
    else
      StepKeepsInv(s, steps[0]);
      StateAt(Next(s, steps[0]), steps[1..], k - 1)
  }

  /** It is the state after the first `k` steps, which are a run of their own, and the step can be taken there. */
  lemma {:induction false} StateAtIsAfter(s: State, steps: seq<Step>, k: nat)
    requires Inv(s) && IsRun(s, steps) && k <= |steps|
    ensures IsRun(s, steps[..k]) && After(s, steps[..k]) == StateAt(s, steps, k)
    ensures k < |steps| ==> Enabled(StateAt(s, steps, k), steps[k])
    decreases k
  {
    hide Inv, Enabled, Next;
    if k > 0 {
      InvBounds(s);
      StepKeepsInv(s, steps[0]);
      StateAtIsAfter(Next(s, steps[0]), steps[1..], k - 1);
      assert steps[..k][1..] == steps[1..][..k - 1] && steps[..k][0] == steps[0];
    } else {
      assert steps[..0] == [];
    }
  }

  lemma {:induction false} LeaseLasts(s: State, steps: seq<Step>, id: Id, token: Token, n: nat)
    requires Inv(s) && IsRun(s, steps) && Held(s, id, token) && n < |steps|
    requires forall k | 0 <= k < n :: !MayEnd(StateAt(s, steps, k), steps[k], id, token)
    ensures Held(StateAt(s, steps, n), id, token)
    decreases n
  {
    hide Inv, Held, MayEnd, Next, Enabled;
    if n > 0 {
      InvBounds(s);
      var t := Next(s, steps[0]);
      StepKeepsInv(s, steps[0]);
      assert !MayEnd(StateAt(s, steps, 0), steps[0], id, token);
      StepKeepsLease(s, steps[0], id, token);
      forall k | 0 <= k < n - 1
        ensures !MayEnd(StateAt(t, steps[1..], k), steps[1..][k], id, token)
      {
        assert StateAt(t, steps[1..], k) == StateAt(s, steps, k + 1);
        assert !MayEnd(StateAt(s, steps, k + 1), steps[k + 1], id, token);
      }
      LeaseLasts(t, steps[1..], id, token, n - 1);
    }
  }

  /** From a state in which a lease is held until a step that may end it, over every run: the session stays in the
      pool under that lease, no step hands it to anybody else, nobody gets at it with another token, and none takes
      it out. */
  lemma {:induction false} LeaseIsExclusive(s: State, steps: seq<Step>, id: Id, token: Token, n: nat)
    requires Inv(s) && IsRun(s, steps) && Held(s, id, token) && n < |steps|
    requires forall k | 0 <= k <= n :: !MayEnd(StateAt(s, steps, k), steps[k], id, token)
    ensures var (before, step) := (StateAt(s, steps, n), steps[n]);
      && Enabled(before, step) && Held(before, id, token) && Held(Next(before, step), id, token)
      && (forall x | x in ReplyOf(before, step).out :: x.id != id)
      && (step.AcquireStep? || step.FindStep? ==> ReplyOf(before, step).outcome != Granted(id))
      && (WithAnotherToken(step, id, token) ==> ReplyOf(before, step) == Reply(before.lru, LeaseError, [], None))
    decreases n
  {
    hide Inv, Held, MayEnd, Next, Enabled, ReplyOf, WithAnotherToken;
    StateAtIsAfter(s, steps, n);
    InvBounds(StateAt(s, steps, n));
    LeaseLasts(s, steps, id, token, n);
    StepKeepsLease(StateAt(s, steps, n), steps[n], id, token);
  }
}
