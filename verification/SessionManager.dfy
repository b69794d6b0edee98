/** The session objects and the manager of server/app/services/session.py, session_manager.py and
    session_manager_helpers.py. Every method of the manager takes the steps of the SessionPool machine that its
    contract names. */
module SessionManager {
  import opened Text
  import opened SessionPool
  import opened SessionPoolRuns
  import opened PoolMaintenance

  class IsabelleSession {
    const sessionId: Id
    const dependencyKey: string
    var closed: bool
    var leased: bool
    var leaseId: Option<Token>
    var activeRequests: nat
    var lastActivity: real
    var commandHistory: seq<string>

    ghost function View(): Session
      reads this
    {
      Session(sessionId, dependencyKey, closed, leased, leaseId, activeRequests, lastActivity, commandHistory != [])
    }

    constructor (sessionId: Id, dependencyKey: string, now: real)
      ensures View() == NewSession(sessionId, dependencyKey, None, now)
    {
      this.sessionId, this.dependencyKey := sessionId, dependencyKey;
      closed, leased, leaseId := false, false, None;
      activeRequests, lastActivity, commandHistory := 0, now, [];
    }

    method TryAcquireLease(token: Token, now: real) returns (ok: bool)
      modifies this
      ensures ok == !old(leased)
      ensures View() == if ok then old(View()).WithLease(token, now) else old(View())
    {
      if leased {
        return false;
      }
      leased, leaseId := true, Some(token);
      lastActivity := now;
      return true;
    }

    method RequireLease(token: Option<Token>) returns (ok: bool)
      ensures ok == View().Holds(token)
    {
      if !leased || leaseId == None || leaseId == Some("") {
        return false;
      }
      if token == None || token == Some("") {
        return false;
      }
      return leaseId == token;
    }

    method ReleaseLease(now: real)
      modifies this
      ensures View() == old(View()).WithoutLease(now)
    {
      leased, leaseId := false, None;
      lastActivity := now;
    }

    /** `requests` requests begin: `update_activity` and `_acquire_request`. */
    method AcquireRequests(requests: nat, now: real)
      modifies this
      ensures View() == old(View()).(active := old(activeRequests) + requests, lastActivity := now)
    {
      lastActivity := now;
      activeRequests := activeRequests + requests;
    }

    method ReleaseRequest()
      modifies this
      ensures View() == old(View()).(active := if old(activeRequests) == 0 then 0 else old(activeRequests) - 1)
    {
      activeRequests := if activeRequests > 0 then activeRequests - 1 else 0;
    }

    method Close()
      modifies this
      ensures View() == old(View()).(closed := true)
    {
      if !closed {
        closed := true;
      }
    }
  }

  /** The objects, in order, look like these values. */
  ghost predicate Shows(sessions: seq<IsabelleSession>, values: seq<Session>)
    reads sessions
  {
    |sessions| == |values| && forall k | 0 <= k < |sessions| :: values[k] == sessions[k].View()
  }

  function AllClosed(sessions: seq<Session>): (r: seq<Session>)
    ensures |r| == |sessions| && forall k | 0 <= k < |r| :: r[k] == sessions[k].(closed := true)
  {
    seq(|sessions|, k requires 0 <= k < |sessions| => sessions[k].(closed := true))
  }

  function IndexIn(lru: seq<IsabelleSession>, id: Id): (k: nat)
    ensures k <= |lru| && (k < |lru| ==> lru[k].sessionId == id)
    ensures forall j | 0 <= j < k :: lru[j].sessionId != id
  {
    if lru == [] || lru[0].sessionId == id then 0 else 1 + IndexIn(lru[1..], id)
  }

  lemma {:induction false} IndexIsPosition(lru: seq<IsabelleSession>, id: Id, values: seq<Session>)
    requires Shows(lru, values)
    ensures IndexIn(lru, id) == Position(values, id)
  {
    if lru != [] {
      IndexIsPosition(lru[1..], id, values[1..]);
    }
  }

  function DoomedIds(doomed: seq<Doomed>): seq<Id> {
    if doomed == [] then [] else [doomed[0].id] + DoomedIds(doomed[1..])
  }

  lemma ScanFrom(views: seq<Session>, k: nat, now: real, idleTimeout: real, maxLeaseAge: real)
    requires k < |views|
    ensures var rest := DoomedIds(Scan(views[k + 1..], now, idleTimeout, maxLeaseAge));
      DoomedIds(Scan(views[k..], now, idleTimeout, maxLeaseAge))
      == if !views[k].closed && Overdue(views[k], now, idleTimeout, maxLeaseAge) then [views[k].id] + rest else rest
  {
    assert views[k..][0] == views[k] && views[k..][1..] == views[k + 1..];
    var x := Doomed(views[k].id, views[k].leased);
    var tail := Scan(views[k + 1..], now, idleTimeout, maxLeaseAge);
    assert ([x] + tail)[0] == x && ([x] + tail)[1..] == tail;
  }

  lemma ScanOfNone(now: real, idleTimeout: real, maxLeaseAge: real)
    ensures DoomedIds(Scan([], now, idleTimeout, maxLeaseAge)) == []
  {
  }

  ghost predicate DistinctSessions(lru: seq<IsabelleSession>) {
    forall i, j | 0 <= i < j < |lru| :: lru[i].sessionId != lru[j].sessionId
  }

  lemma GoneFromRest(lru: seq<IsabelleSession>, k: nat)
    requires DistinctSessions(lru) && k < |lru|
    ensures lru[k] !in Without(lru, k) && forall x | x in Without(lru, k) :: x in lru
  {
    var r := Without(lru, k);
    forall j | 0 <= j < |r|
      ensures r[j] != lru[k] && r[j] in lru
    {
      assert r[j] == lru[if j < k then j else j + 1];
    }
  }

  lemma GoneOnce(lru: seq<IsabelleSession>, k: nat, x: IsabelleSession, values: seq<Session>)
    requires DistinctSessions(lru) && k < |lru| && x !in lru && Shows(lru, values)
    ensures lru[k] !in Without(lru + [x], k) && lru[k] != x && (lru + [x])[k] == lru[k] && lru[k].View() == values[k]
    ensures Shows(Without(lru + [x], k), Without(values, k) + [x.View()])
    ensures forall y | y in Without(lru + [x], k) :: y in lru + [x]
  {
    var r := Without(lru + [x], k);
    forall j | 0 <= j < |r|
      ensures r[j] != lru[k] && r[j] in lru + [x]
    {
      assert r[j] == (lru + [x])[if j < k then j else j + 1];
    }
  }

  /** The sessions looked like `before`, and only the one at `k` has changed. */
  lemma OnlyOneChanged(lru: seq<IsabelleSession>, k: nat, before: seq<Session>)
    requires k < |lru| == |before| && DistinctSessions(lru)
    requires forall j | 0 <= j < |lru| && lru[j] != lru[k] :: lru[j].View() == before[j]
    ensures Shows(Without(lru, k), Without(before, k))
    ensures Shows(Without(lru, k) + [lru[k]], Without(before, k) + [lru[k].View()])
  {
    forall j | 0 <= j < |lru| && j != k
      ensures lru[j] != lru[k]
    {
      assert lru[j].sessionId != lru[k].sessionId;
    }
  }

  method CloseAll(sessions: seq<IsabelleSession>, ghost before: seq<Session>)
    requires Shows(sessions, before) && DistinctSessions(sessions)
    modifies set x | x in sessions
    ensures Shows(sessions, AllClosed(before))
  {
    for n := 0 to |sessions|
      invariant forall j | 0 <= j < |sessions| :: sessions[j].View() == if j < n then before[j].(closed := true)
                  else before[j]
    {
      assert forall j | 0 <= j < |sessions| && j != n :: sessions[j].sessionId != sessions[n].sessionId;
      sessions[n].Close();
    }
  }

  class SessionManager {
    const poolSize: nat
    var lru: seq<IsabelleSession>

    /** The pool is in the state `s` of the machine. */
    ghost predicate Represents(s: State)
      reads this, lru
    {
      Inv(s) && |s.lru| <= s.poolSize == poolSize && Shows(lru, s.lru)
    }

    constructor (poolSize: nat)
      ensures Represents(Start(poolSize))
    {
      this.poolSize, lru := poolSize, [];
      new;
      StartIsInv(poolSize);
    }

    lemma Facts(s: State)
      requires Represents(s)
      ensures |lru| <= poolSize && AllAlive(s.lru)
      ensures DistinctSessions(lru)
    {
      forall i, j | 0 <= i < j < |lru|
        ensures lru[i].sessionId != lru[j].sessionId
      {
        assert s.lru[i].id != s.lru[j].id;
      }
    }

    /** A step whose reply leaves the pool as it is now. */
    lemma Arrive(s: State, step: Step)
      requires Inv(s) && s.poolSize == poolSize && Enabled(s, step) && Shows(lru, ReplyOf(s, step).lru)
      ensures Represents(Next(s, step))
    {
      StepKeepsInv(s, step);
      hide Inv;
    }

    /** The eviction loop of `_create_session`, after the session `id` has been put in at the end. */
    method EvictExcess(id: Id, ghost before: seq<Session>) returns (targets: seq<IsabelleSession>, poolFull: bool)
      requires 0 < |lru| <= poolSize + 1 && lru[|lru| - 1].sessionId == id
      requires forall j | 0 <= j < |lru| - 1 :: lru[j].sessionId != id
      requires Shows(lru[..|lru| - 1], before)
      modifies this`lru
      ensures var n, k := |before|, OldestIdle(before);
        if n < poolSize then lru == old(lru) && targets == [] && !poolFull
        else if k < n then lru == Without(old(lru), k) && targets == [old(lru)[k]] && !poolFull
        else lru == old(lru)[..n] && targets == [] && poolFull
    {
      targets, poolFull := [], false;
      ghost var n := |lru| - 1;
      while |lru| > poolSize
        invariant |lru| > poolSize ==> lru == old(lru) && targets == []
        invariant |lru| <= poolSize && n == poolSize ==>
                    OldestIdle(before) < n && lru == Without(old(lru), OldestIdle(before))
                        && targets == [old(lru)[OldestIdle(before)]]
        invariant n < poolSize ==> lru == old(lru) && targets == []
      {
        var k := 0;
        while k < |lru| && (lru[k].sessionId == id || lru[k].activeRequests > 0 || lru[k].leased)
          invariant k <= |lru| && forall j | 0 <= j < k && j < n :: !before[j].Idle()
        {
          k := k + 1;
        }
        if k == |lru| {
          lru := lru[..|lru| - 1];
          poolFull := true;
          break;
        }
        assert k < n && before[k].Idle();
        targets := targets + [lru[k]];
        lru := Without(lru, k);
      }
    }

    /** `_lru[session_id] = session`, with the lease that the caller asks for. */
    method Put(id: Id, key: string, lease: Option<Token>, now: real) returns (session: IsabelleSession)
      modifies this`lru
      ensures fresh(session) && session.sessionId == id && session.View() == NewSession(id, key, lease, now)
      ensures lru == old(lru) + [session]
    {
      session := new IsabelleSession(id, key, now);
      lru := lru + [session];
      if lease.Some? {
        var ok := session.TryAcquireLease(lease.value, now);
      }
    }

    lemma IdIsNew(s: State, id: Id)
      requires Represents(s) && id !in s.built
      ensures forall j | 0 <= j < |lru| :: lru[j].sessionId != id
    {
      forall j | 0 <= j < |lru|
        ensures lru[j].sessionId != id
      {
        IdSetHas(s.lru, s.lru[j].id);
      }
    }

    /** The critical section of `_create_session`: the session is put in, and one is evicted when the pool is over
        its size. What has been taken out is still open. */
    method Insert(id: Id, key: string, lease: Option<Token>, now: real, ghost s: State)
      returns (outcome: Outcome, taken: seq<IsabelleSession>)
      requires Represents(s) && Enabled(s, CreateStep(id, key, lease, now))
      modifies this`lru
      ensures Represents(Next(s, CreateStep(id, key, lease, now)))
      ensures outcome == ReplyOf(s, CreateStep(id, key, lease, now)).outcome
      ensures Shows(taken, ReplyOf(s, CreateStep(id, key, lease, now)).out)
      ensures |taken| <= 1 && forall x | x in taken :: x !in lru && (x in old(lru) || fresh(x))
    {
      hide Inv, DistinctSessions;
      Facts(s);
      IdIsNew(s, id);
      ghost var step := CreateStep(id, key, lease, now);
      ghost var x := NewSession(id, key, lease, now);
      ghost var r := Create(s.lru, poolSize, x);
      assert ReplyOf(s, step) == r;
      hide Next, ReplyOf, Enabled;
      ghost var before := lru;
      var session := Put(id, key, lease, now);
      assert lru[..|before|] == before && Shows(before, s.lru);
      var targets, poolFull := EvictExcess(id, s.lru);
      ghost var k := OldestIdle(s.lru);
      assert r == if poolFull then Reply(s.lru, PoolExhausted, [x], None)
                  else if targets == [] then Reply(s.lru + [x], Granted(id), [], Some(id))
                  else Reply(Without(s.lru, k) + [x], Granted(id), [s.lru[k]], Some(id));
      assert poolFull ==> lru == before;
      hide Create, OldestIdle, Without;
      if targets != [] {
        GoneOnce(before, k, session, s.lru);
      }
      Arrive(s, step);
      outcome, taken := if poolFull then PoolExhausted else Granted(id), if poolFull then [session] else targets;
    }

    /** The part of `_create_session` that starts when the backend is there. What its critical section has taken
        out is closed outside the lock. */
    method CreateSession(id: Id, key: string, lease: Option<Token>, now: real, ghost s: State)
      returns (outcome: Outcome, taken: seq<IsabelleSession>)
      requires Represents(s) && Enabled(s, CreateStep(id, key, lease, now))
      modifies this, lru
      ensures Represents(Next(s, CreateStep(id, key, lease, now)))
      ensures outcome == ReplyOf(s, CreateStep(id, key, lease, now)).outcome
      ensures Shows(taken, AllClosed(ReplyOf(s, CreateStep(id, key, lease, now)).out))
    {
      outcome, taken := Insert(id, key, lease, now, s);
      hide Inv, Next, ReplyOf, Enabled, AllClosed;
      CloseAll(taken, ReplyOf(s, CreateStep(id, key, lease, now)).out);
    }

    /** The walk from the most recent session to the oldest, in `_find_and_lease_session_locked` and `find_session`. */
    method LatestMatching(key: string, reuseDirty: bool, ghost views: seq<Session>) returns (k: int)
      requires Shows(lru, views)
      ensures k == LatestMatch(views, key, reuseDirty)
    {
      k := |lru| - 1;
      while k >= 0
        invariant -1 <= k < |lru| && forall j | k < j < |lru| :: !Matches(views[j], key, reuseDirty)
      {
        var session := lru[k];
        if !session.closed && !session.leased && session.dependencyKey == key
            && (reuseDirty || session.commandHistory == []) {
          assert Matches(views[k], key, reuseDirty);
          return;
        }
        assert !Matches(views[k], key, reuseDirty);
        k := k - 1;
      }
    }

    method FindAndLease(key: string, reuseDirty: bool, token: Token, now: real, ghost s: State)
      returns (found: IsabelleSession?)
      requires Represents(s) && Enabled(s, AcquireStep(key, reuseDirty, token, now))
      modifies this, lru
      ensures Represents(Next(s, AcquireStep(key, reuseDirty, token, now)))
      ensures ReplyOf(s, AcquireStep(key, reuseDirty, token, now)).outcome == if found == null then Nothing
                else Granted(found.sessionId)
      ensures found != null ==> found in old(lru) && found.leaseId == Some(token)
    {
      Facts(s);
      ghost var step := AcquireStep(key, reuseDirty, token, now);
      assert ReplyOf(s, step) == Acquire(s.lru, key, reuseDirty, token, now);
      hide Inv, Next, ReplyOf, Enabled, DistinctSessions;
      var k := LatestMatching(key, reuseDirty, s.lru);
      if k < 0 {
        Arrive(s, step);
        return null;
      }
      var session := lru[k];
      assert s.lru[k] == session.View();
      var ok := session.TryAcquireLease(token, now);
      OnlyOneChanged(lru, k, s.lru);
      lru := Without(lru, k) + [session];
      Arrive(s, step);
      return session;
    }

    method FindSession(key: string, reuseDirty: bool, ghost s: State) returns (found: IsabelleSession?)
      requires Represents(s) && Enabled(s, FindStep(key, reuseDirty))
      modifies this
      ensures Represents(Next(s, FindStep(key, reuseDirty)))
      ensures ReplyOf(s, FindStep(key, reuseDirty)).outcome == if found == null then Nothing
                else Granted(found.sessionId)
      ensures found != null ==> found in old(lru)
    {
      Facts(s);
      ghost var step := FindStep(key, reuseDirty);
      assert ReplyOf(s, step) == Find(s.lru, key, reuseDirty);
      hide Inv, Next, ReplyOf, Enabled, DistinctSessions;
      var k := LatestMatching(key, reuseDirty, s.lru);
      if k < 0 {
        Arrive(s, step);
        return null;
      }
      found := lru[k];
      OnlyOneChanged(lru, k, s.lru);
      lru := Without(lru, k) + [found];
      Arrive(s, step);
    }

    method ReleaseSession(id: Id, token: Token, now: real, ghost s: State) returns (outcome: Outcome)
      requires Represents(s) && Enabled(s, ReleaseStep(id, token, now))
      modifies this, lru
      ensures Represents(Next(s, ReleaseStep(id, token, now)))
      ensures outcome == ReplyOf(s, ReleaseStep(id, token, now)).outcome
    {
      Facts(s);
      IndexIsPosition(lru, id, s.lru);
      ghost var step := ReleaseStep(id, token, now);
      assert ReplyOf(s, step) == Release(s.lru, id, token, now);
      hide Inv, Next, ReplyOf, Enabled, DistinctSessions;
      var k := IndexIn(lru, id);
      if k == |lru| || lru[k].closed {
        Arrive(s, step);
        return NotFound;
      }
      var session := lru[k];
      var ok := session.RequireLease(Some(token));
      if !ok {
        Arrive(s, step);
        return LeaseError;
      }
      if session.activeRequests > 0 {
        Arrive(s, step);
        return Busy;
      }
      session.ReleaseLease(now);
      OnlyOneChanged(lru, k, s.lru);
      lru := Without(lru, k) + [session];
      Arrive(s, step);
      return Granted(id);
    }

    method GetSession(id: Id, token: Option<Token>, requireLease: bool, ghost s: State) returns (outcome: Outcome)
      requires Represents(s) && Enabled(s, GetStep(id, token, requireLease))
      modifies this
      ensures Represents(Next(s, GetStep(id, token, requireLease)))
      ensures outcome == ReplyOf(s, GetStep(id, token, requireLease)).outcome
    {
      Facts(s);
      IndexIsPosition(lru, id, s.lru);
      ghost var step := GetStep(id, token, requireLease);
      assert ReplyOf(s, step) == Get(s.lru, id, token, requireLease);
      hide Inv, Next, ReplyOf, Enabled, DistinctSessions;
      var k := IndexIn(lru, id);
      if k == |lru| || lru[k].closed {
        Arrive(s, step);
        return NotFound;
      }
      var session := lru[k];
      if requireLease {
        var ok := session.RequireLease(token);
        if !ok {
          Arrive(s, step);
          return LeaseError;
        }
      }
      OnlyOneChanged(lru, k, s.lru);
      lru := Without(lru, k) + [session];
      Arrive(s, step);
      return Granted(id);
    }

    /** The checks of `close_session`, up to the first look at `in_use`; `Nothing` when they all pass. */
    method Refusal(id: Id, token: Option<Token>, requireLease: bool, ghost values: seq<Session>)
      returns (refusal: Outcome)
      requires Shows(lru, values)
      ensures var k := Position(values, id);
        refusal == if k == |values| || values[k].closed then NotFound
                   else if requireLease && !values[k].Holds(token) then LeaseError
                   else if values[k].active > 0 then Busy
                   else Nothing
    {
      IndexIsPosition(lru, id, values);
      var k := IndexIn(lru, id);
      if k == |lru| || lru[k].closed {
        return NotFound;
      }
      if requireLease {
        var ok := lru[k].RequireLease(token);
        if !ok {
          return LeaseError;
        }
      }
      return if lru[k].activeRequests > 0 then Busy else Nothing;
    }

    /** The session is taken out of the pool, and put back at the end when requests have arrived. */
    method TakeOut(k: nat, arrived: nat, now: real, ghost values: seq<Session>)
      returns (outcome: Outcome, taken: seq<IsabelleSession>)
      requires k < |lru| && Shows(lru, values) && DistinctSessions(lru) && values[k].active == 0
      modifies this`lru, lru[k]
      ensures outcome == if arrived > 0 then Busy else Granted(values[k].id)
      ensures var x := values[k];
        && Shows(lru, if arrived == 0 then Without(values, k)
                      else Without(values, k) + [x.(active := arrived, lastActivity := now)])
        && Shows(taken, if arrived > 0 then [] else [if x.leased then x.WithoutLease(now) else x])
      ensures |taken| <= 1 && (forall x | x in taken :: x in old(lru) && x !in lru)
      ensures forall x | x in lru :: x in old(lru)
    {
      hide DistinctSessions, Without;
      var session := lru[k];
      ghost var before := lru;
      lru := Without(lru, k);
      GoneFromRest(before, k);
      session.AcquireRequests(arrived, if arrived > 0 then now else session.lastActivity);
      if session.activeRequests > 0 {
        lru := lru + [session];
        OnlyOneChanged(before, k, values);
        return Busy, [];
      }
      if session.leased {
        session.ReleaseLease(now);
      }
      OnlyOneChanged(before, k, values);
      return Granted(session.sessionId), [session];
    }

    /** The critical section of `close_session`; `arrived` requests begin on the session after the first look at
        `in_use`. The step is the caller's own close, or the reaper's. */
    method Detach(id: Id, token: Option<Token>, requireLease: bool, arrived: nat, now: real, ghost s: State,
                  ghost step: Step)
      returns (outcome: Outcome, taken: seq<IsabelleSession>)
      requires Represents(s) && Enabled(s, step)
      requires step == CloseStep(id, token, requireLease, arrived, now)
            || (step == ReapStep(arrived, now) && id == s.pending[0].id && token == None && !requireLease)
      modifies this, lru
      ensures Represents(Next(s, step))
      ensures outcome == ReplyOf(s, step).outcome && Shows(taken, ReplyOf(s, step).out)
      ensures |taken| <= 1 && (forall x | x in taken :: x in old(lru) && x !in lru)
      ensures forall x | x in lru :: x in old(lru)
    {
      hide Inv, DistinctSessions;
      Facts(s);
      IndexIsPosition(lru, id, s.lru);
      ghost var r := Close(s.lru, id, token, requireLease, arrived, now);
      assert ReplyOf(s, step) == r;
      hide Next, ReplyOf, Enabled;
      taken := [];
      var refusal := Refusal(id, token, requireLease, s.lru);
      if refusal != Nothing {
        Arrive(s, step);
        return refusal, [];
      }
      var k := IndexIn(lru, id);
      ghost var x := s.lru[k];
      assert r == if arrived > 0 then
                    Reply(Without(s.lru, k) + [x.(active := arrived, lastActivity := now)], Busy, [], Some(id))
                  else Reply(Without(s.lru, k), Granted(id), [if x.leased then x.WithoutLease(now) else x], None);
      hide Close, Position, Without;
      outcome, taken := TakeOut(k, arrived, now, s.lru);
      Arrive(s, step);
    }

    /** `close_session`: the backend is closed outside the lock. */
    method CloseSession(id: Id, token: Option<Token>, requireLease: bool, arrived: nat, now: real, ghost s: State,
                        ghost step: Step)
      returns (outcome: Outcome, taken: seq<IsabelleSession>)
      requires Represents(s) && Enabled(s, step)
      requires step == CloseStep(id, token, requireLease, arrived, now)
            || (step == ReapStep(arrived, now) && id == s.pending[0].id && token == None && !requireLease)
      modifies this, lru
      ensures Represents(Next(s, step))
      ensures outcome == ReplyOf(s, step).outcome && Shows(taken, AllClosed(ReplyOf(s, step).out))
      ensures forall x | x in lru :: x in old(lru)
    {
      outcome, taken := Detach(id, token, requireLease, arrived, now, s, step);
      hide Inv, Next, ReplyOf, Enabled, AllClosed;
      CloseAll(taken, ReplyOf(s, step).out);
    }

    method PopOldestIdle(ghost s: State) returns (popped: IsabelleSession?)
      requires Represents(s)
      modifies this
      ensures Represents(Next(s, EvictStep))
      ensures if popped == null then ReplyOf(s, EvictStep).out == [] else ReplyOf(s, EvictStep).out == [popped.View()]
      ensures popped != null ==> popped in old(lru) && popped !in lru
      ensures (forall x | x in lru :: x in old(lru)) && (popped != null ==> |lru| < old(|lru|))
    {
      Facts(s);
      StepKeepsInv(s, EvictStep);
      hide Inv;
      var k := 0;
      while k < |lru| && (lru[k].activeRequests > 0 || lru[k].leased)
        invariant k <= |lru| && forall j | 0 <= j < k :: !s.lru[j].Idle()
      {
        assert s.lru[k] == lru[k].View();
        k := k + 1;
      }
      if k == |lru| {
        return null;
      }
      assert s.lru[k] == lru[k].View();
      popped := lru[k];
      lru := Without(lru, k);
    }

    lemma ShowsMore(sessions: seq<IsabelleSession>, values: seq<Session>, x: IsabelleSession)
      requires Shows(sessions, values)
      ensures Shows(sessions + [x], values + [x.View()])
    {
    }

    lemma NoEvictions(s: State)
      requires Represents(s)
      ensures Evictions(s, 0) == s && Shows([], AllClosed(IdleOf(s.lru)[..0]))
    {
    }

    lemma ClosedPrefix(sessions: seq<Session>, n: nat)
      requires n < |sessions|
      ensures AllClosed(sessions[..n + 1]) == AllClosed(sessions[..n]) + [sessions[n].(closed := true)]
    {
    }

    lemma NextEviction(s: State, n: nat)
      requires Inv(s) && n <= |IdleOf(s.lru)| && |Evictions(s, n).lru| <= Evictions(s, n).poolSize
      ensures ReplyOf(Evictions(s, n), EvictStep).out == if n == |IdleOf(s.lru)| then [] else [IdleOf(s.lru)[n]]
      ensures n == |IdleOf(s.lru)| ==> Next(Evictions(s, n), EvictStep) == Evictions(s, n)
      ensures Evictions(s, n + 1) == Next(Evictions(s, n), EvictStep)
      ensures n < |IdleOf(s.lru)| ==>
                AllClosed(IdleOf(s.lru)[..n + 1]) == AllClosed(IdleOf(s.lru)[..n]) + [IdleOf(s.lru)[n].(closed := true)]
    {
      EvictionsTakeOldestIdle(s, n);
      var t := Evictions(s, n);
      assert ReplyOf(t, EvictStep) == EvictIdle(t.lru);
      hide Inv, DropIdle;
      if n < |IdleOf(s.lru)| {
        EvictOne(s.lru, n);
        ClosedPrefix(IdleOf(s.lru), n);
      } else {
        assert IdleOf(t.lru) == [];
        NothingChanges(t, EvictIdle(t.lru));
      }
    }

    /** Idle sessions are closed, oldest first, until the memory suffices or none is left. `readings` are the
        successive readings of the memory; nothing else runs meanwhile. */
    method RelieveMemoryPressure(limits: Limits, readings: nat -> Snapshot, ghost s: State)
      returns (snap: Snapshot, taken: seq<IsabelleSession>)
      requires Represents(s)
      modifies this, lru
      ensures |taken| <= |IdleOf(s.lru)| && Represents(Evictions(s, |taken|))
      ensures Shows(taken, AllClosed(IdleOf(s.lru)[..|taken|]))
      ensures snap == readings(|taken|) && forall i | 0 <= i < |taken| :: !limits.CanAdmit(readings(i))
      ensures limits.CanAdmit(snap) || |taken| == |IdleOf(s.lru)|
      ensures forall x | x in lru :: x in old(lru)
    {
      hide Inv, Evictions, Next, ReplyOf, IdleOf, AllClosed, EvictIdle, Shows;
      snap, taken := readings(0), [];
      ghost var t := s;
      NoEvictions(s);
      while !limits.CanAdmit(snap)
        invariant |taken| <= |IdleOf(s.lru)| && t == Evictions(s, |taken|) && Represents(t)
        invariant forall x | x in lru :: x in old(lru)
        invariant forall x | x in taken :: x in old(lru) && x !in lru
        invariant Shows(taken, AllClosed(IdleOf(s.lru)[..|taken|]))
        invariant snap == readings(|taken|) && forall i | 0 <= i < |taken| :: !limits.CanAdmit(readings(i))
        decreases |lru|
      {
        NextEviction(s, |taken|);
        var popped := PopOldestIdle(t);
        if popped == null {
          break;
        }
        popped.Close();
        ShowsMore(taken, AllClosed(IdleOf(s.lru)[..|taken|]), popped);
        t := Next(t, EvictStep);
        taken := taken + [popped];
        snap := readings(|taken|);
      }
    }

    /** The emptying of the pool in gateway recovery and in shutdown. */
    method Purge(ghost s: State) returns (taken: seq<IsabelleSession>)
      requires Represents(s)
      modifies this, lru
      ensures Represents(Next(s, PurgeStep)) && lru == []
      ensures taken == old(lru) && Shows(taken, AllClosed(s.lru))
    {
      Facts(s);
      StepKeepsInv(s, PurgeStep);
      hide Inv;
      taken := lru;
      lru := [];
      CloseAll(taken, s.lru);
    }

    lemma ReapOne(t: State, arrived: Id -> nat, now: real)
      requires Inv(t) && DoomedIds(t.pending) != []
      ensures var id := DoomedIds(t.pending)[0];
        && t.pending != [] && t.pending[0].id == id && Enabled(t, ReapStep(arrived(id), now))
        && (|t.lru| <= t.poolSize ==>
              var u := Next(t, ReapStep(arrived(id), now));
              Inv(u) && ReapAll(t, arrived, now) == ReapAll(u, arrived, now)
                  && DoomedIds(u.pending) == DoomedIds(t.pending)[1..])
    {
      StepKeepsInv(t, ReapStep(arrived(t.pending[0].id), now));
    }

    lemma ReapNone(t: State, arrived: Id -> nat, now: real)
      requires Inv(t) && DoomedIds(t.pending) == []
      ensures ReapAll(t, arrived, now) == t
    {
    }

    method CloseOverdue(toClose: seq<Id>, now: real, arrived: Id -> nat, ghost s: State)
      requires Represents(s) && DoomedIds(s.pending) == toClose
      modifies this, lru
      ensures Represents(ReapAll(s, arrived, now)) && forall x | x in lru :: x in old(lru)
    {
      hide Inv, Next, ReplyOf, ReapAll, DoomedIds, Enabled, Shows;
      ghost var t := s;
      for i := 0 to |toClose|
        invariant Represents(t) && Inv(t)
        invariant ReapAll(t, arrived, now) == ReapAll(s, arrived, now)
        invariant DoomedIds(t.pending) == toClose[i..]
        invariant forall x | x in lru :: x in old(lru)
      {
        ReapOne(t, arrived, now);
        assert forall k | 0 <= k < |lru| :: lru[k] in lru && lru[k] in old(lru);
        ghost var step := ReapStep(arrived(toClose[i]), now);
        var outcome, taken := CloseSession(toClose[i], None, false, arrived(toClose[i]), now, t, step);
        t := Next(t, step);
      }
      ReapNone(t, arrived, now);
    }

    lemma ScanLeaves(s: State, step: Step)
      requires Represents(s) && Enabled(s, step) && step.ScanStep?
      ensures Represents(Next(s, step))
      ensures Next(s, step).pending == Scan(s.lru, step.now, step.idleTimeout, step.maxLeaseAge)
    {
      StepKeepsInv(s, step);
    }

    /** The scan of the pool under the lock. */
    method ScanOverdue(now: real, idleTimeout: real, maxLeaseAge: real, ghost views: seq<Session>)
      returns (toClose: seq<Id>)
      requires Shows(lru, views)
      ensures toClose == DoomedIds(Scan(views, now, idleTimeout, maxLeaseAge))
    {
      hide Scan, DoomedIds;
      toClose := [];
      for k := 0 to |lru|
        invariant toClose + DoomedIds(Scan(views[k..], now, idleTimeout, maxLeaseAge))
                    == DoomedIds(Scan(views, now, idleTimeout, maxLeaseAge))
      {
        var session := lru[k];
        ScanFrom(views, k, now, idleTimeout, maxLeaseAge);
        if session.closed {
          continue;
        }
        if session.leased {
          if now - session.lastActivity > maxLeaseAge {
            toClose := toClose + [session.sessionId];
          }
          continue;
        }
        if now - session.lastActivity > idleTimeout {
          toClose := toClose + [session.sessionId];
        }
      }
      assert views[|lru|..] == [];
      ScanOfNone(now, idleTimeout, maxLeaseAge);
    }

    /** One pass of the reaper: the scan, then the closes. `arrived` says how many requests begin on a session while
        it is being closed. */
    method ReapIdleSessions(now: real, idleTimeout: real, maxLeaseAge: real, arrived: Id -> nat, ghost s: State)
      requires Represents(s) && Enabled(s, ScanStep(now, idleTimeout, maxLeaseAge))
      modifies this, lru
      ensures Represents(AfterReaper(s, ScanStep(now, idleTimeout, maxLeaseAge), arrived))
      ensures forall x | x in lru :: x in old(lru)
    {
      ghost var scan := ScanStep(now, idleTimeout, maxLeaseAge);
      StepKeepsInv(s, scan);
      ScanLeaves(s, scan);
      hide Inv, Next, ReplyOf, Scan, ReapAll, DoomedIds;
      var toClose := ScanOverdue(now, idleTimeout, maxLeaseAge, s.lru);
      CloseOverdue(toClose, now, arrived, Next(s, scan));
    }

    /** `n` evictions, and the emptying of the pool if the gateway is dead. */
    static ghost function AfterRelief(s: State, n: nat, gatewayDead: bool): State
      requires Inv(s)
    {
      var t := Evictions(s, n);
      InvBounds(t);
      if gatewayDead then Next(t, PurgeStep) else t
    }

    method RelieveIfNeeded(managed: Option<Limits>, probe: Snapshot, readings: nat -> Snapshot, ghost s: State)
      returns (evicted: seq<IsabelleSession>)
      requires Represents(s)
      modifies this, lru
      ensures Represents(Evictions(s, |evicted|)) && forall x | x in lru :: x in old(lru)
      ensures managed.None? || managed.value.CanAdmit(probe) ==> evicted == []
      ensures managed.Some? && !managed.value.CanAdmit(probe) ==>
                managed.value.CanAdmit(readings(|evicted|)) || |evicted| == |IdleOf(s.lru)|
    {
      hide Inv, Next, Evictions, Shows, IdleOf, AllClosed;
      evicted := [];
      NoEvictions(s);
      if managed.Some? && !managed.value.CanAdmit(probe) {
        var snap;
        snap, evicted := RelieveMemoryPressure(managed.value, readings, s);
      }
    }

    /** One round of the cleanup loop: the pass of the reaper; then, under memory management, a relief if the memory
        does not suffice at the moment `probe`; then the emptying of the pool if the gateway is dead. */
    method CleanupIdleSessions(now: real, idleTimeout: real, maxLeaseAge: real, arrived: Id -> nat,
                               managed: Option<Limits>, probe: Snapshot, readings: nat -> Snapshot, gatewayDead: bool,
                               ghost s: State)
      returns (evicted: seq<IsabelleSession>, ghost u: State)
      requires Represents(s) && Enabled(s, ScanStep(now, idleTimeout, maxLeaseAge))
      modifies this, lru
      ensures u == AfterReaper(s, ScanStep(now, idleTimeout, maxLeaseAge), arrived)
      ensures Represents(AfterRelief(u, |evicted|, gatewayDead))
      ensures managed.None? || managed.value.CanAdmit(probe) ==> evicted == []
      ensures managed.Some? && !managed.value.CanAdmit(probe) ==>
                managed.value.CanAdmit(readings(|evicted|)) || |evicted| == |IdleOf(u.lru)|
    {
      hide Inv, Next, AfterReaper, Evictions, Enabled, Shows, IdleOf;
      ReapIdleSessions(now, idleTimeout, maxLeaseAge, arrived, s);
      u := AfterReaper(s, ScanStep(now, idleTimeout, maxLeaseAge), arrived);
      assert forall k | 0 <= k < |lru| :: lru[k] in lru && lru[k] in old(lru);
      evicted := RelieveIfNeeded(managed, probe, readings, u);
      if gatewayDead {
        assert forall k | 0 <= k < |lru| :: lru[k] in lru && lru[k] in old(lru);
        var purged := Purge(Evictions(u, |evicted|));
      }
    }
  }
}
