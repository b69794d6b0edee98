/** The pool of prover sessions as values: what each critical section of
    server/app/services/session_manager.py and session_manager_helpers.py does to the LRU order, the leases
    and the sessions taken out, and what holds over every run of such sections. */
module SessionPool {
  import opened Text
  import opened Collections

  type Id = nat
  type Token = string

  datatype Session = Session(id: Id, key: string, closed: bool, leased: bool, leaseId: Option<Token>,
                             active: nat, lastActivity: real, dirty: bool) {
    predicate Idle() {
      active == 0 && !leased
    }

    /** `require_lease` lets the caller pass. */
    predicate Holds(token: Option<Token>) {
      leased && leaseId.Some? && leaseId.value != "" && token == leaseId
    }

    /** The session as `try_acquire_lease` and `release_lease` leave it. */
    function WithLease(token: Token, now: real): Session {
      this.(leased := true, leaseId := Some(token), lastActivity := now)
    }

    function WithoutLease(now: real): Session {
      this.(leased := false, leaseId := None, lastActivity := now)
    }

    /** Not closed, and leased exactly when it carries a token. */
    predicate Alive() {
      !closed && (leased <==> leaseId.Some?) && (leased ==> leaseId.value != "")
    }
  }

  datatype Outcome = Granted(id: Id) | Nothing | NotFound | LeaseError | Busy | PoolExhausted

  /** The result of a critical section: the new order, what the caller is told, the sessions that the caller has
      to close afterwards, and the session that now counts as used. */
  datatype Reply = Reply(lru: seq<Session>, outcome: Outcome, out: seq<Session>, touched: Option<Id>)

  function Without<T>(s: seq<T>, k: nat): (r: seq<T>)
    requires k < |s|
    ensures |r| == |s| - 1
    ensures forall j | 0 <= j < |r| :: r[j] == s[if j < k then j else j + 1]
  {
    s[..k] + s[k + 1..]
  }

  /** The position of a session, or the length. */
  function Position(lru: seq<Session>, id: Id): (k: nat)
    ensures k <= |lru| && (k < |lru| ==> lru[k].id == id)
    ensures forall j | 0 <= j < k :: lru[j].id != id
  {
    if lru == [] || lru[0].id == id then 0 else 1 + Position(lru[1..], id)
  }

  /** The oldest idle session, or the length. */
  function OldestIdle(lru: seq<Session>): (k: nat)
    ensures k <= |lru| && (k < |lru| ==> lru[k].Idle())
    ensures forall j | 0 <= j < k :: !lru[j].Idle()
  {
    if lru == [] || lru[0].Idle() then 0 else 1 + OldestIdle(lru[1..])
  }

  predicate Matches(s: Session, key: string, reuseDirty: bool) {
    !s.closed && !s.leased && s.key == key && (reuseDirty || !s.dirty)
  }

  /** The most recent matching session, or -1. */
  function LatestMatch(lru: seq<Session>, key: string, reuseDirty: bool): (k: int)
    ensures -1 <= k < |lru| && (k >= 0 ==> Matches(lru[k], key, reuseDirty))
    ensures forall j | k < j < |lru| :: !Matches(lru[j], key, reuseDirty)
  {
    if lru == [] || Matches(lru[|lru| - 1], key, reuseDirty) then |lru| - 1
    else LatestMatch(lru[..|lru| - 1], key, reuseDirty)
  }

  // ----- the critical sections -----------------------------------------------------------------

  /** The insertion block of `_create_session`, for a pool that is not over its size. */
  function Create(lru: seq<Session>, poolSize: nat, s: Session): Reply
    requires |lru| <= poolSize
  {
    var k := OldestIdle(lru);
    if |lru| < poolSize then Reply(lru + [s], Granted(s.id), [], Some(s.id))
    else if k < |lru| then Reply(Without(lru, k) + [s], Granted(s.id), [lru[k]], Some(s.id))
    else Reply(lru, PoolExhausted, [s], None)
  }

  /** `_find_and_lease_session_locked` */
  function Acquire(lru: seq<Session>, key: string, reuseDirty: bool, token: Token, now: real): Reply {
    var k := LatestMatch(lru, key, reuseDirty);
    if k < 0 then Reply(lru, Nothing, [], None)
    else Reply(Without(lru, k) + [lru[k].WithLease(token, now)], Granted(lru[k].id), [], Some(lru[k].id))
  }

  /** `find_session` */
  function Find(lru: seq<Session>, key: string, reuseDirty: bool): Reply {
    var k := LatestMatch(lru, key, reuseDirty);
    if k < 0 then Reply(lru, Nothing, [], None)
    else Reply(Without(lru, k) + [lru[k]], Granted(lru[k].id), [], Some(lru[k].id))
  }

  /** `release_session` */
  function Release(lru: seq<Session>, id: Id, token: Token, now: real): Reply {
    var k := Position(lru, id);
    if k == |lru| || lru[k].closed then Reply(lru, NotFound, [], None)
    else if !lru[k].Holds(Some(token)) then Reply(lru, LeaseError, [], None)
    else if lru[k].active > 0 then Reply(lru, Busy, [], None)
    else Reply(Without(lru, k) + [lru[k].WithoutLease(now)], Granted(id), [], Some(id))
  }

  /** `get_session` */
  function Get(lru: seq<Session>, id: Id, token: Option<Token>, requireLease: bool): Reply {
    var k := Position(lru, id);
    if k == |lru| || lru[k].closed then Reply(lru, NotFound, [], None)
    else if requireLease && !lru[k].Holds(token) then Reply(lru, LeaseError, [], None)
    else Reply(Without(lru, k) + [lru[k]], Granted(id), [], Some(id))
  }

  /** `close_session`; `arrived` requests begin between the two looks at `in_use`. */
  function Close(lru: seq<Session>, id: Id, token: Option<Token>, requireLease: bool, arrived: nat, now: real): Reply {
    var k := Position(lru, id);
    if k == |lru| || lru[k].closed then Reply(lru, NotFound, [], None)
    else if requireLease && !lru[k].Holds(token) then Reply(lru, LeaseError, [], None)
    else if lru[k].active > 0 then Reply(lru, Busy, [], None)
    else if arrived > 0 then
      Reply(Without(lru, k) + [lru[k].(active := arrived, lastActivity := now)], Busy, [], Some(id))
    else Reply(Without(lru, k), Granted(id), [if lru[k].leased then lru[k].WithoutLease(now) else lru[k]], None)
  }

  /** `_pop_oldest_idle_locked` */
  function EvictIdle(lru: seq<Session>): Reply {
    var k := OldestIdle(lru);
    if k == |lru| then Reply(lru, Nothing, [], None)
    else Reply(Without(lru, k), Granted(lru[k].id), [lru[k]], None)
  }

  /** The `_lru.clear()` of gateway recovery and of shutdown. */
  function Purge(lru: seq<Session>): Reply {
    Reply([], Nothing, lru, None)
  }

  // ----- whole states and steps ----------------------------------------------------------------

  /** A session that the reaper has decided to close, and whether it was leased when the reaper looked. */
  datatype Doomed = Doomed(id: Id, leased: bool)

  /** `limbo` are the sessions taken out whose `close()` has not finished; `taken` lists every session taken out,
      in order; `touch` and `clock` record when a session was last used; `pending` is the reaper's list. */
  datatype State = State(lru: seq<Session>, poolSize: nat, limbo: set<Id>, closed: set<Id>, built: set<Id>,
                         taken: seq<Id>, touch: map<Id, nat>, clock: nat, pending: seq<Doomed>)

  function Start(poolSize: nat): State {
    State([], poolSize, {}, {}, {}, [], map[], 0, [])
  }

  datatype Step =
    | CreateStep(id: Id, key: string, lease: Option<Token>, now: real)
    | AcquireStep(key: string, reuseDirty: bool, token: Token, now: real)
    | FindStep(key: string, reuseDirty: bool)
    | ReleaseStep(id: Id, token: Token, now: real)
    | GetStep(id: Id, tokenGiven: Option<Token>, requireLease: bool)
    | CloseStep(id: Id, tokenGiven: Option<Token>, requireLease: bool, arrived: nat, now: real)
    | EvictStep
    | PurgeStep
    | ScanStep(now: real, idleTimeout: real, maxLeaseAge: real)
    | ReapStep(arrived: nat, now: real)
    | ClosedStep(id: Id)
    | BeginStep(id: Id, now: real)
    | EndStep(id: Id, dirty: bool)

  /** Steps that run on the event loop. The reaper's scan and its closes are one turn of the loop, so none of
      these comes between them; the other steps run in worker threads and may come at any time. */
  predicate OnEventLoop(step: Step) {
    step.CreateStep? || step.AcquireStep? || step.FindStep? || step.ReleaseStep? || step.GetStep? || step.ScanStep?
  }

  /** Session ids are new, and lease tokens are not empty. */
  predicate Enabled(s: State, step: Step) {
    && (OnEventLoop(step) ==> s.pending == [])
    && (step.CreateStep? ==> step.id !in s.built && step.lease != Some(""))
    && (step.AcquireStep? ==> step.token != "")
    && (step.ReapStep? ==> s.pending != [])
    && (step.ClosedStep? ==> step.id in s.limbo)
  }

  function NewSession(id: Id, key: string, lease: Option<Token>, now: real): Session {
    Session(id, key, false, lease.Some?, lease, 0, now, false)
  }

  function Ids(sessions: seq<Session>): (r: seq<Id>)
    ensures |r| == |sessions| && forall k | 0 <= k < |r| :: r[k] == sessions[k].id
  {
    seq(|sessions|, k requires 0 <= k < |sessions| => sessions[k].id)
  }

  function IdSet(sessions: seq<Session>): set<Id> {
    set k | 0 <= k < |sessions| :: sessions[k].id
  }

  /** A critical section, seen from the whole state. */
  function Apply(s: State, r: Reply): State {
    s.(lru := r.lru, limbo := s.limbo + IdSet(r.out), taken := s.taken + Ids(r.out),
       touch := if r.touched.Some? then s.touch[r.touched.value := s.clock] else s.touch,
       clock := if r.touched.Some? then s.clock + 1 else s.clock)
  }

  predicate Overdue(s: Session, now: real, idleTimeout: real, maxLeaseAge: real) {
    now - s.lastActivity > if s.leased then maxLeaseAge else idleTimeout
  }

  /** What `cleanup_idle_sessions` collects under the lock. */
  function Scan(lru: seq<Session>, now: real, idleTimeout: real, maxLeaseAge: real): (r: seq<Doomed>)
    ensures forall d | d in r :: exists k ::
              && 0 <= k < |lru| && !lru[k].closed && lru[k].id == d.id && lru[k].leased == d.leased
              && now - lru[k].lastActivity > if d.leased then maxLeaseAge else idleTimeout
    ensures forall k | 0 <= k < |lru| && !lru[k].closed
                       && now - lru[k].lastActivity > (if lru[k].leased then maxLeaseAge else idleTimeout) ::
              Doomed(lru[k].id, lru[k].leased) in r
  {
    if lru == [] then []
    else
      var rest := Scan(lru[1..], now, idleTimeout, maxLeaseAge);
      if !lru[0].closed && Overdue(lru[0], now, idleTimeout, maxLeaseAge) then [Doomed(lru[0].id, lru[0].leased)] + rest
      else rest
  }

  function ReplyOf(s: State, step: Step): Reply
    requires Enabled(s, step) && |s.lru| <= s.poolSize
  {
    match step
    case CreateStep(id, key, lease, now) => Create(s.lru, s.poolSize, NewSession(id, key, lease, now))
    case AcquireStep(key, reuseDirty, token, now) => Acquire(s.lru, key, reuseDirty, token, now)
    case FindStep(key, reuseDirty) => Find(s.lru, key, reuseDirty)
    case ReleaseStep(id, token, now) => Release(s.lru, id, token, now)
    case GetStep(id, token, requireLease) => Get(s.lru, id, token, requireLease)
    case CloseStep(id, token, requireLease, arrived, now) => Close(s.lru, id, token, requireLease, arrived, now)
    case EvictStep => EvictIdle(s.lru)
    case PurgeStep => Purge(s.lru)
    case ReapStep(arrived, now) => Close(s.lru, s.pending[0].id, None, false, arrived, now)
    case ScanStep(_, _, _) => Reply(s.lru, Nothing, [], None)
    case ClosedStep(_) => Reply(s.lru, Nothing, [], None)
    case BeginStep(id, now) =>
      var k := Position(s.lru, id);
      Reply(if k == |s.lru| then s.lru
            else s.lru[k := s.lru[k].(active := s.lru[k].active + 1, lastActivity := now)],
            Nothing, [], None)
    case EndStep(id, dirty) =>
      var k := Position(s.lru, id);
      Reply(if k == |s.lru| then s.lru
            else
              s.lru[k := s.lru[k].(active := if s.lru[k].active == 0 then 0 else s.lru[k].active - 1,
                                   dirty := dirty)],
            Nothing, [], None)
  }

  function Next(s: State, step: Step): State
    requires Enabled(s, step) && |s.lru| <= s.poolSize
  {
    var t := Apply(s, ReplyOf(s, step));
    match step
    case CreateStep(id, _, _, _) => t.(built := s.built + {id})
    case ScanStep(now, idleTimeout, maxLeaseAge) => t.(pending := Scan(s.lru, now, idleTimeout, maxLeaseAge))
    case ReapStep(_, _) => t.(pending := s.pending[1..])
    case ClosedStep(id) => t.(limbo := s.limbo - {id}, closed := s.closed + {id})
    case _ => t
  }

  // ----- the invariant -------------------------------------------------------------------------

  ghost predicate DistinctIds(lru: seq<Session>) {
    forall i, j | 0 <= i < j < |lru| :: lru[i].id != lru[j].id
  }

  ghost predicate AllAlive(lru: seq<Session>) {
    forall k | 0 <= k < |lru| :: lru[k].Alive()
  }

  /** Each session built is in the pool and open, or was taken out once and is being closed or closed. */
  ghost predicate Conserved(s: State) {
    && s.built == IdSet(s.lru) + s.limbo + s.closed
    && IdSet(s.lru) !! s.limbo !! s.closed
    && NoRepeats(s.taken) && (forall id :: id in s.taken <==> id in s.limbo + s.closed)
  }

  /** The order of the pool is the order of last use. */
  ghost predicate OrderedByUse(s: State) {
    && (forall k | 0 <= k < |s.lru| :: s.lru[k].id in s.touch && s.touch[s.lru[k].id] < s.clock)
    && (forall i, j | 0 <= i < j < |s.lru| :: s.touch[s.lru[i].id] < s.touch[s.lru[j].id])
  }

  /** What the reaper is about to close has not been leased since it looked. */
  ghost predicate PendingOk(s: State) {
    forall d, k | d in s.pending && 0 <= k < |s.lru| && s.lru[k].id == d.id && s.lru[k].leased :: d.leased
  }

  ghost predicate Inv(s: State) {
    && |s.lru| <= s.poolSize
    && DistinctIds(s.lru) && AllAlive(s.lru)
    && Conserved(s) && OrderedByUse(s) && PendingOk(s)
  }
}
