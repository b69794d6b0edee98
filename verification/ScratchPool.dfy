/** The warm scratch sessions of mcp_lsp_server/pool.py: attempts that take, create, give back and drop sessions,
    interleaved at every await. */
module ScratchPool {
  import opened Text
  import opened Collections

  datatype Key = Key(taskGroup: string, heapSession: string, imports: seq<string>, field: string)

  datatype Session = Session(sessionId: string, leaseId: string)

  type AttemptId = nat

  /** Where an attempt is: it has found the queue empty, it waits for a session, it creates one, its creation has
      failed, or it holds a session. An attempt that has given its session back is gone. */
  datatype Attempt =
    | Empty(key: Key)
    | Waiting(key: Key)
    | Creating(key: Key)
    | Failing(key: Key)
    | Holding(key: Key, session: Session)

  /** `scratch` are the queues of idle sessions and `counts` the numbers of sessions per key; `made` are all
      sessions that were ever created. */
  datatype State = State(scratch: map<Key, seq<Session>>, counts: map<Key, nat>, attempts: map<AttemptId, Attempt>,
                         made: set<Session>, size: nat)

  function Start(size: nat): State {
    State(map[], map[], map[], {}, size)
  }

  datatype Step =
    | AcquireStep(id: AttemptId, key: Key)
    | ReserveStep(id: AttemptId)
    | GetStep(id: AttemptId)
    | CreatedStep(id: AttemptId, session: Session)
    | CreateFailsStep(id: AttemptId)
    | UndoStep(id: AttemptId)
    | ReleaseStep(id: AttemptId)
    | DropStep(id: AttemptId)
    | CancelStep(id: AttemptId)

  function Queue(s: State, key: Key): seq<Session> {
    if key in s.scratch then s.scratch[key] else []
  }

  function Count(s: State, key: Key): nat {
    if key in s.counts then s.counts[key] else 0
  }

  /** The server gives every new session an id and a lease of its own. */
  predicate Enabled(s: State, step: Step) {
    match step
    case AcquireStep(id, _) => id !in s.attempts
    case ReserveStep(id) => id in s.attempts && s.attempts[id].Empty?
    case GetStep(id) => id in s.attempts && s.attempts[id].Waiting? && Queue(s, s.attempts[id].key) != []
    case CreatedStep(id, session) => id in s.attempts && s.attempts[id].Creating? && session !in s.made
    case CreateFailsStep(id) => id in s.attempts && s.attempts[id].Creating?
    case UndoStep(id) => id in s.attempts && s.attempts[id].Failing?
    case ReleaseStep(id) => id in s.attempts && s.attempts[id].Holding?
    case DropStep(id) => id in s.attempts && s.attempts[id].Holding?
    case CancelStep(id) => id in s.attempts && s.attempts[id].Waiting?
  }

  function Put(s: State, id: AttemptId, a: Attempt): State {
    s.(attempts := s.attempts[id := a])
  }

  function Take(s: State, id: AttemptId, key: Key): State
    requires Queue(s, key) != []
  {
    Put(s.(scratch := s.scratch[key := Queue(s, key)[1..]]), id, Holding(key, Queue(s, key)[0]))
  }

  /** One less session of the key; the count does not go below zero. */
  function Discount(s: State, key: Key): State {
    s.(counts := s.counts[key := if Count(s, key) == 0 then 0 else Count(s, key) - 1])
  }

  function Gone(s: State, id: AttemptId): State {
    s.(attempts := s.attempts - {id})
  }

  /** `AcquireStep` and `ReserveStep` are the two halves of `acquire_scratch` up to its first real wait;
      `CancelStep` is a wait that is broken off. */
  function Next(s: State, step: Step): State
    requires Enabled(s, step)
  {
    match step
    case AcquireStep(id, key) =>
      var t := s.(scratch := s.scratch[key := Queue(s, key)]);
      if Queue(s, key) != [] then Take(t, id, key) else Put(t, id, Empty(key))
    case ReserveStep(id) =>
      var key := s.attempts[id].key;
      if Count(s, key) < s.size then Put(s.(counts := s.counts[key := Count(s, key) + 1]), id, Creating(key))
      else Put(s, id, Waiting(key))
    case GetStep(id) => Take(s, id, s.attempts[id].key)
    case CreatedStep(id, session) => Put(s, id, Holding(s.attempts[id].key, session)).(made := s.made + {session})
    case CreateFailsStep(id) => Put(s, id, Failing(s.attempts[id].key))
    case UndoStep(id) => Gone(Discount(s, s.attempts[id].key), id)
    case ReleaseStep(id) =>
      var key := s.attempts[id].key;
      var session := s.attempts[id].session;
      Gone(if key in s.scratch then s.(scratch := s.scratch[key := s.scratch[key] + [session]]) else s, id)
    case DropStep(id) => Gone(Discount(s, s.attempts[id].key), id)
    case CancelStep(id) => Gone(s, id)
  }

  function Run(s: State, steps: seq<Step>): Option<State>
    decreases |steps|
  {
    if steps == [] then Some(s)
    else if Enabled(s, steps[0]) then Run(Next(s, steps[0]), steps[1..])
    else None
  }

  // ----- the invariant -------------------------------------------------------------------------

  predicate CountedAttempt(a: Attempt, key: Key) {
    a.key == key && (a.Creating? || a.Failing? || a.Holding?)
  }

  /** The attempts that hold a session of the key or have a place for one. */
  function InUse(s: State, key: Key): set<AttemptId> {
    set id | id in s.attempts && CountedAttempt(s.attempts[id], key)
  }

  /** The count of a key is the number of its sessions that are idle, held, or being created. */
  ghost predicate Counted(s: State) {
    forall key :: Count(s, key) == |Queue(s, key)| + |InUse(s, key)| && Count(s, key) <= s.size
  }

  /** No session is idle twice, idle and held, or held twice. */
  ghost predicate Exclusive(s: State) {
    && (forall key :: NoRepeats(Queue(s, key)))
    && (forall k1, k2, x | x in Queue(s, k1) && x in Queue(s, k2) :: k1 == k2)
    && (forall i, j | i in s.attempts && j in s.attempts && s.attempts[i].Holding? && s.attempts[j].Holding?
                      && s.attempts[i].session == s.attempts[j].session :: i == j)
    && (forall key, i | i in s.attempts && s.attempts[i].Holding? :: s.attempts[i].session !in Queue(s, key))
    && (forall key, x | x in Queue(s, key) :: x in s.made)
    && (forall i | i in s.attempts && s.attempts[i].Holding? :: s.attempts[i].session in s.made)
    && (forall i | i in s.attempts :: s.attempts[i].key in s.scratch)
  }

  ghost predicate Inv(s: State) {
    Counted(s) && Exclusive(s)
  }

  lemma StartIsInv(size: nat)
    ensures Inv(Start(size))
  {
    assert forall key :: InUse(Start(size), key) == {};
  }

  /** The attempt `id` is counted for `key` afterwards (`after`) or before (`before`), and nothing else changes. */
  lemma InUseChanges(s: State, t: State, id: AttemptId, key: Key)
    requires forall i | i != id :: (i in t.attempts <==> i in s.attempts)
               && (i in s.attempts ==> t.attempts[i] == s.attempts[i])
    ensures var before := id in s.attempts && CountedAttempt(s.attempts[id], key);
      var after := id in t.attempts && CountedAttempt(t.attempts[id], key);
      |InUse(t, key)| == |InUse(s, key)| + (if after then 1 else 0) - (if before then 1 else 0)
  {
    var a, b := InUse(s, key), InUse(t, key);
    assert forall i | i != id :: i in a <==> i in b;
    hide InUse;
    SizesOfSets(a, b, id);
  }

  lemma OthersStay(s: State, step: Step)
    requires Enabled(s, step)
    ensures var t := Next(s, step);
      forall i | i != step.id ::
        (i in t.attempts <==> i in s.attempts) && (i in s.attempts ==> t.attempts[i] == s.attempts[i])
  {
  }

  lemma IsCounted(s: State, id: AttemptId, key: Key)
    ensures id in s.attempts && CountedAttempt(s.attempts[id], key) ==> |InUse(s, key)| > 0
  {
    assert id in s.attempts && CountedAttempt(s.attempts[id], key) ==> id in InUse(s, key);
  }

  lemma StepKeepsCount(s: State, step: Step, key: Key)
    requires Enabled(s, step) && Count(s, key) == |Queue(s, key)| + |InUse(s, key)| && Count(s, key) <= s.size
    requires step.id in s.attempts ==> s.attempts[step.id].key in s.scratch
    ensures var t := Next(s, step);
      Count(t, key) == |Queue(t, key)| + |InUse(t, key)| && Count(t, key) <= t.size == s.size
  {
    hide InUse;
    OthersStay(s, step);
    InUseChanges(s, Next(s, step), step.id, key);
    IsCounted(s, step.id, key);
  }

  lemma IsExclusive(s: State)
    requires Inv(s)
    ensures Exclusive(s)
  {
  }

  lemma KeysAreMade(s: State, id: AttemptId)
    requires Exclusive(s) && id in s.attempts
    ensures s.attempts[id].key in s.scratch
  {
  }

  lemma StepKeepsCounted(s: State, step: Step)
    requires Inv(s) && Enabled(s, step)
    ensures Counted(Next(s, step))
  {
    hide Exclusive, Next, Enabled;
    IsExclusive(s);
    if step.id in s.attempts {
      KeysAreMade(s, step.id);
    }
    var t := Next(s, step);
    forall key
      ensures Count(t, key) == |Queue(t, key)| + |InUse(t, key)| && Count(t, key) <= t.size
    {
      StepKeepsCount(s, step, key);
    }
  }

  lemma Tail(q: seq<Session>)
    requires q != [] && NoRepeats(q)
    ensures q[0] in q && NoRepeats(q[1..]) && forall x :: x in q[1..] <==> x in q && x != q[0]
  {
    assert q == [q[0]] + q[1..];
  }

  lemma TakeKeepsExclusive(s: State, id: AttemptId, key: Key)
    requires Exclusive(s) && Queue(s, key) != [] && (id !in s.attempts || !s.attempts[id].Holding?)
    ensures Exclusive(Take(s, id, key))
  {
    Tail(Queue(s, key));
    hide NoRepeats;
    var t := Take(s, id, key);
    assert Queue(t, key) == Queue(s, key)[1..];
    assert forall k | k != key :: Queue(t, k) == Queue(s, k);
    assert forall k, x | x in Queue(t, k) :: x in Queue(s, k) && x != Queue(s, key)[0];
  }

  lemma ReleaseKeepsExclusive(s: State, id: AttemptId)
    requires Exclusive(s) && Enabled(s, ReleaseStep(id))
    ensures Exclusive(Next(s, ReleaseStep(id)))
  {
    var key, x := s.attempts[id].key, s.attempts[id].session;
    var t := Next(s, ReleaseStep(id));
    assert Queue(t, key) == Queue(s, key) + [x];
    assert forall k | k != key :: Queue(t, k) == Queue(s, k);
    assert forall k, y | y in Queue(t, k) :: y in Queue(s, k) || (k == key && y == x);
  }

  lemma SameQueues(s: State, t: State)
    requires Exclusive(s) && (forall k :: Queue(t, k) == Queue(s, k)) && t.scratch.Keys >= s.scratch.Keys
    requires s.made <= t.made
    requires forall i | i in t.attempts && t.attempts[i].Holding?
               && !(i in s.attempts && s.attempts[i] == t.attempts[i]) ::
               t.attempts[i].session in t.made - s.made
    requires forall i, j | i in t.attempts && j in t.attempts && t.attempts[i].Holding? && t.attempts[j].Holding?
               && i != j ::
               (i in s.attempts && s.attempts[i] == t.attempts[i])
                   || (j in s.attempts && s.attempts[j] == t.attempts[j])
    requires forall i | i in t.attempts :: t.attempts[i].key in t.scratch
    ensures Exclusive(t)
  {
    hide NoRepeats;
  }

  lemma AcquireKeepsExclusive(s: State, step: Step)
    requires Exclusive(s) && Enabled(s, step) && step.AcquireStep?
    ensures Exclusive(Next(s, step))
  {
    hide NoRepeats;
    var u := s.(scratch := s.scratch[step.key := Queue(s, step.key)]);
    SameQueues(s, u);
    if Queue(s, step.key) != [] {
      TakeKeepsExclusive(u, step.id, step.key);
    } else {
      SameQueues(s, Next(s, step));
    }
  }

  lemma QuietKeepsExclusive(s: State, step: Step)
    requires Exclusive(s) && Enabled(s, step)
    requires !step.AcquireStep? && !step.GetStep? && !step.ReleaseStep?
    ensures Exclusive(Next(s, step))
  {
    hide NoRepeats, Exclusive;
    forall i | i in s.attempts
      ensures s.attempts[i].key in s.scratch
    {
      KeysAreMade(s, i);
    }
    SameQueues(s, Next(s, step));
  }

  lemma StepKeepsExclusive(s: State, step: Step)
    requires Inv(s) && Enabled(s, step)
    ensures Exclusive(Next(s, step))
  {
    hide Counted, NoRepeats, Exclusive;
    IsExclusive(s);
    var t := Next(s, step);
    match step {
      case AcquireStep(_, _) => AcquireKeepsExclusive(s, step);
      case GetStep(id) => TakeKeepsExclusive(s, id, s.attempts[id].key);
      case ReleaseStep(id) => ReleaseKeepsExclusive(s, id);
      case _ => QuietKeepsExclusive(s, step);
    }
  }

  lemma {:induction false} RunKeepsInv(s: State, steps: seq<Step>)
    requires Inv(s) && Run(s, steps).Some?
    ensures Inv(Run(s, steps).value) && Run(s, steps).value.size == s.size
    decreases |steps|
  {
    if steps != [] {
      StepKeepsCounted(s, steps[0]);
      StepKeepsExclusive(s, steps[0]);
      RunKeepsInv(Next(s, steps[0]), steps[1..]);
    }
  }

  /** For every interleaving: per key, the sessions that are idle, held or being created are as many as the count
      says, and never more than the pool size; and no session is idle and held, or held by two attempts. */
  lemma EveryInterleaving(size: nat, steps: seq<Step>, key: Key)
    requires Run(Start(size), steps).Some?
    ensures var t := Run(Start(size), steps).value;
      && Count(t, key) == |Queue(t, key)| + |InUse(t, key)| <= size
      && NoRepeats(Queue(t, key))
      && (forall i | i in t.attempts && t.attempts[i].Holding? :: t.attempts[i].session !in Queue(t, key))
      && (forall i, j | i in t.attempts && j in t.attempts && t.attempts[i].Holding? && t.attempts[j].Holding?
                        && t.attempts[i].session == t.attempts[j].session :: i == j)
  {
    StartIsInv(size);
    RunKeepsInv(Start(size), steps);
  }

  // ----- who is woken --------------------------------------------------------------------------

  /** Giving a session back lets every attempt that waits for the key go on. */
  lemma ReleaseWakes(s: State, id: AttemptId, waiter: AttemptId)
    requires Inv(s) && Enabled(s, ReleaseStep(id)) && waiter in s.attempts && s.attempts[waiter].Waiting?
    requires s.attempts[waiter].key == s.attempts[id].key
    ensures Enabled(Next(s, ReleaseStep(id)), GetStep(waiter))
  {
  }

  /** Dropping a session leaves a waiting attempt as it was: it can go on exactly if it could before. */
  lemma DropWakesNobody(s: State, id: AttemptId, waiter: AttemptId)
    requires Inv(s) && Enabled(s, DropStep(id)) && waiter in s.attempts && s.attempts[waiter].Waiting?
    ensures Enabled(Next(s, DropStep(id)), GetStep(waiter)) <==> Enabled(s, GetStep(waiter))
    ensures Count(Next(s, DropStep(id)), s.attempts[id].key) < s.size
  {
    assert id in InUse(s, s.attempts[id].key);
  }

  /** One attempt holds the only session, another waits for it, and the first drops it. */
  function DropRun(key: Key, session: Session): seq<Step> {
    [AcquireStep(0, key), ReserveStep(0), CreatedStep(0, session), AcquireStep(1, key), ReserveStep(1), DropStep(0)]
  }

  lemma TakeStep(s: State, steps: seq<Step>, k: nat) returns (t: State)
    requires k < |steps| && Enabled(s, steps[k])
    ensures t == Next(s, steps[k]) && Run(s, steps[k..]) == Run(t, steps[k + 1..])
  {
    t := Next(s, steps[k]);
    assert steps[k..][0] == steps[k] && steps[k..][1..] == steps[k + 1..];
  }

  lemma NoStep(s: State)
    ensures Run(s, []) == Some(s)
  {
  }

  /** In this way an attempt comes to wait where nothing is idle although there is room for a session. */
  lemma WaiterIsOverlooked(key: Key, session: Session)
    ensures var r := Run(Start(1), DropRun(key, session));
      && r.Some? && 1 in r.value.attempts && r.value.attempts[1] == Waiting(key)
      && Queue(r.value, key) == [] && Count(r.value, key) < r.value.size && InUse(r.value, key) == {}
  {
    var r := DropRun(key, session);
    hide Run;
    var s0 := Start(1);
    var s1 := TakeStep(s0, r, 0);
    var s2 := TakeStep(s1, r, 1);
    var s3 := TakeStep(s2, r, 2);
    var s4 := TakeStep(s3, r, 3);
    var s5 := TakeStep(s4, r, 4);
    var s6 := TakeStep(s5, r, 5);
    assert r[0..] == r && r[6..] == [];
    NoStep(s6);
  }

  // ----- the object ----------------------------------------------------------------------------

  class LspPool {
    const size: nat
    var scratch: map<Key, seq<Session>>
    var counts: map<Key, nat>

    ghost predicate Represents(s: State)
      reads this
    {
      scratch == s.scratch && counts == s.counts && size == s.size
    }

    constructor (size: nat)
      ensures Represents(Start(size))
    {
      this.size, scratch, counts := size, map[], map[];
    }

    /** The start of `acquire_scratch`: an idle session, if there is one. */
    method TakeIdle(id: AttemptId, key: Key, ghost s: State) returns (session: Option<Session>)
      requires Represents(s) && Enabled(s, AcquireStep(id, key))
      modifies this`scratch
      ensures Represents(Next(s, AcquireStep(id, key)))
      ensures Next(s, AcquireStep(id, key)).attempts[id] == if session.Some? then Holding(key, session.value)
                else Empty(key)
    {
      if key !in scratch {
        scratch := scratch[key := []];
      }
      var queue := scratch[key];
      assert s.scratch[key := Queue(s, key)] == scratch;
      if queue == [] {
        return None;
      }
      scratch := scratch[key := queue[1..]];
      return Some(queue[0]);
    }

    /** A place for a new session, if the key is under the cap. */
    method Reserve(id: AttemptId, key: Key, ghost s: State) returns (create: bool)
      requires Represents(s) && Enabled(s, ReserveStep(id)) && s.attempts[id].key == key
      modifies this`counts
      ensures Represents(Next(s, ReserveStep(id)))
      ensures Next(s, ReserveStep(id)).attempts[id] == if create then Creating(key) else Waiting(key)
    {
      var count := if key in counts then counts[key] else 0;
      if count < size {
        counts := counts[key := count + 1];
        return true;
      }
      return false;
    }

    /** The end of the wait for a session. */
    method Get(id: AttemptId, key: Key, ghost s: State) returns (session: Session)
      requires Represents(s) && Enabled(s, GetStep(id)) && s.attempts[id].key == key
      modifies this`scratch
      ensures Represents(Next(s, GetStep(id))) && Next(s, GetStep(id)).attempts[id] == Holding(key, session)
    {
      session := scratch[key][0];
      scratch := scratch[key := scratch[key][1..]];
    }

    /** The place of a creation that has failed. */
    method Undo(id: AttemptId, key: Key, ghost s: State)
      requires Inv(s) && Represents(s) && Enabled(s, UndoStep(id)) && s.attempts[id].key == key
      modifies this`counts
      ensures Represents(Next(s, UndoStep(id)))
    {
      assert id in InUse(s, key);
      assert Count(s, key) > 0;
      counts := counts[key := counts[key] - 1];
    }

    method ReleaseScratch(id: AttemptId, key: Key, session: Session, ghost s: State)
      requires Represents(s) && Enabled(s, ReleaseStep(id)) && s.attempts[id] == Holding(key, session)
      modifies this`scratch
      ensures Represents(Next(s, ReleaseStep(id)))
    {
      if key in scratch {
        scratch := scratch[key := scratch[key] + [session]];
      }
    }

    method DropScratch(id: AttemptId, key: Key, session: Session, ghost s: State)
      requires Represents(s) && Enabled(s, DropStep(id)) && s.attempts[id] == Holding(key, session)
      modifies this`counts
      ensures Represents(Next(s, DropStep(id)))
    {
      var count: int := if key in counts then counts[key] else 1;
      counts := counts[key := if count - 1 > 0 then count - 1 else 0];
    }
  }
}
