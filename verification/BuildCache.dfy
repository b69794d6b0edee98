/** The result cache of server/app/services/build_verify.py: a cache that is looked at twice, one lock per theory
    hash, and a limit on the builds at work, for every interleaving of requests. */
module BuildCache {
  import opened Text
  import opened Collections
  import opened DependencyKey
  import BoardText
  import HeaderParsing

  type RequestId = nat

  datatype Request = Request(theoryName: string, text: string, dependencies: seq<Option<string>>,
                             field: Option<string>, timeout: real)

  datatype Result = Result(success: bool, output: Option<string>, error: Option<string>, executionTime: real,
                           theoryVerified: bool)

  /** What the build process does, and for how long: it exits or it is killed at the timeout. */
  datatype Outcome = Exited(code: int, stdout: string, stderr: string) | TimedOut

  /** The hash function, the search for the declared theory name, the character table of the header parser, and the
      printing of a number of seconds. */
  datatype Config = Config(hash: string -> string, declared: string -> Option<string>, wordTable: char -> bool,
                           seconds: real -> string)

  // ----- the cache key -------------------------------------------------------------------------

  function ParentOf(field: Option<string>): (r: string)
    ensures r != ""
  {
    var p := Strip(if field.Some? && field.value != "" then field.value else "HOL");
    if p == "" then "HOL" else p
  }

  function ImportsOf(c: Config, text: string): seq<string> {
    var imports := SortedSet(HeaderParsing.ParseHeader(text, c.wordTable).imports);
    if imports == [] then ["Main"] else imports
  }

  function Somes(names: seq<string>): (r: seq<Option<string>>)
    ensures |r| == |names| && forall k | 0 <= k < |r| :: r[k] == Some(names[k])
  {
    seq(|names|, k requires 0 <= k < |names| => Some(names[k]))
  }

  function DepsOf(c: Config, q: Request): seq<string> {
    SortedSet(Cleaned(if q.dependencies != [] then q.dependencies else Somes(ImportsOf(c, q.text))))
  }

  function KeyOf(c: Config, q: Request): string {
    c.hash(KeyText(ParentOf(q.field), DepsOf(c, q), ""))
  }

  function HashOf(c: Config, q: Request): string {
    TheoryHash(c.hash, ParentOf(q.field), KeyOf(c, q), q.text)
  }

  lemma {:induction false} CleanedHas(names: seq<Option<string>>, y: string)
    ensures y in Cleaned(names) <==> exists k :: 0 <= k < |names| && names[k].Some? && y == Strip(names[k].value) != ""
  {
    if names != [] {
      CleanedHas(names[1..], y);
      assert forall k | 0 < k < |names| :: names[k] == names[1..][k - 1];
    }
  }

  /** What a submission depends on: the theories that it gives, or else the imports in the header of its text, or else
      Main; each name once, trimmed and in order. */
  lemma DependenciesAre(c: Config, q: Request)
    ensures StrictlySorted(DepsOf(c, q))
    ensures var imports := HeaderParsing.ParseHeader(q.text, c.wordTable).imports;
      forall y :: y in DepsOf(c, q) <==>
        if q.dependencies != [] then
          exists k :: 0 <= k < |q.dependencies| && q.dependencies[k].Some? && y == Strip(q.dependencies[k].value) != ""
        else if imports != [] then exists n :: n in imports && y == Strip(n) != ""
        else y == "Main"
  {
    hide HeaderParsing.ParseHeader;
    var imports := HeaderParsing.ParseHeader(q.text, c.wordTable).imports;
    forall y
      ensures y in DepsOf(c, q) <==>
        if q.dependencies != [] then
          exists k :: 0 <= k < |q.dependencies| && q.dependencies[k].Some? && y == Strip(q.dependencies[k].value) != ""
        else if imports != [] then exists n :: n in imports && y == Strip(n) != ""
        else y == "Main"
    {
      CleanedHas(q.dependencies, y);
      var found := ImportsOf(c, q.text);
      CleanedHas(Somes(found), y);
      StripTrimmed("Main");
    }
  }

  /** The parent session is the field, trimmed; HOL without one. */
  lemma ParentIs(field: Option<string>)
    ensures ParentOf(field) == if field.None? || Strip(field.value) == "" then "HOL" else Strip(field.value)
  {
    StripTrimmed("HOL");
  }

  // ----- one build -----------------------------------------------------------------------------

  function NonEmptyOr(s: string, other: string): string {
    if s != "" then s else other
  }

  /** `_run_build`, given what the process does. */
  function RunBuild(c: Config, q: Request, outcome: Outcome, elapsed: real): Result {
    var declared := c.declared(q.text);
    if declared.None? then
      Result(false, None, Some("Could not extract theory name from submitted theory text."), 0.0, false)
    else if declared.value != q.theoryName then
      var message := "Declared theory name '" + declared.value + "' does not match request theory_name '"
          + q.theoryName + "'.";
      Result(false, None, Some(message), 0.0, false)
    else
      match outcome
      case TimedOut =>
        var message := "isabelle build timed out after " + c.seconds(q.timeout) + "s";
        Result(false, None, Some(message), elapsed, false)
      case Exited(code, stdout, stderr) =>
        var output := if Tail(stdout, 4000) == "" then None else Some(Tail(stdout, 4000));
        if code == 0 then Result(true, output, None, elapsed, true)
        else
          Result(false, output, Some(NonEmptyOr(Tail(stderr, 4000), NonEmptyOr(Tail(stdout, 4000),
                 "isabelle build failed with exit code " + BoardText.PrintInt(code)))), elapsed, false)
  }

  /** The end of a text, of 4000 characters, or the whole text if it is not longer. */
  ghost predicate IsEnd(end: string, text: string) {
    (end == text && |text| <= 4000) || (|end| == 4000 < |text| && text[|text| - 4000..] == end)
  }

  /** What the answer to a build reports: the end of the output, if there is any; on failure the end of the errors, or
      else of the output, or else the exit code. */
  lemma BuildReports(c: Config, q: Request, code: int, stdout: string, stderr: string, elapsed: real)
    requires c.declared(q.text) == Some(q.theoryName)
    ensures var r := RunBuild(c, q, Exited(code, stdout, stderr), elapsed);
      && (r.success <==> code == 0) && r.theoryVerified == r.success && r.executionTime == elapsed
      && (if stdout == "" then r.output == None else r.output.Some? && IsEnd(r.output.value, stdout))
      && (r.error.None? <==> code == 0)
      && (code != 0 ==>
            if stderr != "" then IsEnd(r.error.value, stderr)
            else if stdout != "" then IsEnd(r.error.value, stdout)
            else r.error.value == "isabelle build failed with exit code " + BoardText.PrintInt(code))
  {
  }

  // ----- the machine ---------------------------------------------------------------------------

  /** Where a request is: it waits for the lock of its hash, holds it and waits for the semaphore, builds, or has its
      answer, from the cache or not. */
  datatype Phase =
    | Locking(request: Request)
    | Locked(request: Request)
    | Building(request: Request)
    | Answered(request: Request, result: Result, cached: bool)

  /** `successes` lists the hashes of all builds that succeeded, and `origin` what each cached result came from. */
  datatype State = State(cache: map<string, Result>, requests: map<RequestId, Phase>, permits: nat, maxBuilds: nat,
                         successes: seq<string>, origin: map<string, (Request, Outcome, real)>)

  function Start(maxBuilds: nat): State {
    State(map[], map[], maxBuilds, maxBuilds, [], map[])
  }

  datatype Step =
    | VerifyStep(id: RequestId, request: Request)
    | LockStep(id: RequestId)
    | PermitStep(id: RequestId)
    | FinishStep(id: RequestId, outcome: Outcome, elapsed: real)
    | AbortStep(id: RequestId)

  predicate HasLock(p: Phase) {
    p.Locked? || p.Building?
  }

  predicate LockHeld(c: Config, s: State, hash: string) {
    exists i :: i in s.requests && HasLock(s.requests[i]) && HashOf(c, s.requests[i].request) == hash
  }

  predicate Enabled(c: Config, s: State, step: Step) {
    match step
    case VerifyStep(id, _) => id !in s.requests
    case LockStep(id) => id in s.requests && s.requests[id].Locking?
        && !LockHeld(c, s, HashOf(c, s.requests[id].request))
    case PermitStep(id) => id in s.requests && s.requests[id].Locked? && s.permits > 0
    case FinishStep(id, _, _) => id in s.requests && s.requests[id].Building?
    case AbortStep(id) => id in s.requests && !s.requests[id].Answered?
  }

  function Put(s: State, id: RequestId, p: Phase): State {
    s.(requests := s.requests[id := p])
  }

  /** An answer from the cache, at either of its two looks, or the next phase. */
  function Look(c: Config, s: State, id: RequestId, q: Request, otherwise: Phase): State {
    var hash := HashOf(c, q);
    Put(s, id, if hash in s.cache then Answered(q, s.cache[hash].(executionTime := 0.0), true) else otherwise)
  }

  /** An abort is a request that is cancelled or whose build raises an exception: its lock and its permit are given
      back, and nothing is cached. */
  function Next(c: Config, s: State, step: Step): State
    requires Enabled(c, s, step)
  {
    match step
    case VerifyStep(id, q) => Look(c, s, id, q, Locking(q))
    case LockStep(id) => Look(c, s, id, s.requests[id].request, Locked(s.requests[id].request))
    case PermitStep(id) => Put(s, id, Building(s.requests[id].request)).(permits := s.permits - 1)
    case FinishStep(id, outcome, elapsed) =>
      var q := s.requests[id].request;
      var r := RunBuild(c, q, outcome, elapsed);
      var t := Put(s, id, Answered(q, r, false)).(permits := s.permits + 1);
      if r.success then
        t.(cache := s.cache[HashOf(c, q) := r], successes := s.successes + [HashOf(c, q)],
           origin := s.origin[HashOf(c, q) := (q, outcome, elapsed)])
      else t
    case AbortStep(id) =>
      s.(requests := s.requests - {id}, permits := if s.requests[id].Building? then s.permits + 1 else s.permits)
  }

  function Run(c: Config, s: State, steps: seq<Step>): Option<State>
    decreases |steps|
  {
    if steps == [] then Some(s)
    else if Enabled(c, s, steps[0]) then Run(c, Next(c, s, steps[0]), steps[1..])
    else None
  }

  // ----- locks and limits ----------------------------------------------------------------------

  function AtWork(s: State): set<RequestId> {
    set i | i in s.requests && s.requests[i].Building?
  }

  ghost predicate LocksOk(c: Config, s: State) {
    && (forall i, j | i in s.requests && j in s.requests && HasLock(s.requests[i]) && HasLock(s.requests[j])
                      && HashOf(c, s.requests[i].request) == HashOf(c, s.requests[j].request) :: i == j)
    && (forall i | i in s.requests && HasLock(s.requests[i]) :: HashOf(c, s.requests[i].request) !in s.cache)
  }

  ghost predicate CacheOk(c: Config, s: State) {
    && NoRepeats(s.successes) && (forall h :: h in s.successes <==> h in s.cache)
    && s.origin.Keys == s.cache.Keys
    && forall h | h in s.cache ::
         var (q, outcome, elapsed) := s.origin[h];
         HashOf(c, q) == h && s.cache[h] == RunBuild(c, q, outcome, elapsed) && s.cache[h].success
  }

  ghost predicate Inv(c: Config, s: State) {
    LocksOk(c, s) && CacheOk(c, s) && s.permits + |AtWork(s)| == s.maxBuilds
  }

  lemma StartIsInv(c: Config, maxBuilds: nat)
    ensures Inv(c, Start(maxBuilds))
  {
    assert AtWork(Start(maxBuilds)) == {};
  }

  lemma StepKeepsLimit(c: Config, s: State, step: Step)
    requires Inv(c, s) && Enabled(c, s, step)
    ensures Next(c, s, step).permits + |AtWork(Next(c, s, step))| == s.maxBuilds == Next(c, s, step).maxBuilds
  {
    hide LocksOk, CacheOk, RunBuild, HashOf, LockHeld;
    var t := Next(c, s, step);
    var a, b := AtWork(s), AtWork(t);
    assert forall i | i != step.id :: i in a <==> i in b;
    assert step.id in a <==> step.id in s.requests && s.requests[step.id].Building?;
    assert step.id in b <==> step.id in t.requests && t.requests[step.id].Building?;
    hide AtWork;
    SizesOfSets(a, b, step.id);
  }

  lemma StepKeepsLocks(c: Config, s: State, step: Step)
    requires Inv(c, s) && Enabled(c, s, step)
    ensures LocksOk(c, Next(c, s, step))
  {
    hide CacheOk, RunBuild, HashOf;
  }

  lemma StepKeepsCache(c: Config, s: State, step: Step)
    requires Inv(c, s) && Enabled(c, s, step)
    ensures CacheOk(c, Next(c, s, step))
  {
    hide RunBuild, HashOf;
  }

  lemma {:induction false} RunKeepsInv(c: Config, s: State, steps: seq<Step>)
    requires Inv(c, s) && Run(c, s, steps).Some?
    ensures Inv(c, Run(c, s, steps).value) && Run(c, s, steps).value.maxBuilds == s.maxBuilds
    decreases |steps|
  {
    hide LocksOk, CacheOk, Enabled, Next;
    if steps != [] {
      StepKeepsLimit(c, s, steps[0]);
      StepKeepsLocks(c, s, steps[0]);
      StepKeepsCache(c, s, steps[0]);
      RunKeepsInv(c, Next(c, s, steps[0]), steps[1..]);
    }
  }

  /** For every interleaving: no two builds for one hash are at work at once, no hash is ever built twice with
      success, nothing is built that is cached, and the builds at work are at most as many as allowed. */
  lemma BuildsAreExclusive(c: Config, maxBuilds: nat, steps: seq<Step>)
    requires Run(c, Start(maxBuilds), steps).Some?
    ensures var t := Run(c, Start(maxBuilds), steps).value;
      && |AtWork(t)| <= maxBuilds
      && (forall i, j | i in AtWork(t) && j in AtWork(t)
                        && HashOf(c, t.requests[i].request) == HashOf(c, t.requests[j].request) :: i == j)
      && (forall i | i in AtWork(t) :: HashOf(c, t.requests[i].request) !in t.cache)
      && NoRepeats(t.successes) && (forall h :: h in t.successes <==> h in t.cache)
  {
    StartIsInv(c, maxBuilds);
    RunKeepsInv(c, Start(maxBuilds), steps);
  }

  // ----- cached and uncached answers -----------------------------------------------------------

  /** What a build process does when nothing stops it. */
  datatype Process = Process(code: int, stdout: string, stderr: string, duration: real)

  /** Builds are deterministic: the process depends on the parent session, the dependency key, the theory name and
      the text alone. */
  type World = (string, string, string, string) -> Process

  function ProcessOf(c: Config, world: World, q: Request): Process {
    world(ParentOf(q.field), KeyOf(c, q), q.theoryName, q.text)
  }

  function OutcomeOf(c: Config, world: World, q: Request): Outcome {
    var p := ProcessOf(c, world, q);
    if p.duration > q.timeout then TimedOut else Exited(p.code, p.stdout, p.stderr)
  }

  /** The answer without a cache. */
  function Uncached(c: Config, world: World, q: Request): Result {
    RunBuild(c, q, OutcomeOf(c, world, q), 0.0)
  }

  ghost predicate SameButTime(a: Result, b: Result) {
    a.(executionTime := 0.0) == b.(executionTime := 0.0)
  }

  /** In this run builds do what the world says. */
  ghost predicate Deterministic(c: Config, world: World, s: State, steps: seq<Step>)
    requires Run(c, s, steps).Some?
    decreases |steps|
  {
    steps == [] ||
    (&& (steps[0].FinishStep? ==> steps[0].outcome == OutcomeOf(c, world, s.requests[steps[0].id].request))
     && Deterministic(c, world, Next(c, s, steps[0]), steps[1..]))
  }

  ghost predicate TrueAnswer(c: Config, world: World, s: State, p: Phase) {
    && (p.Answered? && !p.cached ==> SameButTime(p.result, Uncached(c, world, p.request)))
    && (p.Answered? && p.cached ==>
          && HashOf(c, p.request) in s.cache
          && p.result == s.cache[HashOf(c, p.request)].(executionTime := 0.0))
  }

  ghost predicate WasAnswered(s: State, q: Request) {
    exists i :: i in s.requests && s.requests[i].Answered? && s.requests[i].request == q
  }

  ghost predicate Truthful(c: Config, world: World, s: State) {
    && (forall i | i in s.requests :: TrueAnswer(c, world, s, s.requests[i]))
    && (forall h | h in s.origin ::
          && s.origin[h].1 == OutcomeOf(c, world, s.origin[h].0)
          && WasAnswered(s, s.origin[h].0))
  }

  lemma AnswersStay(s: State, t: State, id: RequestId, q: Request)
    requires WasAnswered(s, q) && (id !in s.requests || !s.requests[id].Answered?)
    requires forall i | i != id && i in s.requests :: i in t.requests && t.requests[i] == s.requests[i]
    ensures WasAnswered(t, q)
  {
    var i :| i in s.requests && s.requests[i].Answered? && s.requests[i].request == q;
    assert i in t.requests && t.requests[i] == s.requests[i];
  }

  /** A step of the request `id` under which the cache can only grow. */
  lemma TruthStays(c: Config, world: World, s: State, t: State, id: RequestId)
    requires Truthful(c, world, s)
    requires forall h | h in s.cache :: h in t.cache && t.cache[h] == s.cache[h]
    requires forall i | i != id :: (i in t.requests <==> i in s.requests)
               && (i in s.requests ==> t.requests[i] == s.requests[i])
    requires id !in s.requests || !s.requests[id].Answered?
    requires id in t.requests ==> TrueAnswer(c, world, t, t.requests[id])
    requires forall h | h in t.origin && !(h in s.origin && s.origin[h] == t.origin[h]) ::
               t.origin[h].1 == OutcomeOf(c, world, t.origin[h].0) && WasAnswered(t, t.origin[h].0)
    ensures Truthful(c, world, t)
  {
    hide SameButTime, Uncached, HashOf, OutcomeOf, WasAnswered;
    forall h | h in t.origin
      ensures WasAnswered(t, t.origin[h].0)
    {
      if h in s.origin && s.origin[h] == t.origin[h] {
        AnswersStay(s, t, id, s.origin[h].0);
      }
    }
  }

  lemma NoAnswerIsTrue(c: Config, world: World, t: State, p: Phase)
    requires !p.Answered?
    ensures TrueAnswer(c, world, t, p)
  {
  }

  lemma LookIsTrue(c: Config, world: World, s: State, id: RequestId, q: Request, otherwise: Phase)
    requires Truthful(c, world, s) && !otherwise.Answered? && otherwise.request == q
    requires id !in s.requests || !s.requests[id].Answered?
    ensures Truthful(c, world, Look(c, s, id, q, otherwise))
  {
    hide HashOf, OutcomeOf, SameButTime, Uncached, Truthful, WasAnswered;
    var t := Look(c, s, id, q, otherwise);
    assert TrueAnswer(c, world, t, t.requests[id]);
    TruthStays(c, world, s, t, id);
  }

  lemma HolderIsUncached(c: Config, s: State, id: RequestId)
    requires Inv(c, s) && id in s.requests && HasLock(s.requests[id])
    ensures HashOf(c, s.requests[id].request) !in s.cache
  {
  }

  lemma ElapsedOnly(c: Config, q: Request, outcome: Outcome, elapsed: real)
    ensures SameButTime(RunBuild(c, q, outcome, elapsed), RunBuild(c, q, outcome, 0.0))
  {
  }

  lemma LocksAreOk(c: Config, s: State)
    requires Inv(c, s)
    ensures LocksOk(c, s)
  {
  }

  lemma LockIsFreed(c: Config, s: State, t: State, id: RequestId)
    requires LocksOk(c, s)
    requires forall i | i != id :: (i in t.requests <==> i in s.requests)
               && (i in s.requests ==> t.requests[i] == s.requests[i])
    requires id in s.requests && HasLock(s.requests[id]) && !(id in t.requests && HasLock(t.requests[id]))
    ensures forall h :: LockHeld(c, t, h) <==> LockHeld(c, s, h) && h != HashOf(c, s.requests[id].request)
  {
    hide HashOf;
    forall h | LockHeld(c, s, h) && h != HashOf(c, s.requests[id].request)
      ensures LockHeld(c, t, h)
    {
      var i :| i in s.requests && HasLock(s.requests[i]) && HashOf(c, s.requests[i].request) == h;
      assert i in t.requests && HasLock(t.requests[i]);
    }
  }

  lemma FinishFacts(c: Config, s: State, id: RequestId, outcome: Outcome, elapsed: real)
    requires Inv(c, s) && Enabled(c, s, FinishStep(id, outcome, elapsed))
    ensures var t, q := Next(c, s, FinishStep(id, outcome, elapsed)), s.requests[id].request;
      var r := RunBuild(c, q, outcome, elapsed);
      && t.requests == s.requests[id := Answered(q, r, false)] && t.permits == s.permits + 1
      && t.cache == (if r.success then s.cache[HashOf(c, q) := r] else s.cache)
      && forall h :: LockHeld(c, t, h) <==> LockHeld(c, s, h) && h != HashOf(c, q)
  {
    hide Inv, HashOf, RunBuild, LockHeld, LocksOk;
    LocksAreOk(c, s);
    LockIsFreed(c, s, Next(c, s, FinishStep(id, outcome, elapsed)), id);
  }

  lemma FinishIsTrue(c: Config, world: World, s: State, t: State, id: RequestId, outcome: Outcome, elapsed: real)
    requires Inv(c, s) && Enabled(c, s, FinishStep(id, outcome, elapsed))
    requires t == Next(c, s, FinishStep(id, outcome, elapsed))
    requires outcome == OutcomeOf(c, world, s.requests[id].request)
    ensures TrueAnswer(c, world, t, t.requests[id])
    ensures forall h | h in s.cache :: h in t.cache && t.cache[h] == s.cache[h]
  {
    HolderIsUncached(c, s, id);
    hide Inv, HashOf, RunBuild, OutcomeOf, LockHeld, Next, SameButTime;
    ElapsedOnly(c, s.requests[id].request, outcome, elapsed);
    FinishFacts(c, s, id, outcome, elapsed);
  }

  lemma StepKeepsTruthful(c: Config, world: World, s: State, step: Step)
    requires Inv(c, s) && Enabled(c, s, step) && Truthful(c, world, s)
    requires step.FinishStep? ==> step.outcome == OutcomeOf(c, world, s.requests[step.id].request)
    ensures Truthful(c, world, Next(c, s, step))
  {
    hide LocksOk, CacheOk, RunBuild, HashOf, OutcomeOf, LockHeld, SameButTime, Uncached, TrueAnswer;
    var t := Next(c, s, step);
    match step {
      case VerifyStep(id, q) => LookIsTrue(c, world, s, id, q, Locking(q));
      case LockStep(id) =>
        LookIsTrue(c, world, s, id, s.requests[id].request, Locked(s.requests[id].request));
      case PermitStep(id) =>
        NoAnswerIsTrue(c, world, t, Building(s.requests[id].request));
        TruthStays(c, world, s, t, id);
      case FinishStep(id, outcome, elapsed) =>
        FinishIsTrue(c, world, s, t, id, outcome, elapsed);
        assert WasAnswered(t, s.requests[id].request);
        TruthStays(c, world, s, t, id);
      case AbortStep(id) => TruthStays(c, world, s, t, id);
    }
  }

  lemma {:induction false} RunKeepsTruthful(c: Config, world: World, s: State, steps: seq<Step>)
    requires Inv(c, s) && Truthful(c, world, s) && Run(c, s, steps).Some? && Deterministic(c, world, s, steps)
    ensures Inv(c, Run(c, s, steps).value) && Truthful(c, world, Run(c, s, steps).value)
    decreases |steps|
  {
    hide LocksOk, CacheOk, Enabled, Next, Truthful;
    if steps != [] {
      StepKeepsLimit(c, s, steps[0]);
      StepKeepsLocks(c, s, steps[0]);
      StepKeepsCache(c, s, steps[0]);
      StepKeepsTruthful(c, world, s, steps[0]);
      RunKeepsTruthful(c, world, Next(c, s, steps[0]), steps[1..]);
    }
  }

  ghost predicate GoodHash(hash: string -> string) {
    Injective(hash) && forall x :: IsHex(hash(x))
  }

  /** The parent session of one request holds that of the other and its key, and the texts make up for the rest. */
  ghost predicate Confused(c: Config, q0: Request, q: Request) {
    || Swallows(ParentOf(q0.field), KeyOf(c, q0), q0.text, ParentOf(q.field), KeyOf(c, q), q.text)
    || Swallows(ParentOf(q.field), KeyOf(c, q), q.text, ParentOf(q0.field), KeyOf(c, q0), q0.text)
  }

  /** When two requests share a hash, for all parent sessions: exactly when they submit the same to the same parent, or
      their parents can be confused. */
  lemma HashesAgree(c: Config, q0: Request, q: Request)
    requires GoodHash(c.hash)
    ensures HashOf(c, q0) == HashOf(c, q) <==>
              || (ParentOf(q0.field) == ParentOf(q.field) && KeyOf(c, q0) == KeyOf(c, q) && q0.text == q.text)
              || Confused(c, q0, q)
  {
    hide ParentOf, DepsOf, Swallows, TheoryHash, Injective;
    assert IsHex(KeyOf(c, q0)) && IsHex(KeyOf(c, q));
    TheoryHashesAgree(c.hash, ParentOf(q0.field), KeyOf(c, q0), q0.text, ParentOf(q.field), KeyOf(c, q), q.text);
  }

  /** A request that shares the hash of a successful one, and is not confused with it: its uncached answer is the same,
      up to the time, exactly when it gives the declared name and leaves the process enough time. */
  lemma SharedAnswer(c: Config, world: World, q0: Request, q: Request)
    requires GoodHash(c.hash) && HashOf(c, q0) == HashOf(c, q) && !Confused(c, q0, q)
    requires Uncached(c, world, q0).success
    ensures SameButTime(Uncached(c, world, q0), Uncached(c, world, q)) <==>
              c.declared(q.text) == Some(q.theoryName) && ProcessOf(c, world, q).duration <= q.timeout
  {
    hide GoodHash, KeyOf, ParentOf, HashOf, Tail, Confused;
    HashesAgree(c, q0, q);
    assert q0.text == q.text && c.declared(q.text) == Some(q0.theoryName);
  }

  /** With deterministic builds and an injective hash, for every interleaving: an answer whose request is not confused
      with an answered one agrees with the uncached answer, up to the time, exactly when it does not come from the
      cache, or its request gives the declared theory name and leaves the process enough time. */
  lemma CacheIsTransparent(c: Config, world: World, maxBuilds: nat, steps: seq<Step>, id: RequestId)
    requires GoodHash(c.hash)
    requires Run(c, Start(maxBuilds), steps).Some? && Deterministic(c, world, Start(maxBuilds), steps)
    requires var t := Run(c, Start(maxBuilds), steps).value;
      && id in t.requests && t.requests[id].Answered?
      && forall i | i in t.requests && t.requests[i].Answered? ::
           !Confused(c, t.requests[i].request, t.requests[id].request)
    ensures var p := Run(c, Start(maxBuilds), steps).value.requests[id];
      SameButTime(p.result, Uncached(c, world, p.request)) <==>
        !p.cached || (c.declared(p.request.text) == Some(p.request.theoryName)
                      && ProcessOf(c, world, p.request).duration <= p.request.timeout)
  {
    hide Run, Deterministic, LocksOk, GoodHash, HashOf, RunBuild, OutcomeOf, Confused;
    StartIsInv(c, maxBuilds);
    RunKeepsTruthful(c, world, Start(maxBuilds), steps);
    var t := Run(c, Start(maxBuilds), steps).value;
    var p := t.requests[id];
    assert TrueAnswer(c, world, t, p);
    if p.cached {
      var (q0, outcome, elapsed) := t.origin[HashOf(c, p.request)];
      assert WasAnswered(t, q0);
      ElapsedOnly(c, q0, outcome, elapsed);
      SharedAnswer(c, world, q0, p.request);
    }
  }

  // ----- two ways to a wrong answer ------------------------------------------------------------

  /** A success, and then another request. */
  function SuccessThen(q: Request, other: Request): seq<Step> {
    [VerifyStep(0, q), LockStep(0), PermitStep(0), FinishStep(0, Exited(0, "", ""), 1.0), VerifyStep(1, other)]
  }

  lemma TakeStep(c: Config, s: State, steps: seq<Step>, k: nat) returns (t: State)
    requires k < |steps| && Enabled(c, s, steps[k])
    ensures t == Next(c, s, steps[k]) && Run(c, s, steps[k..]) == Run(c, t, steps[k + 1..])
  {
    t := Next(c, s, steps[k]);
    assert steps[k..][0] == steps[k] && steps[k..][1..] == steps[k + 1..];
  }

  lemma NoStep(c: Config, s: State)
    ensures Run(c, s, []) == Some(s)
  {
  }

  lemma NameDecides(c: Config, q: Request, outcome: Outcome, elapsed: real)
    ensures RunBuild(c, q, outcome, elapsed).success <==>
              c.declared(q.text) == Some(q.theoryName) && outcome.Exited? && outcome.code == 0
  {
  }

  lemma SharedSuccess(c: Config, q: Request, other: Request)
    requires c.declared(q.text) == Some(q.theoryName) && HashOf(c, q) == HashOf(c, other)
    ensures var t := Run(c, Start(1), SuccessThen(q, other));
      && t.Some? && 1 in t.value.requests && t.value.requests[1].Answered?
      && t.value.requests[1].cached && t.value.requests[1].result.success
  {
    hide Run, HashOf, RunBuild;
    var r := SuccessThen(q, other);
    NameDecides(c, q, Exited(0, "", ""), 1.0);
    var s0 := Start(1);
    var s1 := TakeStep(c, s0, r, 0);
    var s2 := TakeStep(c, s1, r, 1);
    var s3 := TakeStep(c, s2, r, 2);
    var s4 := TakeStep(c, s3, r, 3);
    var s5 := TakeStep(c, s4, r, 4);
    assert r[0..] == r && r[5..] == [];
    NoStep(c, s5);
  }

  /** The cache key holds no theory name: with a wrong name the cached success is the answer, where a build would
      have failed whatever its process does. */
  lemma WrongNameIsAnswered(c: Config, q: Request, name: string, outcome: Outcome)
    requires c.declared(q.text) == Some(q.theoryName) && name != q.theoryName
    ensures var other := q.(theoryName := name);
      var t := Run(c, Start(1), SuccessThen(q, other));
      && t.Some? && 1 in t.value.requests && t.value.requests[1].Answered?
      && t.value.requests[1].result.success && !RunBuild(c, other, outcome, 0.0).success
  {
    SharedSuccess(c, q, q.(theoryName := name));
    NameDecides(c, q.(theoryName := name), outcome, 0.0);
  }

  /** The request, sent to a parent session that holds `field` and the key that the request has there. */
  function Extended(c: Config, field: string, q: Request): Request {
    q.(field := Some(field + "::" + KeyOf(c, q.(field := Some(field)))))
  }

  /** A request to `field` itself, whose text begins with the key of that one. */
  function Swallowed(c: Config, field: string, q: Request): Request {
    q.(field := Some(field), text := KeyOf(c, Extended(c, field, q)) + "::" + q.text)
  }

  lemma TrimmedParent(field: string)
    requires field != "" && !IsSpace(field[0]) && !IsSpace(field[|field| - 1])
    ensures ParentOf(Some(field)) == field
  {
    StripTrimmed(field);
  }

  lemma KeyIgnoresText(c: Config, q: Request, text: string)
    requires q.dependencies != []
    ensures KeyOf(c, q.(text := text)) == KeyOf(c, q)
  {
  }

  lemma SwallowedSharesHash(c: Config, field: string, q: Request)
    requires GoodHash(c.hash) && q.dependencies != []
    requires field != "" && !IsSpace(field[0]) && !IsSpace(field[|field| - 1])
    ensures HashOf(c, Swallowed(c, field, q)) == HashOf(c, Extended(c, field, q))
    ensures Confused(c, Swallowed(c, field, q), Extended(c, field, q))
  {
    var plain, longer := Swallowed(c, field, q), Extended(c, field, q);
    var k, l := KeyOf(c, q.(field := Some(field))), KeyOf(c, longer);
    KeyIgnoresText(c, q.(field := Some(field)), plain.text);
    assert KeyOf(c, plain) == k && IsHex(k);
    var parent := field + "::" + k;
    assert parent[|parent| - 1] == k[|k| - 1] && parent[0] == field[0];
    TrimmedParent(field);
    TrimmedParent(parent);
    ParentSwallows(c.hash, field, k, l, q.text);
  }

  /** A request that gives the declared name and leaves its process any time can be answered with the success of another
      parent's submission, although its own build fails. */
  lemma ParentIsConfused(c: Config, field: string, q: Request, code: int, stdout: string, stderr: string)
    requires GoodHash(c.hash) && q.dependencies != [] && code != 0
    requires field != "" && !IsSpace(field[0]) && !IsSpace(field[|field| - 1])
    requires c.declared(q.text) == Some(q.theoryName)
    requires c.declared(Swallowed(c, field, q).text) == Some(q.theoryName)
    ensures var other := Extended(c, field, q);
      var t := Run(c, Start(1), SuccessThen(Swallowed(c, field, q), other));
      && c.declared(other.text) == Some(other.theoryName)
      && t.Some? && 1 in t.value.requests && t.value.requests[1].Answered?
      && t.value.requests[1].result.success && !RunBuild(c, other, Exited(code, stdout, stderr), 0.0).success
  {
    SwallowedSharesHash(c, field, q);
    SharedSuccess(c, Swallowed(c, field, q), Extended(c, field, q));
    NameDecides(c, Extended(c, field, q), Exited(code, stdout, stderr), 0.0);
  }

  // ----- the object ----------------------------------------------------------------------------

  /** A step of a request that has no lock before or after, or has it before and after, moves no lock. */
  lemma LockHoldersStay(c: Config, s: State, t: State, id: RequestId)
    requires forall i | i != id :: (i in t.requests <==> i in s.requests)
               && (i in s.requests ==> t.requests[i] == s.requests[i])
    requires id in t.requests && HasLock(t.requests[id]) ==>
               id in s.requests && HasLock(s.requests[id]) && t.requests[id].request == s.requests[id].request
    requires id in s.requests && HasLock(s.requests[id]) ==> id in t.requests && HasLock(t.requests[id])
    ensures forall h :: LockHeld(c, t, h) <==> LockHeld(c, s, h)
  {
    hide HashOf;
    forall h | LockHeld(c, s, h)
      ensures LockHeld(c, t, h)
    {
      var i :| i in s.requests && HasLock(s.requests[i]) && HashOf(c, s.requests[i].request) == h;
      assert i in t.requests && HasLock(t.requests[i]);
    }
  }

  lemma LockIsTaken(c: Config, s: State, t: State, id: RequestId)
    requires forall i | i != id :: (i in t.requests <==> i in s.requests)
               && (i in s.requests ==> t.requests[i] == s.requests[i])
    requires id in s.requests && !HasLock(s.requests[id]) && id in t.requests && HasLock(t.requests[id])
    ensures forall h :: LockHeld(c, t, h) <==> LockHeld(c, s, h) || h == HashOf(c, t.requests[id].request)
  {
    hide HashOf;
    forall h | LockHeld(c, s, h)
      ensures LockHeld(c, t, h)
    {
      var i :| i in s.requests && HasLock(s.requests[i]) && HashOf(c, s.requests[i].request) == h;
      assert i in t.requests && HasLock(t.requests[i]);
    }
  }

  /** Each method of the verifier runs from one await of `verify` to the next. */
  class BuildVerifier {
    const config: Config
    var cache: map<string, Result>
    /** The locks that were ever made, and whether each is held. */
    var locks: map<string, bool>
    var permits: nat

    ghost predicate Represents(s: State)
      reads this
    {
      && cache == s.cache && permits == s.permits
      && (forall h :: (h in locks && locks[h]) <==> LockHeld(config, s, h))
      && (forall i | i in s.requests && s.requests[i].Locking? :: HashOf(config, s.requests[i].request) in locks)
    }

    constructor (config: Config, maxBuilds: nat)
      ensures Represents(Start(maxBuilds)) && this.config == config
    {
      this.config := config;
      cache, locks, permits := map[], map[], maxBuilds;
    }

    /** The first look at the cache; without an answer the lock of the hash is made, if there is none. */
    method FirstLook(id: RequestId, q: Request, ghost s: State) returns (answer: Option<Result>)
      requires Inv(config, s) && Represents(s) && Enabled(config, s, VerifyStep(id, q))
      modifies this`locks
      ensures Represents(Next(config, s, VerifyStep(id, q)))
      ensures Next(config, s, VerifyStep(id, q)).requests[id] == if answer.Some? then Answered(q, answer.value, true)
                else Locking(q)
    {
      hide Inv, HashOf, LockHeld;
      var hash := HashOf(config, q);
      LockHoldersStay(config, s, Next(config, s, VerifyStep(id, q)), id);
      if hash in cache {
        return Some(cache[hash].(executionTime := 0.0));
      }
      if hash !in locks {
        locks := locks[hash := false];
      }
      return None;
    }

    /** The lock has been taken: the second look at the cache. */
    method SecondLook(id: RequestId, q: Request, ghost s: State) returns (answer: Option<Result>)
      requires Inv(config, s) && Represents(s) && Enabled(config, s, LockStep(id)) && s.requests[id].request == q
      modifies this`locks
      ensures Represents(Next(config, s, LockStep(id)))
      ensures Next(config, s, LockStep(id)).requests[id] == if answer.Some? then Answered(q, answer.value, true)
                else Locked(q)
    {
      hide Inv, HashOf, LockHeld;
      var hash := HashOf(config, q);
      ghost var t := Next(config, s, LockStep(id));
      assert forall i | i != id :: i in s.requests <==> i in t.requests;
      if hash in cache {
        LockHoldersStay(config, s, t, id);
        return Some(cache[hash].(executionTime := 0.0));
      }
      LockIsTaken(config, s, t, id);
      locks := locks[hash := true];
      return None;
    }

    /** The semaphore has been passed. */
    method BeginBuild(id: RequestId, ghost s: State)
      requires Inv(config, s) && Represents(s) && Enabled(config, s, PermitStep(id))
      modifies this`permits
      ensures Represents(Next(config, s, PermitStep(id)))
    {
      hide Inv, HashOf, LockHeld;
      LockHoldersStay(config, s, Next(config, s, PermitStep(id)), id);
      permits := permits - 1;
    }

    /** The build is over: a success is cached, and permit and lock are given back. */
    method FinishBuild(id: RequestId, q: Request, outcome: Outcome, elapsed: real, ghost s: State)
      returns (result: Result)
      requires Inv(config, s) && Represents(s) && Enabled(config, s, FinishStep(id, outcome, elapsed))
      requires s.requests[id].request == q
      modifies this`cache, this`locks, this`permits
      ensures Represents(Next(config, s, FinishStep(id, outcome, elapsed)))
      ensures Next(config, s, FinishStep(id, outcome, elapsed)).requests[id] == Answered(q, result, false)
    {
      hide Inv, HashOf, RunBuild, LockHeld, Next, Enabled;
      var hash := HashOf(config, q);
      FinishFacts(config, s, id, outcome, elapsed);
      result := RunBuild(config, q, outcome, elapsed);
      permits := permits + 1;
      if result.success {
        cache := cache[hash := result];
      }
      locks := locks[hash := false];
    }
  }
}
