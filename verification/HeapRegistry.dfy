/** The registry of verified heaps and its manifests on disk, server/app/services/heap_pool.py, as a machine whose
    steps are the turns of the event loop between awaits. */
module HeapRegistry {
  import opened Text

  datatype Status = Building | Ready | Stale | Failed

  datatype Key = Key(group: string, project: string)

  datatype Source = Source(path: string, sha256: string, mtime: real)

  datatype RootDir = InProject | Scratch(group: string, project: string)

  datatype Entry = Entry(key: Key, sessionName: string, rootDir: RootDir, rootText: string, files: seq<Source>,
                         fingerprint: string, status: Status, log: string, builtAt: Option<real>,
                         builtBy: Option<string>)

  // ----- what a build writes down --------------------------------------------------------------

  /** A project directory at one moment: its own ROOT file with the session name that can be read off it, the last
      part of its path, and its theory files. */
  datatype Project = Project(isDir: bool, root: Option<string>, rootName: Option<string>, baseName: string,
                             theories: seq<string>, sources: seq<Source>)

  predicate IsNameChar(c: char) {
    IsLetter(c) || '0' <= c <= '9' || c == '_'
  }

  /** The pattern for session names; its `$` also accepts one line feed at the end. */
  predicate IsSessionName(name: string) {
    var body := if name != "" && name[|name| - 1] == '\n' then name[..|name| - 1] else name;
    body != "" && IsLetter(body[0]) && forall c | c in body :: IsNameChar(c)
  }

  function Underscored(base: string): (r: string)
    ensures |r| == |base| && forall k | 0 <= k < |r| :: r[k] == if IsNameChar(base[k]) then base[k] else '_'
  {
    seq(|base|, k requires 0 <= k < |base| => if IsNameChar(base[k]) then base[k] else '_')
  }

  /** The session name made from the directory is always accepted. */
  function DefaultSessionName(base: string): (r: string)
    ensures IsSessionName(r) && (r == Underscored(base) || r == "Heap_" + Underscored(base))
  {
    var u := Underscored(base);
    if u == "" || !IsLetter(u[0]) then
      "Heap_" + u
    else u
  }

  function TheoryLines(theories: seq<string>): string {
    if theories == [] then "" else "    " + theories[0] + "\n" + TheoryLines(theories[1..])
  }

  function RootAndSession(key: Key, p: Project, name: Option<string>): Option<(RootDir, string, string)> {
    var given := name.Some? && name.value != "";
    if p.root.Some? then
      if given then Some((InProject, name.value, p.root.value))
      else if p.rootName.Some? then Some((InProject, p.rootName.value, p.root.value))
      else None
    else
      var n := if given then name.value else DefaultSessionName(p.baseName);
      if !IsSessionName(n) || p.theories == [] then None
      else Some((Scratch(key.group, key.project), n,
                 "session " + n + " = HOL +\n  directories \"" + key.project + "\"\n  theories\n"
                     + TheoryLines(p.theories)))
  }

  /** The text that is hashed: the ROOT and, for each file, its path and its hash. The hash itself is taken to be
      injective, and the text stands for it. */
  function Fingerprint(rootText: string, files: seq<Source>): string
    decreases |files|
  {
    if files == [] then rootText
    else Fingerprint(rootText, files[..|files| - 1]) + files[|files| - 1].path + files[|files| - 1].sha256
  }

  function Finished(e: Entry, ok: bool, log: string, now: real): Entry {
    e.(log := Tail(log, 4000), builtAt := if ok then Some(now) else None, status := if ok then Ready else Failed)
  }

  // ----- the machine ---------------------------------------------------------------------------

  /** A call of `build` that holds the lock of its key; it has no entry while it waits for the semaphore. */
  datatype Build = Build(key: Key, name: Option<string>, builtBy: Option<string>, entry: Option<Entry>)

  /** `images` are the names of the heap images on disk, `permits` what is left of the semaphore. */
  datatype State = State(entries: map<Key, Entry>, disk: map<Key, Entry>, locks: set<Key>, builds: map<nat, Build>,
                         permits: nat, images: set<string>, maxBuilds: nat, gcImages: bool)

  datatype Step =
    | RequestStep(id: nat, key: Key, name: Option<string>, builtBy: Option<string>)
    | StartStep(id: nat, project: Project)
    | EndStep(id: nat, ok: bool, log: string, now: real)
    | CancelStep(id: nat)
    | StaleStep(key: Key, sources: Option<seq<Source>>)
    | DeleteStep(key: Key)
    | RestartStep

  predicate Enabled(s: State, step: Step) {
    match step
    case RequestStep(id, _, _, _) => id !in s.builds
    case StartStep(id, _) => id in s.builds && s.builds[id].entry.None? && s.permits > 0
    case EndStep(id, _, _, _) => id in s.builds && s.builds[id].entry.Some?
    case CancelStep(id) => id in s.builds
    case StaleStep(key, _) => key in s.entries
    case DeleteStep(_) => true
    case RestartStep => true
  }

  /** The manifest as it is loaded at startup. */
  function Interrupted(e: Entry): Entry {
    if e.status == Building then
      e.(status := Failed, log := Strip(e.log + "\n[heap_pool] build interrupted by server restart"))
    else e
  }

  function Recover(m: map<Key, Entry>): (r: map<Key, Entry>)
    ensures r.Keys == m.Keys && forall k | k in m :: r[k] == Interrupted(m[k])
  {
    map k | k in m :: Interrupted(m[k])
  }

  function NameIn(s: State, key: Key): Option<string> {
    if key in s.entries then Some(s.entries[key].sessionName) else None
  }

  /** The entry that a build starts with, if the project can be built; `registered` is the session name that the
      registry has for the key. */
  function Prepare(b: Build, registered: Option<string>, p: Project): Option<Entry> {
    var name := if b.name.None? then registered else b.name;
    var root := RootAndSession(b.key, p, name);
    if !p.isDir || root.None? then None
    else
      var (dir, n, text) := root.value;
      Some(Entry(b.key, n, dir, text, p.sources, Fingerprint(text, p.sources), Building, "", None, b.builtBy))
  }

  function Release(s: State, id: nat): State
    requires id in s.builds
  {
    s.(builds := s.builds - {id}, locks := s.locks - {s.builds[id].key},
       permits := if s.builds[id].entry.Some? then s.permits + 1 else s.permits)
  }

  /** `check_stale`; without sources the project could not be read. */
  predicate IsStale(e: Entry, sources: Option<seq<Source>>) {
    e.status == Ready && (sources.None? || Fingerprint(e.rootText, sources.value) != e.fingerprint)
  }

  predicate Referenced(entries: map<Key, Entry>, name: string) {
    exists k :: k in entries && entries[k].sessionName == name
  }

  function Deleted(s: State, key: Key): State {
    if key !in s.entries then s
    else
      var rest, name := s.entries - {key}, s.entries[key].sessionName;
      s.(entries := rest, disk := s.disk - {key},
         images := if s.gcImages && !Referenced(rest, name) then s.images - {name} else s.images)
  }

  /** A build and the registry share one entry object as long as the key is registered. */
  function Next(s: State, step: Step): State
    requires Enabled(s, step)
  {
    match step
    case RequestStep(id, key, name, builtBy) =>
      if key in s.locks then s else s.(locks := s.locks + {key},
          builds := s.builds[id := Build(key, name, builtBy, None)])
    case StartStep(id, p) =>
      var b := s.builds[id];
      var e := Prepare(b, NameIn(s, b.key), p);
      if e.None? then Release(s, id)
      else s.(entries := s.entries[b.key := e.value], disk := s.disk[b.key := e.value],
              builds := s.builds[id := b.(entry := e)], permits := s.permits - 1)
    case EndStep(id, ok, log, now) =>
      var key, e := s.builds[id].key, Finished(s.builds[id].entry.value, ok, log, now);
      Release(s, id).(entries := if key in s.entries then s.entries[key := e] else s.entries, disk := s.disk[key := e],
                      images := if ok then s.images + {e.sessionName} else s.images)
    case CancelStep(id) => Release(s, id)
    case StaleStep(key, sources) =>
      if !IsStale(s.entries[key], sources) then s
      else
        var e := s.entries[key].(status := Stale);
        s.(entries := s.entries[key := e], disk := s.disk[key := e])
    case DeleteStep(key) => Deleted(s, key)
    case RestartStep => s.(entries := Recover(s.disk), locks := {}, builds := map[], permits := s.maxBuilds)
  }

  function Run(s: State, steps: seq<Step>): Option<State>
    decreases |steps|
  {
    if steps == [] then Some(s)
    else if Enabled(s, steps[0]) then Run(Next(s, steps[0]), steps[1..])
    else None
  }

  /** The server starts on the manifests that it finds. */
  function Start(disk: map<Key, Entry>, images: set<string>, maxBuilds: nat, gcImages: bool): State {
    State(Recover(disk), disk, {}, map[], maxBuilds, images, maxBuilds, gcImages)
  }

  // ----- builds --------------------------------------------------------------------------------

  function Running(s: State): set<nat> {
    set id | id in s.builds && s.builds[id].entry.Some?
  }

  ghost predicate Keyed(m: map<Key, Entry>) {
    forall k | k in m :: m[k].key == k
  }

  ghost predicate LocksOk(s: State) {
    && (forall k :: k in s.locks <==> exists id :: id in s.builds && s.builds[id].key == k)
    && (forall i, j | i in s.builds && j in s.builds && s.builds[i].key == s.builds[j].key :: i == j)
  }

  /** A build at work has an entry for its own key, and it is the one in the registry if there is one. */
  ghost predicate BuildsOk(s: State) {
    forall id | id in s.builds && s.builds[id].entry.Some? ::
      var b := s.builds[id];
      && b.entry.value.key == b.key && b.entry.value.status == Building
      && (b.key in s.entries ==> s.entries[b.key] == b.entry.value)
  }

  ghost predicate Inv(s: State) {
    && LocksOk(s) && BuildsOk(s) && Keyed(s.entries) && Keyed(s.disk)
    && s.permits + |Running(s)| == s.maxBuilds
  }

  lemma StartIsInv(disk: map<Key, Entry>, images: set<string>, maxBuilds: nat, gcImages: bool)
    requires Keyed(disk)
    ensures Inv(Start(disk, images, maxBuilds, gcImages))
  {
    assert Running(Start(disk, images, maxBuilds, gcImages)) == {};
  }

  lemma ReleaseKeeps(s: State, id: nat)
    requires Inv(s) && id in s.builds
    ensures Inv(Release(s, id))
  {
    var t := Release(s, id);
    assert Running(t) == Running(s) - {id};
    forall k
      ensures k in t.locks <==> exists i :: i in t.builds && t.builds[i].key == k
    {
      if k in t.locks {
        var i :| i in s.builds && s.builds[i].key == k;
        assert i in t.builds;
      }
    }
  }

  lemma PrepareFacts(b: Build, registered: Option<string>, p: Project)
    ensures var e := Prepare(b, registered, p);
      e.Some? ==> e.value.key == b.key && e.value.status == Building
  {
  }

  lemma OthersHaveOtherKeys(s: State, id: nat)
    requires LocksOk(s) && id in s.builds
    ensures forall i | i in s.builds && i != id :: s.builds[i].key != s.builds[id].key
  {
  }

  lemma StartedBuildsOk(s: State, id: nat, p: Project)
    requires LocksOk(s) && BuildsOk(s) && Enabled(s, StartStep(id, p))
    requires Prepare(s.builds[id], NameIn(s, s.builds[id].key), p).Some?
    ensures BuildsOk(Next(s, StartStep(id, p)))
  {
    hide Prepare, LocksOk, NameIn;
    PrepareFacts(s.builds[id], NameIn(s, s.builds[id].key), p);
    OthersHaveOtherKeys(s, id);
  }

  lemma InvParts(s: State)
    requires Inv(s)
    ensures LocksOk(s) && BuildsOk(s) && Keyed(s.entries) && Keyed(s.disk)
    ensures s.permits + |Running(s)| == s.maxBuilds
  {
  }

  lemma InvFromParts(s: State)
    requires LocksOk(s) && BuildsOk(s) && Keyed(s.entries) && Keyed(s.disk)
    requires s.permits + |Running(s)| == s.maxBuilds
    ensures Inv(s)
  {
  }

  lemma LocksFollowKeys(s: State, t: State)
    requires LocksOk(s) && t.locks == s.locks && t.builds.Keys == s.builds.Keys
    requires forall i | i in s.builds :: t.builds[i].key == s.builds[i].key
    ensures LocksOk(t)
  {
    assert forall i :: i in s.builds <==> i in t.builds;
  }

  lemma BuildStarts(s: State, id: nat, p: Project)
    requires Inv(s) && Enabled(s, StartStep(id, p))
    requires Prepare(s.builds[id], NameIn(s, s.builds[id].key), p).Some?
    ensures Inv(Next(s, StartStep(id, p)))
  {
    hide Inv, Prepare, LocksOk, NameIn, BuildsOk;
    InvParts(s);
    PrepareFacts(s.builds[id], NameIn(s, s.builds[id].key), p);
    StartedBuildsOk(s, id, p);
    var t := Next(s, StartStep(id, p));
    assert Running(t) == Running(s) + {id};
    LocksFollowKeys(s, t);
    InvFromParts(t);
  }

  lemma StartKeeps(s: State, id: nat, p: Project)
    requires Inv(s) && Enabled(s, StartStep(id, p))
    ensures Inv(Next(s, StartStep(id, p)))
  {
    hide Inv, Prepare;
    if Prepare(s.builds[id], NameIn(s, s.builds[id].key), p).None? {
      ReleaseKeeps(s, id);
    } else {
      BuildStarts(s, id, p);
    }
  }

  lemma RequestKeeps(s: State, step: Step)
    requires Inv(s) && Enabled(s, step) && step.RequestStep?
    ensures Inv(Next(s, step))
  {
    var t := Next(s, step);
    if step.key !in s.locks {
      assert Running(t) == Running(s);
      assert t.builds[step.id].key == step.key;
      assert forall i | i in s.builds :: t.builds[i] == s.builds[i];
    }
  }

  /** A step that starts and ends no build, and changes no entry of a build at work. */
  lemma QuietKeeps(s: State, t: State)
    requires Inv(s) && t.builds == s.builds && t.locks == s.locks && t.permits == s.permits
    requires t.maxBuilds == s.maxBuilds
    requires Keyed(t.entries) && Keyed(t.disk)
    requires forall k | k in t.entries :: k in s.entries && (t.entries[k] == s.entries[k]
               || s.entries[k].status == Ready)
    ensures Inv(t)
  {
    assert Running(t) == Running(s);
    LocksFollowKeys(s, t);
    hide LocksOk, Running;
  }

  lemma InvIsKeyed(s: State)
    requires Inv(s)
    ensures Keyed(s.entries) && Keyed(s.disk)
  {
  }

  lemma RestartKeeps(s: State)
    requires Keyed(s.disk)
    ensures Inv(Next(s, RestartStep))
  {
    assert Running(Next(s, RestartStep)) == {};
  }

  lemma EndKeeps(s: State, id: nat, ok: bool, log: string, now: real)
    requires Inv(s) && Enabled(s, EndStep(id, ok, log, now))
    ensures Inv(Next(s, EndStep(id, ok, log, now)))
  {
    hide Inv, LocksOk, Tail;
    ReleaseKeeps(s, id);
    InvParts(s);
    OthersHaveOtherKeys(s, id);
    var u, t := Release(s, id), Next(s, EndStep(id, ok, log, now));
    InvParts(u);
    assert Running(t) == Running(u);
    LocksFollowKeys(u, t);
    InvFromParts(t);
  }

  lemma StepKeepsInv(s: State, step: Step)
    requires Inv(s) && Enabled(s, step)
    ensures Inv(Next(s, step))
  {
    hide Inv, Fingerprint, Prepare, Referenced;
    InvIsKeyed(s);
    match step {
      case RequestStep(_, _, _, _) => RequestKeeps(s, step);
      case StartStep(id, p) => StartKeeps(s, id, p);
      case EndStep(id, ok, log, now) => EndKeeps(s, id, ok, log, now);
      case CancelStep(id) => ReleaseKeeps(s, id);
      case StaleStep(_, _) => QuietKeeps(s, Next(s, step));
      case DeleteStep(_) => QuietKeeps(s, Next(s, step));
      case RestartStep => RestartKeeps(s);
    }
  }

  lemma {:induction false} RunKeepsInv(s: State, steps: seq<Step>)
    requires Inv(s) && Run(s, steps).Some?
    ensures Inv(Run(s, steps).value) && Run(s, steps).value.maxBuilds == s.maxBuilds
    decreases |steps|
  {
    if steps != [] {
      StepKeepsInv(s, steps[0]);
      RunKeepsInv(Next(s, steps[0]), steps[1..]);
    }
  }

  /** For every interleaving: never more builds at work than the semaphore allows, and never two for one key. */
  lemma BuildsAreLimited(disk: map<Key, Entry>, images: set<string>, maxBuilds: nat, gcImages: bool, steps: seq<Step>)
    requires Keyed(disk) && Run(Start(disk, images, maxBuilds, gcImages), steps).Some?
    ensures var t := Run(Start(disk, images, maxBuilds, gcImages), steps).value;
      && |Running(t)| <= maxBuilds
      && forall i, j | i in Running(t) && j in Running(t) && t.builds[i].key == t.builds[j].key :: i == j
  {
    StartIsInv(disk, images, maxBuilds, gcImages);
    RunKeepsInv(Start(disk, images, maxBuilds, gcImages), steps);
  }

  // ----- crash recovery ------------------------------------------------------------------------

  /** A restart would find on disk what the registry holds. */
  ghost predicate Agrees(s: State) {
    Recover(s.disk) == Recover(s.entries)
  }

  /** The end of a build whose key has been deleted meanwhile. */
  predicate EndsDeleted(s: State, step: Step) {
    step.EndStep? && step.id in s.builds && s.builds[step.id].key !in s.entries
  }

  lemma SameKeys(s: State)
    requires Agrees(s)
    ensures s.disk.Keys == s.entries.Keys
    ensures forall k | k in s.disk :: Interrupted(s.disk[k]) == Interrupted(s.entries[k])
  {
    assert Recover(s.disk).Keys == Recover(s.entries).Keys;
    forall k | k in s.disk
      ensures Interrupted(s.disk[k]) == Interrupted(s.entries[k])
    {
      assert Recover(s.disk)[k] == Recover(s.entries)[k];
    }
  }

  lemma RecoverTwice(m: map<Key, Entry>)
    ensures Recover(Recover(m)) == Recover(m)
  {
  }

  lemma PutBoth(s: State, key: Key, e: Entry)
    requires Agrees(s)
    ensures Recover(s.disk[key := e]) == Recover(s.entries[key := e])
    ensures Recover(s.disk - {key}) == Recover(s.entries - {key})
  {
    SameKeys(s);
  }

  /** A step keeps disk and registry in agreement exactly when it is not the end of a build whose key has been
      deleted meanwhile. */
  lemma StepAgreement(s: State, step: Step)
    requires Inv(s) && Enabled(s, step) && Agrees(s)
    ensures Agrees(Next(s, step)) <==> !EndsDeleted(s, step)
  {
    SameKeys(s);
    var t := Next(s, step);
    match step {
      case StartStep(id, p) =>
        var e := Prepare(s.builds[id], NameIn(s, s.builds[id].key), p);
        if e.Some? {
          PutBoth(s, s.builds[id].key, e.value);
        }
      case EndStep(id, ok, log, now) =>
        PutBoth(s, s.builds[id].key, Finished(s.builds[id].entry.value, ok, log, now));
        if EndsDeleted(s, step) {
          assert s.builds[id].key in Recover(t.disk).Keys;
          assert s.builds[id].key !in Recover(t.entries).Keys;
        }
      case StaleStep(key, sources) => PutBoth(s, key, s.entries[key].(status := Stale));
      case DeleteStep(key) =>
        if key in s.entries {
          PutBoth(s, key, s.entries[key]);
        }
      case RestartStep => RecoverTwice(s.disk);
      case _ =>
    }
  }

  /** No step deletes a key whose build is at work. */
  ghost predicate NoDeleteInFlight(s: State, steps: seq<Step>)
    requires Run(s, steps).Some?
    decreases |steps|
  {
    steps == [] ||
    (&& (steps[0].DeleteStep? ==> forall id | id in Running(s) :: s.builds[id].key != steps[0].key)
     && NoDeleteInFlight(Next(s, steps[0]), steps[1..]))
  }

  /** Every build at work is registered. */
  ghost predicate AllRegistered(s: State) {
    forall id | id in Running(s) :: s.builds[id].key in s.entries
  }

  lemma StepKeepsRegistered(s: State, step: Step)
    requires Inv(s) && Enabled(s, step) && AllRegistered(s)
    requires step.DeleteStep? ==> forall id | id in Running(s) :: s.builds[id].key != step.key
    ensures AllRegistered(Next(s, step)) && !EndsDeleted(s, step)
  {
    var t := Next(s, step);
    forall id | id in Running(t)
      ensures t.builds[id].key in t.entries
    {
      assert id in Running(s) || (step.StartStep? && step.id == id);
    }
    if step.EndStep? {
      assert step.id in Running(s);
    }
  }

  /** The heap images that ready and stale entries stand for are on disk. */
  ghost predicate ImagesThere(s: State) {
    forall k | k in s.entries && (s.entries[k].status == Ready || s.entries[k].status == Stale) ::
        s.entries[k].sessionName in s.images
  }

  lemma DeleteKeepsImages(s: State, key: Key)
    requires ImagesThere(s)
    ensures ImagesThere(Deleted(s, key))
  {
    var t := Deleted(s, key);
    assert forall k | k in t.entries :: Referenced(t.entries, t.entries[k].sessionName);
  }

  lemma RestartKeepsImages(s: State)
    requires Agrees(s) && ImagesThere(s)
    ensures ImagesThere(Next(s, RestartStep))
  {
    SameKeys(s);
  }

  lemma StepKeepsImages(s: State, step: Step)
    requires Inv(s) && Enabled(s, step) && Agrees(s) && ImagesThere(s)
    ensures ImagesThere(Next(s, step))
  {
    hide Fingerprint, LocksOk, BuildsOk, Keyed, Recover, Agrees, Deleted;
    match step {
      case StartStep(id, project) =>
        PrepareFacts(s.builds[id], NameIn(s, s.builds[id].key), project);
        hide Prepare;
      case DeleteStep(key) => DeleteKeepsImages(s, key);
      case RestartStep => RestartKeepsImages(s);
      case _ =>
    }
  }

  lemma {:induction false} RunKeepsAgreement(s: State, steps: seq<Step>)
    requires Inv(s) && Agrees(s) && AllRegistered(s)
    requires Run(s, steps).Some? && NoDeleteInFlight(s, steps)
    ensures Agrees(Run(s, steps).value)
    ensures ImagesThere(s) ==> ImagesThere(Run(s, steps).value)
    decreases |steps|
  {
    if steps != [] {
      StepKeepsInv(s, steps[0]);
      StepAgreement(s, steps[0]);
      StepKeepsRegistered(s, steps[0]);
      if ImagesThere(s) {
        StepKeepsImages(s, steps[0]);
      }
      RunKeepsAgreement(Next(s, steps[0]), steps[1..]);
    }
  }

  /** The manifests that the server finds say truly which images there are. */
  ghost predicate HasImages(disk: map<Key, Entry>, images: set<string>) {
    forall k | k in disk && (disk[k].status == Ready || disk[k].status == Stale) :: disk[k].sessionName in images
  }

  lemma StartAgrees(disk: map<Key, Entry>, images: set<string>, maxBuilds: nat, gcImages: bool)
    ensures var s := Start(disk, images, maxBuilds, gcImages);
      Agrees(s) && AllRegistered(s) && (HasImages(disk, images) ==> ImagesThere(s))
  {
    var s := Start(disk, images, maxBuilds, gcImages);
    assert Recover(s.entries) == Recover(s.disk);
  }

  /** Over every run of the server from its start in which no key is deleted while its build is at work: a restart
      restores the registry, with the builds at work turned into failures; and if the manifests were true of the
      images in the beginning, every ready or stale entry has its heap image. */
  lemma CrashRecovery(disk: map<Key, Entry>, images: set<string>, maxBuilds: nat, gcImages: bool, steps: seq<Step>)
    requires Keyed(disk) && Run(Start(disk, images, maxBuilds, gcImages), steps).Some?
    requires NoDeleteInFlight(Start(disk, images, maxBuilds, gcImages), steps)
    ensures var t := Run(Start(disk, images, maxBuilds, gcImages), steps).value;
      && Next(t, RestartStep).entries == Recover(t.entries)
      && (HasImages(disk, images) ==> ImagesThere(t))
  {
    StartIsInv(disk, images, maxBuilds, gcImages);
    StartAgrees(disk, images, maxBuilds, gcImages);
    RunKeepsAgreement(Start(disk, images, maxBuilds, gcImages), steps);
  }

  /** A key that is deleted while its build is at work is back after the build has ended and the server restarted. */
  lemma DeletedKeyComesBack(s: State, id: nat, ok: bool, log: string, now: real)
    requires Inv(s) && id in Running(s)
    ensures var t := Next(Next(Next(s, DeleteStep(s.builds[id].key)), EndStep(id, ok, log, now)), RestartStep);
      && s.builds[id].key in t.entries
      && t.entries[s.builds[id].key].status == if ok then Ready else Failed
  {
  }

  /** From the start of a server without heaps: a build starts, its key is deleted, the build ends, and the server is
      restarted. */
  function DeleteRun(key: Key, p: Project, log: string, now: real): seq<Step> {
    [RequestStep(0, key, None, None), StartStep(0, p), DeleteStep(key), EndStep(0, true, log, now), RestartStep]
  }

  lemma TakeStep(s: State, steps: seq<Step>, k: nat) returns (t: State)
    requires k < |steps| && Enabled(s, steps[k])
    ensures t == Next(s, steps[k]) && Run(s, steps[k..]) == Run(t, steps[k + 1..])
  {
    t := Next(s, steps[k]);
    assert steps[k..][0] == steps[k] && steps[k..][1..] == steps[k + 1..];
  }

  lemma NoStep(s: State)
    ensures Run(s, []) == Some(s)
  {
  }

  /** In this way a server comes to have a heap that has been deleted. */
  lemma DeletedHeapIsThere(key: Key, p: Project, log: string, now: real)
    requires p.isDir && RootAndSession(key, p, None).Some?
    ensures var r := Run(Start(map[], {}, 1, true), DeleteRun(key, p, log, now));
      r.Some? && key in r.value.entries && r.value.entries[key].status == Ready
  {
    hide Run, RootAndSession, Fingerprint;
    var r := DeleteRun(key, p, log, now);
    var s0 := Start(map[], {}, 1, true);
    var s1 := TakeStep(s0, r, 0);
    var s2 := TakeStep(s1, r, 1);
    var s3 := TakeStep(s2, r, 2);
    var s4 := TakeStep(s3, r, 3);
    var s5 := TakeStep(s4, r, 4);
    assert r[0..] == r && r[5..] == [];
    NoStep(s5);
  }

  // ----- fingerprints --------------------------------------------------------------------------

  /** What is recorded of a file, save the time of its last change. */
  function Recorded(files: seq<Source>): (r: seq<(string, string)>)
    ensures |r| == |files| && forall k | 0 <= k < |r| :: r[k] == (files[k].path, files[k].sha256)
  {
    seq(|files|, k requires 0 <= k < |files| => (files[k].path, files[k].sha256))
  }

  ghost predicate FileOf(dir: string, n: nat, file: Source) {
    |file.sha256| == n && exists name :: '/' !in name && file.path == dir + "/" + name
  }

  /** Files of one directory, with hashes of length `n`. */
  ghost predicate FilesOf(dir: string, n: nat, files: seq<Source>) {
    forall k | 0 <= k < |files| :: FileOf(dir, n, files[k])
  }

  /** Texts that end in paths of one directory: the last slash tells the paths apart. */
  lemma PathsAtEnd(x: string, a: string, y: string, b: string, dir: string)
    requires '/' !in a && '/' !in b && x + (dir + "/" + a) == y + (dir + "/" + b)
    ensures x == y && a == b
  {
    var s, t := x + (dir + "/" + a), y + (dir + "/" + b);
    var i, j := |x| + |dir|, |y| + |dir|;
    assert s[i] == '/' && t[j] == '/';
    assert forall k | i < k < |s| :: s[k] == a[k - i - 1] && a[k - i - 1] in a;
    assert forall k | j < k < |t| :: t[k] == b[k - j - 1] && b[k - j - 1] in b;
    assert i == j;
    assert s[..|x|] == x && t[..|y|] == y && s[i + 1..] == a && t[j + 1..] == b;
  }

  /** Two texts that end in parts of one length: the parts agree, and what precedes them. */
  lemma PartsAtEnd(x: string, a: string, y: string, b: string)
    requires |a| == |b| && x + a == y + b
    ensures x == y && a == b
  {
    assert (x + a)[..|x|] == x && (y + b)[..|y|] == y && (x + a)[|x|..] == a && (y + b)[|y|..] == b;
  }

  lemma {:induction false} FingerprintGrows(rootText: string, dir: string, n: nat, files: seq<Source>)
    requires FilesOf(dir, n, files)
    ensures |Fingerprint(rootText, files)| >= |rootText| + |files|
  {
    if files != [] {
      FingerprintGrows(rootText, dir, n, files[..|files| - 1]);
      assert FileOf(dir, n, files[|files| - 1]);
      assert files[|files| - 1].path != "";
    }
  }

  lemma RecordedLast(a: seq<Source>, b: seq<Source>)
    requires a != [] && b != []
    ensures var (x, y) := (a[|a| - 1], b[|b| - 1]);
      Recorded(a) == Recorded(b) <==>
        Recorded(a[..|a| - 1]) == Recorded(b[..|b| - 1]) && x.path == y.path && x.sha256 == y.sha256
  {
    var (x, y) := (a[|a| - 1], b[|b| - 1]);
    assert Recorded(a) == Recorded(a[..|a| - 1]) + [(x.path, x.sha256)];
    assert Recorded(b) == Recorded(b[..|b| - 1]) + [(y.path, y.sha256)];
  }

  lemma LastFiles(rootText: string, dir: string, n: nat, a: seq<Source>, b: seq<Source>)
    requires FilesOf(dir, n, a) && FilesOf(dir, n, b) && a != [] && b != []
    ensures var (x, y) := (a[|a| - 1], b[|b| - 1]);
      Fingerprint(rootText, a) == Fingerprint(rootText, b) <==>
        && Fingerprint(rootText, a[..|a| - 1]) == Fingerprint(rootText, b[..|b| - 1])
        && x.path == y.path && x.sha256 == y.sha256
  {
    var (x, y) := (a[|a| - 1], b[|b| - 1]);
    var (f, g) := (Fingerprint(rootText, a[..|a| - 1]), Fingerprint(rootText, b[..|b| - 1]));
    if Fingerprint(rootText, a) == Fingerprint(rootText, b) {
      assert FileOf(dir, n, x) && FileOf(dir, n, y);
      PartsAtEnd(f + x.path, x.sha256, g + y.path, y.sha256);
      var p :| '/' !in p && x.path == dir + "/" + p;
      var q :| '/' !in q && y.path == dir + "/" + q;
      PathsAtEnd(f, p, g, q, dir);
    }
  }

  /** Equal fingerprints come from equal files. */
  lemma {:induction false} FingerprintIsInjective(rootText: string, dir: string, n: nat, a: seq<Source>, b: seq<Source>)
    requires FilesOf(dir, n, a) && FilesOf(dir, n, b)
    ensures Fingerprint(rootText, a) == Fingerprint(rootText, b) <==> Recorded(a) == Recorded(b)
    decreases |a|
  {
    FingerprintGrows(rootText, dir, n, a);
    FingerprintGrows(rootText, dir, n, b);
    if a != [] && b != [] {
      var (a', b') := (a[..|a| - 1], b[..|b| - 1]);
      FingerprintIsInjective(rootText, dir, n, a', b');
      LastFiles(rootText, dir, n, a, b);
      RecordedLast(a, b);
    } else if a == [] && b == [] {
      assert Recorded(a) == Recorded(b);
    }
  }

  /** An entry carries the fingerprint of its own files, and they are files of its project's directory; `dirOf` is the
      path that a project's directory has in the paths of its files. */
  ghost predicate Fingerprinted(e: Entry, dirOf: string -> string, n: nat) {
    e.fingerprint == Fingerprint(e.rootText, e.files) && FilesOf(dirOf(e.key.project), n, e.files)
  }

  ghost predicate AllFingerprinted(s: State, dirOf: string -> string, n: nat) {
    && (forall k | k in s.entries :: Fingerprinted(s.entries[k], dirOf, n))
    && (forall k | k in s.disk :: Fingerprinted(s.disk[k], dirOf, n))
    && (forall id | id in s.builds && s.builds[id].entry.Some? :: Fingerprinted(s.builds[id].entry.value, dirOf, n))
  }

  /** The scan of a build finds files of the project's directory. */
  ghost predicate ScansProject(s: State, step: Step, dirOf: string -> string, n: nat) {
    step.StartStep? && step.id in s.builds ==> FilesOf(dirOf(s.builds[step.id].key.project), n, step.project.sources)
  }

  lemma PreparedFingerprint(s: State, step: Step, dirOf: string -> string, n: nat)
    requires Enabled(s, step) && ScansProject(s, step, dirOf, n)
    ensures step.StartStep? ==>
      var e := Prepare(s.builds[step.id], NameIn(s, s.builds[step.id].key), step.project);
      e.Some? ==> Fingerprinted(e.value, dirOf, n)
  {
    hide Fingerprint, FilesOf, RootAndSession;
  }

  lemma StatusKeepsFingerprint(e: Entry, x: Entry, dirOf: string -> string, n: nat)
    requires x.(status := e.status, log := e.log, builtAt := e.builtAt) == e && Fingerprinted(e, dirOf, n)
    ensures Fingerprinted(x, dirOf, n)
  {
  }

  lemma StepKeepsFingerprints(s: State, step: Step, dirOf: string -> string, n: nat)
    requires Inv(s) && Enabled(s, step) && AllFingerprinted(s, dirOf, n) && ScansProject(s, step, dirOf, n)
    ensures AllFingerprinted(Next(s, step), dirOf, n)
  {
    hide Inv, Fingerprinted, Prepare, FilesOf;
    match step {
      case StartStep(_, _) => PreparedFingerprint(s, step, dirOf, n);
      case EndStep(id, ok, log, now) =>
        var e := s.builds[id].entry.value;
        StatusKeepsFingerprint(e, Finished(e, ok, log, now), dirOf, n);
      case StaleStep(key, _) => StatusKeepsFingerprint(s.entries[key], s.entries[key].(status := Stale), dirOf, n);
      case RestartStep =>
        forall k | k in s.disk
          ensures Fingerprinted(Interrupted(s.disk[k]), dirOf, n)
        {
          StatusKeepsFingerprint(s.disk[k], Interrupted(s.disk[k]), dirOf, n);
        }
      case _ =>
    }
  }

  /** The server starts so, if the manifests that it finds are such entries. */
  lemma StartHasFingerprints(disk: map<Key, Entry>, images: set<string>, maxBuilds: nat, gcImages: bool,
                             dirOf: string -> string, n: nat)
    requires forall k | k in disk :: Fingerprinted(disk[k], dirOf, n)
    ensures AllFingerprinted(Start(disk, images, maxBuilds, gcImages), dirOf, n)
  {
  }

  ghost predicate RunScansProjects(s: State, steps: seq<Step>, dirOf: string -> string, n: nat)
    requires Run(s, steps).Some?
    decreases |steps|
  {
    steps == []
    || (ScansProject(s, steps[0], dirOf, n) && RunScansProjects(Next(s, steps[0]), steps[1..], dirOf, n))
  }

  lemma {:induction false} RunKeepsFingerprints(s: State, steps: seq<Step>, dirOf: string -> string, n: nat)
    requires Inv(s) && AllFingerprinted(s, dirOf, n)
    requires Run(s, steps).Some? && RunScansProjects(s, steps, dirOf, n)
    ensures Inv(Run(s, steps).value) && AllFingerprinted(Run(s, steps).value, dirOf, n)
    decreases |steps|
  {
    hide Inv, Next, Enabled, AllFingerprinted, ScansProject;
    if steps != [] {
      StepKeepsInv(s, steps[0]);
      StepKeepsFingerprints(s, steps[0], dirOf, n);
      RunKeepsFingerprints(Next(s, steps[0]), steps[1..], dirOf, n);
    }
  }

  // ----- the gate for sessions -----------------------------------------------------------------

  datatype Resolution = Resolved(entry: Entry) | CrossGroup | NotFound | NotReady

  ghost function Named(entries: map<Key, Entry>, group: string, name: string): set<Key> {
    set k | k in entries && k.group == group && entries[k].sessionName == name
  }

  /** `find_by_session`: a name that several entries of the group share finds none. */
  ghost function FindBySession(entries: map<Key, Entry>, group: string, name: string): (r: Option<Key>)
    ensures r.Some? <==> |Named(entries, group, name)| == 1
    ensures r.Some? ==> Named(entries, group, name) == {r.value}
  {
    var keys := Named(entries, group, name);
    if |keys| != 1 then None
    else
      var k :| k in keys;
      assert |keys - {k}| == 0;
      assert keys == {k};
      Some(k)
  }

  predicate ExistsElsewhere(entries: map<Key, Entry>, group: string, name: Option<string>, project: Option<string>) {
    exists k :: k in entries && k.group != group && (project == Some(k.project) || name == Some(entries[k].sessionName))
  }

  /** The entry that a request means. */
  ghost function Meant(entries: map<Key, Entry>, group: string, name: Option<string>,
                       project: Option<string>): Option<Key> {
    if project.Some? && Key(group, project.value) in entries then Some(Key(group, project.value))
    else if name.Some? then FindBySession(entries, group, name.value)
    else None
  }

  /** `resolve_for_session`, and the registry that it leaves behind; `sources` are the sources of the entry's project
      when it is looked at. */
  ghost function Gate(s: State, group: string, name: Option<string>, project: Option<string>,
                      sources: Option<seq<Source>>)
    : (Resolution, State)
  {
    var key := Meant(s.entries, group, name, project);
    if key.None? then (if ExistsElsewhere(s.entries, group, name, project) then CrossGroup else NotFound, s)
    else
      var e := s.entries[key.value];
      match e.status
      case Building => (NotReady, s)
      case Failed => (NotReady, s)
      case Stale => (NotReady, s)
      case Ready =>
        (if IsStale(e, sources) then NotReady else Resolved(e), Next(s, StaleStep(key.value, sources)))
  }

  /** The group has a heap for this project, or exactly one of this name. */
  ghost predicate HasOwn(entries: map<Key, Entry>, group: string, name: Option<string>, project: Option<string>) {
    (project.Some? && Key(group, project.value) in entries) || (name.Some? && |Named(entries, group, name.value)| == 1)
  }

  lemma MeantIsOwn(s: State, group: string, name: Option<string>, project: Option<string>)
    requires Inv(s)
    ensures Keyed(s.entries)
    ensures ImagesThere(s) ==> forall k | k in s.entries && s.entries[k].status == Ready ::
              s.entries[k].sessionName in s.images
    ensures var key := Meant(s.entries, group, name, project);
      && (key.Some? <==> HasOwn(s.entries, group, name, project))
      && (key.Some? ==> key.value in s.entries && key.value.group == group
                        && (project == Some(key.value.project) || name == Some(s.entries[key.value].sessionName)))
  {
    var key := Meant(s.entries, group, name, project);
    if key.Some? && !(project.Some? && Key(group, project.value) in s.entries) {
      assert key.value in Named(s.entries, group, name.value);
    }
  }

  /** A session is only given a heap of its own group that is ready and whose image exists. Without a heap of its own it
      is told whether another group has one. */
  lemma SessionsGetOwnHeaps(s: State, group: string, name: Option<string>, project: Option<string>,
                            sources: Option<seq<Source>>)
    requires Inv(s) && ImagesThere(s)
    ensures var r := Gate(s, group, name, project, sources).0;
      && (r.Resolved? ==>
            && r.entry.key in s.entries && s.entries[r.entry.key] == r.entry && r.entry.key.group == group
            && (project == Some(r.entry.key.project) || name == Some(r.entry.sessionName))
            && r.entry.status == Ready && r.entry.sessionName in s.images)
      && (r.CrossGroup? || r.NotFound? <==> !HasOwn(s.entries, group, name, project))
      && (r.CrossGroup? ==> exists k :: k in s.entries && k.group != group
                                        && (project == Some(k.project) || name == Some(s.entries[k].sessionName)))
      && (r.NotFound? ==> forall k | k in s.entries && k.group != group ::
                            project != Some(k.project) && name != Some(s.entries[k].sessionName))
  {
    hide Inv, ImagesThere, Meant, Fingerprint, Next;
    MeantIsOwn(s, group, name, project);
  }

  /** After any run that has scanned its projects: a session that means a ready heap is given it exactly when the
      project can be read and holds the very files, by path and hash, that the heap was built from. */
  lemma SessionsGetFreshHeaps(s: State, group: string, name: Option<string>, project: Option<string>,
                              sources: Option<seq<Source>>, dirOf: string -> string, n: nat)
    requires Inv(s) && AllFingerprinted(s, dirOf, n)
    requires var key := Meant(s.entries, group, name, project);
      && key.Some? && s.entries[key.value].status == Ready
      && (sources.Some? ==> FilesOf(dirOf(key.value.project), n, sources.value))
    ensures var e := s.entries[Meant(s.entries, group, name, project).value];
      var r := Gate(s, group, name, project, sources).0;
      && (r == Resolved(e) <==> sources.Some? && Recorded(sources.value) == Recorded(e.files))
      && (r == Resolved(e) || r == NotReady)
  {
    hide Inv, Meant, Fingerprint, FilesOf, Recorded, Next;
    MeantIsOwn(s, group, name, project);
    var key := Meant(s.entries, group, name, project).value;
    var e := s.entries[key];
    if sources.Some? {
      FingerprintIsInjective(e.rootText, dirOf(key.project), n, sources.value, e.files);
    }
  }

  /** The gate changes nothing, or it refuses and takes the step that marks a ready heap whose sources have changed. */
  lemma GateOnlyMarksStale(s: State, group: string, name: Option<string>, project: Option<string>,
                           sources: Option<seq<Source>>)
    requires Inv(s)
    ensures var g := Gate(s, group, name, project, sources);
      || g.1 == s
      || (g.0.NotReady? && exists k ::
            k in s.entries && IsStale(s.entries[k], sources) && g.1 == Next(s, StaleStep(k, sources)))
  {
    MeantIsOwn(s, group, name, project);
    hide Inv, Meant, Fingerprint, Referenced;
  }
}
