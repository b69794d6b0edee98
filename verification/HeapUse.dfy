/** What the heap registry of server/app/services/heap_pool.py does for its users: a heap that has been built is
    given to sessions, one that has been deleted is forgotten, and the ROOT file that is written names what is built. */
module HeapUse {
  import opened Text
  import opened HeapRegistry

  // ----- the ROOT file -------------------------------------------------------------------------

  function TheoryLineList(theories: seq<string>): (r: seq<string>)
    ensures |r| == |theories| && forall k | 0 <= k < |r| :: r[k] == "    " + theories[k]
  {
    seq(|theories|, k requires 0 <= k < |theories| => "    " + theories[k])
  }

  lemma {:induction false} TheoryLinesAre(theories: seq<string>)
    requires theories != []
    ensures TheoryLines(theories) == Join(TheoryLineList(theories), "\n") + "\n"
  {
    var r := TheoryLineList(theories);
    if |theories| > 1 {
      TheoryLinesAre(theories[1..]);
      assert r[1..] == TheoryLineList(theories[1..]);
    } else {
      assert TheoryLines(theories[1..]) == "";
    }
  }

  function RootLines(n: string, project: string, theories: seq<string>): seq<string> {
    ["session " + n + " = HOL +", "  directories \"" + project + "\"", "  theories"] + TheoryLineList(theories) + [""]
  }

  lemma JoinOne(a: string, sep: string)
    ensures Join([a], sep) == a
  {
  }

  lemma Regroup(a: string, n: string, b: string, nl: string, c: string, p: string, d: string, e: string, t: string)
    ensures a + n + (b + nl + c) + p + (d + nl + e + nl) + (t + nl)
         == (a + n + b) + nl + ((c + p + d) + nl + e) + nl + t + nl + ""
  {
  }

  lemma Pieces(n: string, project: string, t: string)
    ensures "session " + n + " = HOL +\n  directories \"" + project + "\"\n  theories\n" + (t + "\n")
         == ("session " + n + " = HOL +") + "\n" + (("  directories \"" + project + "\"") + "\n" + "  theories") + "\n"
            + t + "\n" + ""
  {
    assert " = HOL +\n  directories \"" == " = HOL +" + "\n" + "  directories \"";
    assert "\"\n  theories\n" == "\"" + "\n" + "  theories" + "\n";
    Regroup("session ", n, " = HOL +", "\n", "  directories \"", project, "\"", "  theories", t);
  }

  lemma JoinTwo(b: string, c: string, sep: string)
    ensures Join([b, c], sep) == b + sep + c
  {
    assert [b, c][1..] == [c];
  }

  lemma JoinThree(a: string, b: string, c: string, sep: string)
    ensures Join([a, b, c], sep) == a + sep + (b + sep + c)
  {
    assert [a, b, c][1..] == [b, c];
    JoinTwo(b, c, sep);
  }

  lemma RootText(n: string, project: string, theories: seq<string>)
    requires theories != []
    ensures "session " + n + " = HOL +\n  directories \"" + project + "\"\n  theories\n" + TheoryLines(theories)
         == Join(RootLines(n, project, theories), "\n")
  {
    hide TheoryLines, Join;
    var head := ["session " + n + " = HOL +", "  directories \"" + project + "\"", "  theories"];
    var lines := TheoryLineList(theories);
    TheoryLinesAre(theories);
    JoinAppend(head, lines, "\n");
    JoinAppend(head + lines, [""], "\n");
    JoinThree(head[0], head[1], head[2], "\n");
    JoinOne("", "\n");
    Pieces(n, project, Join(lines, "\n"));
  }

  /** A project without a ROOT of its own gets one, line by line: the session over HOL, its directory, and its theories
      in order. */
  lemma ScratchRootLines(key: Key, p: Project, name: Option<string>)
    requires p.root.None? && RootAndSession(key, p, name).Some?
    ensures var (dir, n, text) := RootAndSession(key, p, name).value;
      && dir == Scratch(key.group, key.project) && p.theories != []
      && n == (if name.Some? && name.value != "" then name.value else DefaultSessionName(p.baseName))
      && IsSessionName(n)
      && text == Join(RootLines(n, key.project, p.theories), "\n")
  {
    hide TheoryLines, IsSessionName, Join;
    var (_, n, _) := RootAndSession(key, p, name).value;
    RootText(n, key.project, p.theories);
  }

  // ----- a heap that is built ------------------------------------------------------------------

  /** A rebuild that gives no session name keeps the registered one. */
  lemma RebuildKeepsName(s: State, id: nat, p: Project)
    requires Enabled(s, StartStep(id, p)) && s.builds[id].name.None?
    requires s.builds[id].key in s.entries && s.entries[s.builds[id].key].sessionName != ""
    ensures var (key, t) := (s.builds[id].key, Next(s, StartStep(id, p)));
      key in t.entries && t.entries[key].sessionName == s.entries[key].sessionName
  {
  }

  /** What a build is about when it starts. */
  ghost predicate Starts(s: State, id: nat, p: Project) {
    && Enabled(s, StartStep(id, p))
    && Prepare(s.builds[id], NameIn(s, s.builds[id].key), p).Some?
  }

  /** While a build is at work its entry says so, with the files and the text that it is built from; sessions are
      refused it. */
  lemma BuildIsAnnounced(s: State, id: nat, p: Project, sources: Option<seq<Source>>)
    requires Inv(s) && Starts(s, id, p)
    ensures var (b, t) := (s.builds[id], Next(s, StartStep(id, p)));
      && b.key in t.entries && t.disk == s.disk[b.key := t.entries[b.key]]
      && t.entries == s.entries[b.key := t.entries[b.key]]
      && var e := t.entries[b.key];
         && e.key == b.key && e.status == Building && e.files == p.sources && e.builtBy == b.builtBy
         && (p.root.Some? ==> e.rootText == p.root.value && e.rootDir == InProject)
         && (p.root.Some? && b.name.Some? && b.name.value != "" ==> e.sessionName == b.name.value)
         && e.fingerprint == Fingerprint(e.rootText, p.sources) && e.builtAt == None
         && Gate(t, b.key.group, None, Some(b.key.project), sources).0 == NotReady
  {
  }

  /** When a build ends with success, sessions of the group that name its project are given its heap, as long as the
      sources are those that it was built from; it is on disk and its image is there. */
  lemma BuiltHeapIsGiven(s: State, id: nat, p: Project, log: string, now: real)
    requires Inv(s) && Starts(s, id, p)
    ensures var (key, t) := (s.builds[id].key, Next(s, StartStep(id, p)));
      && Enabled(t, EndStep(id, true, log, now))
      && var u := Next(t, EndStep(id, true, log, now));
         && key in u.entries && id !in u.builds && u.permits == s.permits
         && u.entries[key] == t.entries[key].(status := Ready, log := Tail(log, 4000), builtAt := Some(now))
         && u.disk == s.disk[key := u.entries[key]] && u.entries == s.entries[key := u.entries[key]]
         && u.images == s.images + {u.entries[key].sessionName}
         && Gate(u, key.group, None, Some(key.project), Some(p.sources)).0 == Resolved(u.entries[key])
  {
    hide RootAndSession;
    BuildIsAnnounced(s, id, p, None);
  }

  /** When it fails, they are refused, whatever the sources are. */
  lemma FailedBuildIsRefused(s: State, id: nat, p: Project, log: string, now: real, sources: Option<seq<Source>>)
    requires Inv(s) && Starts(s, id, p)
    ensures var (key, t) := (s.builds[id].key, Next(s, StartStep(id, p)));
      && Enabled(t, EndStep(id, false, log, now))
      && var u := Next(t, EndStep(id, false, log, now));
         && key in u.entries && id !in u.builds && u.permits == s.permits && u.images == s.images
         && u.entries[key] == t.entries[key].(status := Failed, log := Tail(log, 4000), builtAt := None)
         && u.disk == s.disk[key := u.entries[key]] && u.entries == s.entries[key := u.entries[key]]
         && Gate(u, key.group, None, Some(key.project), sources).0 == NotReady
  {
    hide RootAndSession;
    BuildIsAnnounced(s, id, p, None);
  }

  lemma EntryIsFingerprinted(s: State, key: Key, dirOf: string -> string, n: nat)
    requires Inv(s) && AllFingerprinted(s, dirOf, n) && key in s.entries
    ensures var e := s.entries[key];
      e.key == key && e.fingerprint == Fingerprint(e.rootText, e.files) && FilesOf(dirOf(key.project), n, e.files)
  {
  }

  /** When the files of a ready heap are no longer those that it was built from, the look at it marks it as stale, in
      the registry and on disk; then it is refused, whatever the files are, until it is built again. Otherwise the
      look changes nothing. */
  lemma StaleIsMarked(s: State, key: Key, sources: Option<seq<Source>>, later: Option<seq<Source>>,
                      dirOf: string -> string, n: nat)
    requires Inv(s) && AllFingerprinted(s, dirOf, n) && key in s.entries && s.entries[key].status == Ready
    requires sources.Some? ==> FilesOf(dirOf(key.project), n, sources.value)
    ensures var (e, t) := (s.entries[key], Next(s, StaleStep(key, sources)));
      if sources.Some? && Recorded(sources.value) == Recorded(e.files) then t == s
      else
        && t == s.(entries := s.entries[key := e.(status := Stale)], disk := s.disk[key := e.(status := Stale)])
        && Gate(t, key.group, None, Some(key.project), later).0 == NotReady
  {
    hide Fingerprint, FilesOf, Recorded;
    var e := s.entries[key];
    EntryIsFingerprinted(s, key, dirOf, n);
    if sources.Some? {
      FingerprintIsInjective(e.rootText, dirOf(key.project), n, sources.value, e.files);
    }
  }

  /** A step that ends the build `id`: its end, its cancellation, or a start for which the project cannot be built. */
  ghost predicate EndsBuild(s: State, step: Step, id: nat) {
    && Enabled(s, step) && id in s.builds
    && ((step.EndStep? && step.id == id) || (step.CancelStep? && step.id == id)
        || (step.StartStep? && step.id == id && Prepare(s.builds[id], NameIn(s, s.builds[id].key), step.project).None?))
  }

  /** Then the key is free for the next request, which is at work on it; and all other builds go on. */
  lemma KeyIsFreeAgain(s: State, step: Step, id: nat, next: nat, name: Option<string>, builtBy: Option<string>)
    requires Inv(s) && EndsBuild(s, step, id)
    ensures var (key, t) := (s.builds[id].key, Next(s, step));
      && t.builds == s.builds - {id} && t.locks == s.locks - {key} && key in s.locks
      && t.permits == s.permits + (if s.builds[id].entry.Some? then 1 else 0)
      && (next !in t.builds ==>
            && Enabled(t, RequestStep(next, key, name, builtBy))
            && Next(t, RequestStep(next, key, name, builtBy)).builds
                == t.builds[next := Build(key, name, builtBy, None)])
  {
    hide Prepare, RootAndSession;
    assert s.builds[id].key in s.locks;
  }

  /** While a build has the key, another request for it changes nothing. */
  lemma KeyIsTaken(s: State, id: nat, next: nat, name: Option<string>, builtBy: Option<string>)
    requires Inv(s) && id in s.builds && Enabled(s, RequestStep(next, s.builds[id].key, name, builtBy))
    ensures Next(s, RequestStep(next, s.builds[id].key, name, builtBy)) == s
  {
  }

  // ----- a heap that is deleted ----------------------------------------------------------------

  /** A deletion takes out the entry and its manifest and nothing else; the image goes exactly when collection is on
      and no other entry has its session name; builds go on. */
  lemma DeletionForgets(s: State, key: Key)
    requires Inv(s) && key in s.entries
    ensures var t := Next(s, DeleteStep(key));
      && (forall k :: k in t.entries <==> k in s.entries && k != key)
      && (forall k | k in t.entries :: t.entries[k] == s.entries[k])
      && (forall k :: k in t.disk <==> k in s.disk && k != key)
      && (forall k | k in t.disk :: t.disk[k] == s.disk[k])
      && (forall n :: n in t.images <==>
            n in s.images && !(s.gcImages && n == s.entries[key].sessionName
                               && forall k | k in s.entries && k != key :: s.entries[k].sessionName != n))
      && t.builds == s.builds && t.locks == s.locks && t.permits == s.permits
  {
  }

  lemma NotFoundWithout(s: State, group: string, project: string, sources: Option<seq<Source>>)
    requires forall k | k in s.entries :: k.project != project
    ensures Gate(s, group, None, Some(project), sources).0 == NotFound
  {
  }

  /** A restart loads every manifest; a build that was at work has failed, with a note at the end of its log. */
  lemma RestartLoads(s: State)
    ensures var t := Next(s, RestartStep);
      && t.entries.Keys == s.disk.Keys && t.disk == s.disk && t.builds == map[] && t.locks == {}
      && t.permits == s.maxBuilds && t.images == s.images
      && forall k | k in s.disk ::
           if s.disk[k].status == Building then
             && t.entries[k] == s.disk[k].(status := Failed, log := t.entries[k].log)
             && t.entries[k].log == Strip(s.disk[k].log + "\n[heap_pool] build interrupted by server restart")
           else t.entries[k] == s.disk[k]
  {
  }

  /** Then sessions that name its project are told that there is no such heap, unless another group has one. */
  lemma DeletedIsNotFound(s: State, key: Key, sources: Option<seq<Source>>)
    requires Inv(s) && key in s.entries
    requires forall k | k in s.entries && k.project == key.project :: k.group == key.group
    ensures Gate(Next(s, DeleteStep(key)), key.group, None, Some(key.project), sources).0 == NotFound
  {
    hide Inv, Gate, Referenced;
    DeletionForgets(s, key);
    var t := Next(s, DeleteStep(key));
    assert forall k | k in t.entries && k.project == key.project :: k == Key(key.group, key.project);
    NotFoundWithout(t, key.group, key.project, sources);
  }

  /** And after a restart as well. */
  lemma DeletedStaysAway(s: State, key: Key, sources: Option<seq<Source>>)
    requires Inv(s) && key in s.entries && Agrees(s)
    requires forall k | k in s.entries && k.project == key.project :: k.group == key.group
    ensures Gate(Next(Next(s, DeleteStep(key)), RestartStep), key.group, None, Some(key.project), sources).0 == NotFound
  {
    hide Inv, Gate, Interrupted, Referenced;
    SameKeys(s);
    DeletionForgets(s, key);
    var t := Next(s, DeleteStep(key));
    RestartLoads(t);
    assert forall k | k in t.disk && k.project == key.project :: k == Key(key.group, key.project);
    NotFoundWithout(Next(t, RestartStep), key.group, key.project, sources);
  }
}
