/** The objects of server/app/services/heap_pool.py: entries that the registry shares with the builds at work. Each
    method takes the steps of the HeapRegistry machine that its contract names. */
module HeapPool {
  import opened Text
  import opened HeapRegistry

  class HeapEntry {
    const key: Key
    const sessionName: string
    const rootDir: RootDir
    const rootText: string
    const files: seq<Source>
    const fingerprint: string
    const builtBy: Option<string>
    var status: Status
    var log: string
    var builtAt: Option<real>

    function View(): Entry
      reads this
    {
      Entry(key, sessionName, rootDir, rootText, files, fingerprint, status, log, builtAt, builtBy)
    }

    constructor (e: Entry)
      ensures View() == e && key == e.key
    {
      key, sessionName, rootDir, rootText := e.key, e.sessionName, e.rootDir, e.rootText;
      files, fingerprint, builtBy := e.files, e.fingerprint, e.builtBy;
      status, log, builtAt := e.status, e.log, e.builtAt;
    }

    method Finish(ok: bool, log: string, now: real)
      modifies this
      ensures View() == Finished(old(View()), ok, log, now)
    {
      this.log := Tail(log, 4000);
      builtAt := if ok then Some(now) else None;
      status := if ok then Ready else Failed;
    }
  }

  /** The objects look like these values, each under its own key. */
  ghost predicate Shows(objects: map<Key, HeapEntry>, values: map<Key, Entry>)
    reads objects.Values
  {
    objects.Keys == values.Keys && forall k | k in objects :: objects[k].key == k && objects[k].View() == values[k]
  }

  /** A heap left in "building" comes back as a failure. */
  method FromManifest(e: Entry) returns (entry: HeapEntry)
    ensures fresh(entry) && entry.key == e.key && entry.View() == Interrupted(e)
  {
    entry := new HeapEntry(e);
    if entry.status == Building {
      entry.status := Failed;
      entry.log := Strip(entry.log + "\n[heap_pool] build interrupted by server restart");
    }
  }

  /** `_load_manifests` */
  method LoadManifests(disk: map<Key, Entry>) returns (entries: map<Key, HeapEntry>)
    requires Keyed(disk)
    ensures Shows(entries, Recover(disk)) && forall k | k in entries :: fresh(entries[k])
  {
    hide Interrupted;
    entries := map[];
    var todo := disk.Keys;
    while todo != {}
      invariant todo <= disk.Keys && entries.Keys == disk.Keys - todo
      invariant forall k | k in entries :: fresh(entries[k]) && entries[k].key == k
                  && entries[k].View() == Interrupted(disk[k])
      decreases |todo|
    {
      var k :| k in todo;
      var e := FromManifest(disk[k]);
      entries, todo := entries[k := e], todo - {k};
    }
  }

  /** The builds at work hold these objects, and share them with the registry. */
  ghost predicate Holds(held: map<nat, HeapEntry>, objects: map<Key, HeapEntry>, s: State)
    reads held.Values
  {
    && held.Keys == Running(s)
    && (forall id | id in held :: Some(held[id].View()) == s.builds[id].entry && held[id].key == s.builds[id].key)
    && (forall id | id in held && held[id].key in objects :: objects[held[id].key] == held[id])
  }

  function OfGroup(entries: map<Key, Entry>, group: string): set<Key> {
    set k | k in entries && k.group == group
  }

  /** `t` is what is left of `s` when these keys have been deleted. */
  ghost predicate WithoutKeys(s: State, t: State, gone: set<Key>) {
    && t.entries == s.entries - gone && t.disk == s.disk - gone && t.builds == s.builds
    && (Agrees(s) ==> Agrees(t)) && (Agrees(s) && ImagesThere(s) ==> ImagesThere(t))
  }

  lemma NoneDeleted(s: State)
    ensures WithoutKeys(s, s, {})
  {
  }

  lemma DeleteOneMore(s: State, t: State, gone: set<Key>, key: Key)
    requires Inv(t) && WithoutKeys(s, t, gone) && key in s.entries && key !in gone
    ensures var u := Next(t, DeleteStep(key));
      Inv(u) && WithoutKeys(s, u, gone + {key})
  {
    hide Inv;
    StepKeepsInv(t, DeleteStep(key));
    if Agrees(t) {
      StepAgreement(t, DeleteStep(key));
    }
    if Agrees(t) && ImagesThere(t) {
      StepKeepsImages(t, DeleteStep(key));
    }
    hide Agrees, ImagesThere;
    assert s.entries - gone - {key} == s.entries - (gone + {key});
    assert s.disk - gone - {key} == s.disk - (gone + {key});
  }

  lemma ShowsLess(objects: map<Key, HeapEntry>, values: map<Key, Entry>, key: Key)
    requires Shows(objects, values)
    ensures Shows(objects - {key}, values - {key})
  {
  }

  lemma SameNames(objects: map<Key, HeapEntry>, values: map<Key, Entry>, name: string)
    requires Shows(objects, values)
    ensures (exists k :: k in objects && objects[k].sessionName == name) <==> Referenced(values, name)
  {
    assert objects.Keys == values.Keys;
    assert forall k | k in objects :: objects[k].View().sessionName == values[k].sessionName;
  }

  lemma HoldsKept(held: map<nat, HeapEntry>, objects: map<Key, HeapEntry>, s: State, t: State)
    requires Holds(held, objects, s) && t.builds == s.builds
    ensures Holds(held, objects, t)
  {
    assert Running(t) == Running(s);
  }

  lemma HoldsFewer(held: map<nat, HeapEntry>, objects: map<Key, HeapEntry>, key: Key, s: State, t: State)
    requires Holds(held, objects, s) && t.builds == s.builds
    ensures Holds(held, objects - {key}, t)
  {
    assert Running(t) == Running(s);
  }

  /** Only `entry` has changed, and it is the object registered under its key, if there is one. */
  lemma ShowsChanged(objects: map<Key, HeapEntry>, values: map<Key, Entry>, entry: HeapEntry)
    requires objects.Keys == values.Keys
    requires forall k | k in objects :: objects[k].key == k && (objects[k] != entry ==> objects[k].View() == values[k])
    requires entry.key in objects ==> objects[entry.key] == entry
    ensures Shows(objects, if entry.key in objects then values[entry.key := entry.View()] else values)
  {
  }

  lemma HoldsLess(held: map<nat, HeapEntry>, objects: map<Key, HeapEntry>, s: State, t: State, id: nat)
    requires held.Keys == Running(s) && Running(t) == Running(s) - {id} && t.builds == s.builds - {id}
    requires forall j | j in held && j != id :: j in s.builds && Some(held[j].View()) == s.builds[j].entry
               && held[j].key == s.builds[j].key
    requires forall j | j in held && held[j].key in objects :: objects[held[j].key] == held[j]
    ensures Holds(held - {id}, objects, t)
  {
  }

  lemma HoldsSame(held: map<nat, HeapEntry>, objects: map<Key, HeapEntry>, s: State, t: State)
    requires Holds(held, objects, s) && Running(t) == Running(s)
    requires forall j | j in Running(s) :: t.builds[j] == s.builds[j]
    ensures Holds(held, objects, t)
  {
  }

  lemma ShowsPut(objects: map<Key, HeapEntry>, values: map<Key, Entry>, entry: HeapEntry)
    requires Shows(objects, values)
    ensures Shows(objects[entry.key := entry], values[entry.key := entry.View()])
  {
  }

  lemma HoldsPut(held: map<nat, HeapEntry>, objects: map<Key, HeapEntry>, s: State, t: State, id: nat, entry: HeapEntry)
    requires Holds(held, objects, s) && id in t.builds && Running(t) == Running(s) + {id}
    requires t.builds == s.builds[id := t.builds[id]] && t.builds[id].entry == Some(entry.View())
    requires t.builds[id].key == entry.key
    requires forall j | j in held && j != id :: held[j].key != entry.key
    ensures Holds(held[id := entry], objects[entry.key := entry], t)
  {
  }

  lemma StartFacts(s: State, id: nat, p: Project)
    requires Inv(s) && Enabled(s, StartStep(id, p))
    ensures var t, b := Next(s, StartStep(id, p)), s.builds[id];
      var e := Prepare(b, NameIn(s, b.key), p);
      && t.images == s.images && t.maxBuilds == s.maxBuilds && t.gcImages == s.gcImages
      && if e.None? then
           t == s.(builds := t.builds, locks := s.locks - {b.key}) && Running(t) == Running(s)
           && forall j | j in Running(s) :: t.builds[j] == s.builds[j]
         else
           && e.value.key == b.key && t.entries == s.entries[b.key := e.value] && t.disk == s.disk[b.key := e.value]
           && t.locks == s.locks && t.permits == s.permits - 1 && Running(t) == Running(s) + {id}
           && t.builds == s.builds[id := b.(entry := e)]
  {
    PrepareFacts(s.builds[id], NameIn(s, s.builds[id].key), p);
  }

  lemma EndFacts(s: State, id: nat, ok: bool, log: string, now: real)
    requires Inv(s) && Enabled(s, EndStep(id, ok, log, now))
    ensures var t, b := Next(s, EndStep(id, ok, log, now)), s.builds[id];
      var e := Finished(b.entry.value, ok, log, now);
      && t.maxBuilds == s.maxBuilds && t.gcImages == s.gcImages && e.key == b.key == b.entry.value.key
      && t.entries == (if b.key in s.entries then s.entries[b.key := e] else s.entries) && t.disk == s.disk[b.key := e]
      && t.images == (if ok then s.images + {e.sessionName} else s.images)
      && t.locks == s.locks - {b.key} && t.permits == s.permits + 1
      && t.builds == s.builds - {id} && Running(t) == Running(s) - {id}
  {
  }

  class HeapPool {
    const maxBuilds: nat
    const gcImages: bool
    var entries: map<Key, HeapEntry>
    var disk: map<Key, Entry>
    var images: set<string>
    var locks: set<Key>
    var permits: nat
    /** The entry objects that the builds at work hold. */
    ghost var held: map<nat, HeapEntry>

    /** The registry is in the state `s` of the machine. */
    ghost predicate Represents(s: State)
      reads this, entries.Values, held.Values
    {
      && disk == s.disk && images == s.images && locks == s.locks && permits == s.permits
      && maxBuilds == s.maxBuilds && gcImages == s.gcImages
      && Shows(entries, s.entries) && Holds(held, entries, s)
    }

    constructor (disk: map<Key, Entry>, images: set<string>, maxBuilds: nat, gcImages: bool)
      requires Keyed(disk)
      ensures Represents(Start(disk, images, maxBuilds, gcImages))
    {
      this.maxBuilds, this.gcImages, this.disk, this.images := maxBuilds, gcImages, disk, images;
      var loaded := LoadManifests(disk);
      entries, locks, permits, held := loaded, {}, maxBuilds, map[];
      assert Running(Start(disk, images, maxBuilds, gcImages)) == {};
    }

    /** The start of `build`: the lock of the key is taken, or the build is refused because it is held. */
    method RequestBuild(id: nat, key: Key, name: Option<string>, builtBy: Option<string>, ghost s: State)
      returns (accepted: bool)
      requires Inv(s) && Represents(s) && Enabled(s, RequestStep(id, key, name, builtBy))
      modifies this`locks
      ensures Represents(Next(s, RequestStep(id, key, name, builtBy))) && accepted == (key !in s.locks)
    {
      hide Inv;
      if key in locks {
        return false;
      }
      locks := locks + {key};
      assert Running(Next(s, RequestStep(id, key, name, builtBy))) == Running(s);
      return true;
    }

    /** The new entry replaces the one that is registered, and its manifest is written. */
    method Register(id: nat, entry: HeapEntry, ghost s: State, ghost t: State)
      requires Represents(s) && permits > 0
      requires t.entries == s.entries[entry.key := entry.View()] && t.disk == s.disk[entry.key := entry.View()]
      requires t.locks == s.locks && t.permits == s.permits - 1 && t.images == s.images
      requires t.maxBuilds == s.maxBuilds && t.gcImages == s.gcImages
      requires id in t.builds && Running(t) == Running(s) + {id} && t.builds == s.builds[id := t.builds[id]]
      requires t.builds[id].entry == Some(entry.View()) && t.builds[id].key == entry.key
      requires forall j | j in held && j != id :: held[j].key != entry.key
      modifies this`entries, this`disk, this`permits, this`held
      ensures Represents(t) && held == old(held)[id := entry]
    {
      hide Shows, Holds, Running;
      ShowsPut(entries, s.entries, entry);
      HoldsPut(held, entries, s, t, id, entry);
      entries, disk := entries[entry.key := entry], disk[entry.key := entry.View()];
      permits := permits - 1;
      held := held[id := entry];
    }

    method RegisteredName(key: Key, ghost s: State) returns (name: Option<string>)
      requires Represents(s)
      ensures name == NameIn(s, key)
    {
      return if key in entries then Some(entries[key].sessionName) else None;
    }

    lemma OthersHoldOtherKeys(s: State, id: nat)
      requires Inv(s) && Represents(s) && id in s.builds
      ensures forall j | j in held && j != id :: held[j].key != s.builds[id].key
      ensures id in held <==> s.builds[id].entry.Some?
    {
      assert forall j | j in held :: j in Running(s);
    }

    /** `_build_locked` up to the start of the build process; without an entry the project could not be built. */
    method StartBuild(id: nat, b: Build, p: Project, ghost s: State) returns (entry: HeapEntry?)
      requires Inv(s) && Represents(s) && Enabled(s, StartStep(id, p)) && b == s.builds[id]
      modifies this
      ensures Represents(Next(s, StartStep(id, p)))
      ensures entry == null <==> Prepare(b, NameIn(s, b.key), p).None?
      ensures entry != null ==> fresh(entry) && held == old(held)[id := entry]
    {
      hide Inv, Prepare, Next, Release, Running;
      StartFacts(s, id, p);
      OthersHoldOtherKeys(s, id);
      var registered := RegisteredName(b.key, s);
      var e := Prepare(b, registered, p);
      if e.None? {
        HoldsSame(held, entries, s, Next(s, StartStep(id, p)));
        locks := locks - {b.key};
        return null;
      }
      entry := new HeapEntry(e.value);
      Register(id, entry, s, Next(s, StartStep(id, p)));
    }

    /** The manifest of a finished build is written, and its lock and its permit are given back. */
    method Save(id: nat, entry: HeapEntry, ok: bool, ghost s: State, ghost t: State)
      requires disk == s.disk && images == s.images && locks == s.locks && permits == s.permits
      requires maxBuilds == t.maxBuilds && gcImages == t.gcImages
      requires entries.Keys == s.entries.Keys
      requires forall k | k in entries :: entries[k].key == k
                 && (entries[k] != entry ==> entries[k].View() == s.entries[k])
      requires entry.key in entries ==> entries[entry.key] == entry
      requires held.Keys == Running(s)
      requires forall j | j in held && j != id :: j in s.builds && Some(held[j].View()) == s.builds[j].entry
                 && held[j].key == s.builds[j].key
      requires forall j | j in held && held[j].key in entries :: entries[held[j].key] == held[j]
      requires t.entries == (if entry.key in s.entries then s.entries[entry.key := entry.View()] else s.entries)
      requires t.disk == s.disk[entry.key := entry.View()]
      requires t.images == (if ok then s.images + {entry.sessionName} else s.images)
      requires t.locks == s.locks - {entry.key} && t.permits == s.permits + 1
      requires t.builds == s.builds - {id} && Running(t) == Running(s) - {id}
      modifies this`disk, this`images, this`locks, this`permits, this`held
      ensures Represents(t)
    {
      hide Shows, Holds, Running;
      ghost var before := held;
      disk := disk[entry.key := entry.View()];
      images := if ok then images + {entry.sessionName} else images;
      locks, permits := locks - {entry.key}, permits + 1;
      held := held - {id};
      ShowsChanged(entries, s.entries, entry);
      HoldsLess(before, entries, s, t, id);
    }

    /** `_build_locked` after the build process: the entry that the build holds is changed in place, whether it is
        still registered or not. */
    method EndBuild(id: nat, entry: HeapEntry, ok: bool, log: string, now: real, ghost s: State)
      requires Inv(s) && Represents(s) && Enabled(s, EndStep(id, ok, log, now)) && id in held && held[id] == entry
      modifies this, entry
      ensures Represents(Next(s, EndStep(id, ok, log, now)))
    {
      ghost var t := Next(s, EndStep(id, ok, log, now));
      hide Inv, Next, Release, Running, Finished;
      EndFacts(s, id, ok, log, now);
      OthersHoldOtherKeys(s, id);
      assert entry.key == s.builds[id].key && entry.View() == s.builds[id].entry.value;
      assert forall j | j in held && j != id :: held[j] != entry;
      entry.Finish(ok, log, now);
      Save(id, entry, ok, s, t);
    }

    lemma ReadyIsNotHeld(s: State, entry: HeapEntry)
      requires Inv(s) && Represents(s) && entry.status == Ready
      ensures forall j | j in held :: held[j] != entry
    {
      forall j | j in held
        ensures held[j].status == Building
      {
        assert j in Running(s) && Some(held[j].View()) == s.builds[j].entry;
      }
    }

    method MarkStale(entry: HeapEntry, ghost s: State)
      requires Inv(s) && Represents(s) && entry.key in entries && entries[entry.key] == entry && entry.status == Ready
      modifies this`disk, entry
      ensures var e := s.entries[entry.key].(status := Stale);
        Represents(s.(entries := s.entries[entry.key := e], disk := s.disk[entry.key := e]))
    {
      hide Inv, Running, Holds;
      ghost var e := s.entries[entry.key].(status := Stale);
      ReadyIsNotHeld(s, entry);
      HoldsKept(held, entries, s, s.(entries := s.entries[entry.key := e], disk := s.disk[entry.key := e]));
      entry.status := Stale;
      disk := disk[entry.key := entry.View()];
      ShowsChanged(entries, s.entries, entry);
    }

    /** `check_stale`, for an entry of the registry. */
    method CheckStale(entry: HeapEntry, sources: Option<seq<Source>>, ghost s: State) returns (stale: bool)
      requires Inv(s) && Represents(s) && entry.key in entries && entries[entry.key] == entry
      modifies this`disk, entry
      ensures Represents(Next(s, StaleStep(entry.key, sources))) && stale == IsStale(s.entries[entry.key], sources)
    {
      hide Inv, Running, Fingerprint;
      var e := entry.View();
      assert e == s.entries[entry.key];
      if e.status != Ready || (sources.Some? && Fingerprint(e.rootText, sources.value) == e.fingerprint) {
        return false;
      }
      MarkStale(entry, s);
      return true;
    }

    lemma KeysMatch(s: State, key: Key)
      requires Represents(s)
      ensures key in entries <==> key in s.entries
      ensures key in entries ==> entries[key].sessionName == s.entries[key].sessionName
    {
    }

    /** The entry and its manifest go. */
    method Unregister(key: Key, ghost s: State)
      requires Represents(s) && key in entries
      modifies this`entries, this`disk
      ensures Represents(s.(entries := s.entries - {key}, disk := s.disk - {key}))
    {
      hide Shows, Holds;
      ShowsLess(entries, s.entries, key);
      HoldsFewer(held, entries, key, s, s.(entries := s.entries - {key}, disk := s.disk - {key}));
      entries, disk := entries - {key}, disk - {key};
    }

    /** `_gc_heap_image`: the image goes when no entry refers to it. */
    method GcHeapImage(name: string, ghost values: map<Key, Entry>)
      requires Shows(entries, values)
      modifies this`images
      ensures images == if gcImages && !Referenced(values, name) then old(images) - {name} else old(images)
    {
      SameNames(entries, values, name);
      if gcImages && !exists k :: k in entries && entries[k].sessionName == name {
        images := images - {name};
      }
    }

    method Delete(key: Key, ghost s: State) returns (found: bool)
      requires Inv(s) && Represents(s)
      modifies this`entries, this`disk, this`images
      ensures Represents(Next(s, DeleteStep(key))) && found == (key in s.entries)
    {
      hide Inv, Running, Referenced, Shows, Holds;
      KeysMatch(s, key);
      if key !in entries {
        return false;
      }
      var name := entries[key].sessionName;
      Unregister(key, s);
      GcHeapImage(name, s.entries - {key});
      HoldsKept(held, entries, s.(entries := s.entries - {key}, disk := s.disk - {key}), Next(s, DeleteStep(key)));
      return true;
    }

    lemma GroupIsShown(group: string, s: State)
      requires Represents(s)
      ensures (set k | k in entries && k.group == group) == OfGroup(s.entries, group)
    {
      assert entries.Keys == s.entries.Keys;
    }

    /** `delete_group`: the keys of the group are deleted one by one; `t` is the state in the end. */
    method DeleteGroup(group: string, ghost s: State) returns (count: nat, ghost t: State)
      requires Inv(s) && Represents(s)
      modifies this`entries, this`disk, this`images
      ensures Inv(t) && Represents(t) && count == |OfGroup(s.entries, group)|
      ensures WithoutKeys(s, t, OfGroup(s.entries, group))
    {
      hide Inv, Represents, Shows, Next, WithoutKeys;
      t := s;
      NoneDeleted(s);
      var projects := set k | k in entries && k.group == group;
      GroupIsShown(group, s);
      var todo := projects;
      ghost var gone := {};
      while todo != {}
        invariant todo <= projects && gone == projects - todo
        invariant Represents(t) && Inv(t) && WithoutKeys(s, t, gone)
        decreases |todo|
      {
        var k :| k in todo;
        DeleteOneMore(s, t, gone, k);
        var found := Delete(k, t);
        t := Next(t, DeleteStep(k));
        todo, gone := todo - {k}, gone + {k};
        assert gone == projects - todo;
      }
      assert gone == projects;
      count := |projects|;
    }

    method KeyMeant(group: string, name: Option<string>, project: Option<string>, ghost s: State)
      returns (key: Option<Key>)
      requires Represents(s)
      ensures key == Meant(s.entries, group, name, project) && (key.Some? ==> key.value in entries)
    {
      if project.Some? && Key(group, project.value) in entries {
        return Some(Key(group, project.value));
      }
      if name.None? {
        return None;
      }
      var matches := set k | k in entries && k.group == group && entries[k].sessionName == name.value;
      assert matches == Named(s.entries, group, name.value) by {
        assert entries.Keys == s.entries.Keys;
        assert forall k | k in entries :: entries[k].View().sessionName == s.entries[k].sessionName;
      }
      if |matches| != 1 {
        return None;
      }
      var k :| k in matches;
      return Some(k);
    }

    method Elsewhere(group: string, name: Option<string>, project: Option<string>, ghost s: State) returns (found: bool)
      requires Represents(s)
      ensures found == ExistsElsewhere(s.entries, group, name, project)
    {
      assert entries.Keys == s.entries.Keys;
      assert forall k | k in entries :: entries[k].View().sessionName == s.entries[k].sessionName;
      found := exists k ::
        k in entries && k.group != group && (project == Some(k.project) || name == Some(entries[k].sessionName));
    }

    /** `resolve_for_session`; `sources` are the sources of the entry's project when it is looked at. */
    method ResolveForSession(group: string, name: Option<string>, project: Option<string>,
                             sources: Option<seq<Source>>, ghost s: State)
      returns (r: Resolution)
      requires Inv(s) && Represents(s)
      modifies this`disk, entries.Values
      ensures r == Gate(s, group, name, project, sources).0 && Represents(Gate(s, group, name, project, sources).1)
    {
      hide Inv, Running, Holds, Fingerprint, ExistsElsewhere, Meant, Next;
      var key := KeyMeant(group, name, project, s);
      if key.None? {
        var elsewhere := Elsewhere(group, name, project, s);
        return if elsewhere then CrossGroup else NotFound;
      }
      var entry := entries[key.value];
      assert entry.View() == s.entries[key.value];
      var e := entry.View();
      if e.status == Building || e.status == Failed || e.status == Stale {
        return NotReady;
      }
      var stale := CheckStale(entry, sources, s);
      return if stale then NotReady else Resolved(e);
    }
  }
}
