/** The repository as the commands see it: `repo_data.json` (tracked files,
    tracked directories, registered versions), the snapshot storage under
    `.icvcs/commits` and `.icvcs/versions`, and `commit_history.json`.
    Every command is a method that changes these fields in place. */
module Icvcs {
  import opened Base
  import opened Lists
  import opened Paths
  import opened SnapshotStore
  import opened Store
  import opened Diff

  /** The walked paths recorded for a tracked directory, or none when it is not tracked. */
  function Members(directories: map<Path, seq<Path>>, d: Path): (r: seq<Path>)
    ensures d !in directories ==> r == []
  {
    if d in directories then directories[d] else []
  }

  /** No tracked directory records a walked path twice. */
  predicate DirsNoDup(directories: map<Path, seq<Path>>)
  {
    forall d :: d in directories ==> NoDup(directories[d])
  }

  /** The registry names each stored version exactly once. */
  predicate Registered(names: seq<string>, stored: set<string>)
  {
    NoDup(names) && Elems(names) == stored
  }

  lemma DirsNoDupUpdate(directories: map<Path, seq<Path>>, d: Path, members: seq<Path>)
    requires DirsNoDup(directories) && NoDup(members)
    ensures DirsNoDup(directories[d := members])
  {
  }

  lemma DirsNoDupRemove(directories: map<Path, seq<Path>>, d: Path)
    requires DirsNoDup(directories)
    ensures DirsNoDup(directories - {d})
  {
  }

  /** Dropping a key from both views of the directory table keeps them in step. */
  lemma DropDirectoryKeeps(directories: map<Path, seq<Path>>, order: seq<Path>, d: Path)
    requires NoDup(order) && Elems(order) == directories.Keys
    ensures NoDup(RemoveFirst(order, d)) && Elems(RemoveFirst(order, d)) == (directories - {d}).Keys
    ensures DirsNoDup(directories) ==> DirsNoDup(directories - {d})
  {
    RemoveFirstNoDup(order, d);
    assert (directories - {d}).Keys == directories.Keys - {d};
    if DirsNoDup(directories) {
      DirsNoDupRemove(directories, d);
    }
  }

  lemma NoDupAppend<T>(s: seq<T>, x: T)
    requires NoDup(s) && x !in s
    ensures NoDup(s + [x])
  {
  }

  /** Re-registering a name after taking out its old entry keeps the registry exact. */
  lemma Reregister(names: seq<string>, stored: set<string>, name: string)
    requires Registered(names, stored)
    ensures var rest := if name in stored then RemoveFirst(names, name) else names;
      name !in rest && Registered(rest + [name], stored + {name})
  {
    var rest := if name in stored then RemoveFirst(names, name) else names;
    RemoveFirstNoDupIf(names, name);
    assert name !in Elems(rest);
    NoDupAppend(rest, name);
    ElemsConcat(rest, [name]);
  }

  /** The `-wf` loop of `add`: every walked path not yet recorded is appended, in walk order. */
  method CollectWalked(members: seq<Path>, walk: seq<Path>) returns (r: seq<Path>)
    ensures r == AppendNew(members, walk)
  {
    r := members;
    for i := 0 to |walk|
      invariant r == AppendNew(members, walk[..i])
    {
      assert walk[..i + 1][..i] == walk[..i];
      if walk[i] !in r {
        r := r + [walk[i]];
      }
    }
    assert walk[..|walk|] == walk;
  }

  class Repository {
    /** `repo_data["repo_name"]`. */
    var repoName: string
    /** `repo_data["files"]`, in insertion order. */
    var files: seq<Path>
    /** `repo_data["directories"]`: each tracked directory with its walked paths. */
    var directories: map<Path, seq<Path>>
    /** The keys of `directories` in the dictionary's insertion order. */
    var dirOrder: seq<Path>
    /** `repo_data["versions"]`, the version registry. */
    var versionNames: seq<string>
    /** The storage under `.icvcs/versions`, one entry per version directory. */
    var versions: VersionStore
    /** The storage under `.icvcs/commits`, including `latest`. */
    var commits: CommitStore
    /** `commit_history.json`. */
    var journal: seq<CommitRecord>

    /** The two views of `repo_data["directories"]` agree. */
    ghost predicate Valid()
      reads this
    {
      NoDup(dirOrder) && Elems(dirOrder) == directories.Keys
    }

    /** What the commands keep when they succeed: no path tracked twice, and
        the registry names exactly the stored versions, each once. */
    ghost predicate Consistent()
      reads this
    {
      && NoDup(files)
      && DirsNoDup(directories)
      && Registered(versionNames, versions.Keys)
    }

    /** `init`: nothing tracked, no versions, an empty history and an empty `latest`. */
    constructor Init(name: string)
      ensures Valid() && Consistent()
      ensures repoName == name && files == [] && directories == map[] && dirOrder == []
      ensures versionNames == [] && versions == map[] && journal == []
      ensures commits == map[Latest := Stored(map[], None)]
    {
      repoName := name;
      files := [];
      directories := map[];
      dirOrder := [];
      versionNames := [];
      versions := map[];
      commits := map[Latest := Stored(map[], None)];
      journal := [];
    }

    /** `add`: a file is tracked once, appended at the end; a directory gets a
        key (appended last in key order) and, with `-wf`, the walked paths it
        does not hold yet, in walk order; a missing path changes nothing. */
    method Add(t: Tree, path: Path, withFiles: bool, walk: seq<Path>)
      requires Valid()
      modifies this`files, this`directories, this`dirOrder
      ensures Valid()
      ensures path in t.files ==>
        && files == (if path in old(files) then old(files) else old(files) + [path])
        && directories == old(directories) && dirOrder == old(dirOrder)
      ensures path !in t.files && path in t.dirs ==>
        && files == old(files)
        && directories == old(directories)[path := AppendNew(Members(old(directories), path), if withFiles then walk else [])]
        && dirOrder == (if path in old(directories) then old(dirOrder) else old(dirOrder) + [path])
      ensures !Exists(t, path) ==>
        files == old(files) && directories == old(directories) && dirOrder == old(dirOrder)
      ensures old(Consistent()) ==> Consistent()
      ensures path in t.files ==> path in files
    {
      if path in t.files {
        TrackFile(path);
      } else if path in t.dirs {
        TrackDirectory(path, if withFiles then walk else []);
      }
    }

    /** The file branch of `add`. */
    method TrackFile(path: Path)
      modifies this`files
      ensures files == (if path in old(files) then old(files) else old(files) + [path])
      ensures old(Consistent()) ==> Consistent()
    {
      if path !in files {
        if NoDup(files) {
          NoDupAppend(files, path);
        }
        files := files + [path];
      }
    }

    /** The directory branch of `add`; `walk` is empty without `-wf`. */
    method TrackDirectory(path: Path, walk: seq<Path>)
      requires Valid()
      modifies this`directories, this`dirOrder
      ensures Valid()
      ensures directories == old(directories)[path := AppendNew(Members(old(directories), path), walk)]
      ensures dirOrder == (if path in old(directories) then old(dirOrder) else old(dirOrder) + [path])
      ensures old(Consistent()) ==> Consistent()
    {
      if path !in directories {
        NoDupAppend(dirOrder, path);
        ElemsConcat(dirOrder, [path]);
        dirOrder := dirOrder + [path];
      }
      var members := CollectWalked(Members(directories, path), walk);
      if DirsNoDup(directories) {
        DirsNoDupUpdate(directories, path, members);
      }
      directories := directories[path := members];
    }

    /** `remove`: a path that is a file on disk leaves `files` (its first
        occurrence); one that is a directory on disk loses its key; anything
        else, or a path not tracked, changes nothing. */
    method Remove(t: Tree, path: Path)
      requires Valid()
      modifies this`files, this`directories, this`dirOrder
      ensures Valid()
      ensures path in t.files ==>
        files == RemoveFirst(old(files), path) && directories == old(directories) && dirOrder == old(dirOrder)
      ensures path !in t.files && path in t.dirs ==>
        && files == old(files)
        && directories == old(directories) - {path}
        && dirOrder == RemoveFirst(old(dirOrder), path)
      ensures !Exists(t, path) ==>
        files == old(files) && directories == old(directories) && dirOrder == old(dirOrder)
      ensures old(Consistent()) ==> Consistent()
      ensures old(Consistent()) && path in t.files ==> path !in files
    {
      if path in t.files {
        UntrackFile(path);
      } else if path in t.dirs {
        UntrackDirectory(path);
      }
    }

    /** The file branch of `remove`: `list.remove` drops the first occurrence. */
    method UntrackFile(path: Path)
      requires Valid()
      modifies this`files
      ensures Valid()
      ensures files == RemoveFirst(old(files), path)
      ensures old(Consistent()) ==> Consistent() && path !in files
    {
      if path in files {
        RemoveFirstNoDupIf(files, path);
        files := RemoveFirst(files, path);
      }
    }

    /** The directory branch of `remove`: the key goes with its walked paths. */
    method UntrackDirectory(path: Path)
      requires Valid()
      modifies this`directories, this`dirOrder
      ensures Valid()
      ensures directories == old(directories) - {path} && dirOrder == RemoveFirst(old(dirOrder), path)
      ensures old(Consistent()) ==> Consistent()
    {
      ghost var wasConsistent := Consistent();
      var remaining, order := directories - {path}, RemoveFirst(dirOrder, path);
      DropDirectoryKeeps(directories, dirOrder, path);
      assert wasConsistent ==> DirsNoDup(remaining);
      directories, dirOrder := remaining, order;
      if wasConsistent {
        assert Consistent();
      }
    }

    /** `version create`: an empty name or an existing version without
        `--force` changes nothing; with `--force` the old storage goes first
        (and a name missing from the registry then aborts); a copy that
        raises leaves a version directory without metadata and the registry
        as it was; otherwise the snapshot is stored with metadata whose
        `files` is the tracked list, and the name is registered last. */
    method VersionCreate(t: Tree, name: string, force: bool, createdAt: string, author: string, description: string)
      returns (r: Outcome)
      requires Valid()
      modifies this`versions, this`versionNames
      ensures Valid()
      ensures repoName == old(repoName) && files == old(files) && directories == old(directories) && dirOrder == old(dirOrder)
      ensures commits == old(commits) && journal == old(journal)
      ensures name == "" ==> r == Fail(NameRequired) && versions == old(versions) && versionNames == old(versionNames)
      ensures name != "" && name in old(versions) && !force ==>
        r == Fail(AlreadyExists) && versions == old(versions) && versionNames == old(versionNames)
      ensures name != "" && name in old(versions) && force && name !in old(versionNames) ==>
        r == Fail(NotRegistered) && versions == old(versions) - {name} && versionNames == old(versionNames)
      ensures name != "" && (name !in old(versions) || (force && name in old(versionNames))) ==>
        var snap := TakeSnapshot(t, files, dirOrder);
        && (snap.Ok? ==>
              && r == Done
              && versions == old(versions)[name := Stored(snap.value, Some(VersionMeta(name, createdAt, author, description, Some(files))))]
              && versionNames == (if name in old(versions) then RemoveFirst(old(versionNames), name) else old(versionNames)) + [name])
        && (snap.Err? ==>
              && r == Fail(CopyFailed)
              && name in versions && versions[name].meta == None
              && versions - {name} == old(versions) - {name}
              && versionNames == old(versionNames))
      ensures r == Done && old(Consistent()) ==> Consistent() && versionNames[|versionNames| - 1] == name
      ensures r == Done ==> LoadVersionFiles(versions, name) == Ok(files)
    {
      if name == "" {
        return Fail(NameRequired);
      }
      if name in versions && !force {
        return Fail(AlreadyExists);
      }
      if name in versions && name !in versionNames {
        versions := versions - {name};
        return Fail(NotRegistered);
      }
      r := ReplaceVersion(t, name, VersionMeta(name, createdAt, author, description, Some(files)));
    }

    /** `version create` once the name is known to be usable: an existing
        version under it is deleted and unregistered, then the snapshot is
        stored and the name registered. */
    method ReplaceVersion(t: Tree, name: string, meta: VersionMeta) returns (r: Outcome)
      requires name in versions ==> name in versionNames
      modifies this`versions, this`versionNames
      ensures var snap := TakeSnapshot(t, files, dirOrder);
        && (snap.Ok? ==>
              && r == Done
              && versions == old(versions)[name := Stored(snap.value, Some(meta))]
              && versionNames == (if name in old(versions) then RemoveFirst(old(versionNames), name) else old(versionNames)) + [name])
        && (snap.Err? ==>
              && r == Fail(CopyFailed)
              && name in versions && versions[name].meta == None
              && versions - {name} == old(versions) - {name}
              && versionNames == old(versionNames))
      ensures r == Done && old(Registered(versionNames, versions.Keys)) ==> Registered(versionNames, versions.Keys)
    {
      ghost var wasRegistered := Registered(versionNames, versions.Keys);
      if wasRegistered {
        Reregister(versionNames, versions.Keys, name);
      }
      var registry := versionNames;
      if name in versions {
        versions := versions - {name};
        registry := RemoveFirst(registry, name);
      }
      ghost var before := versions;
      r := StoreVersion(t, name, registry, meta);
      assert before - {name} == old(versions) - {name};
      if r == Done {
        assert versions == old(versions)[name := versions[name]];
        assert versions.Keys == old(versions).Keys + {name};
      }
    }

    /** The storing half of `version create`: the snapshot goes under `name`
        with its metadata and the name is appended to the registry; a copy that
        raises leaves the storage without metadata and the registry untouched. */
    method StoreVersion(t: Tree, name: string, registry: seq<string>, meta: VersionMeta) returns (r: Outcome)
      modifies this`versions, this`versionNames
      ensures var snap := TakeSnapshot(t, files, dirOrder);
        && (snap.Ok? ==>
              && r == Done
              && versions == old(versions)[name := Stored(snap.value, Some(meta))]
              && versionNames == registry + [name])
        && (snap.Err? ==>
              && r == Fail(CopyFailed)
              && name in versions && versions[name].meta == None
              && versions - {name} == old(versions) - {name}
              && versionNames == old(versionNames))
    {
      var entries, ok := Materialize(t, files, dirOrder);
      if !ok {
        versions := versions[name := Stored(entries, None)];
        return Fail(CopyFailed);
      }
      versions := versions[name := Stored(entries, Some(meta))];
      versionNames := registry + [name];
      r := Done;
    }

    /** `version delete`: an empty name or a missing version changes nothing;
        otherwise the storage goes, and then the registry entry, which raises
        when the name is not registered. */
    method VersionDelete(name: string) returns (r: Outcome)
      requires Valid()
      modifies this
      ensures Valid()
      ensures repoName == old(repoName) && files == old(files) && directories == old(directories) && dirOrder == old(dirOrder)
      ensures commits == old(commits) && journal == old(journal)
      ensures name == "" ==> r == Fail(NameRequired) && versions == old(versions) && versionNames == old(versionNames)
      ensures name != "" && name !in old(versions) ==>
        r == Fail(NotFound) && versions == old(versions) && versionNames == old(versionNames)
      ensures name != "" && name in old(versions) ==>
        && versions == old(versions) - {name}
        && (name in old(versionNames) ==> r == Done && versionNames == RemoveFirst(old(versionNames), name))
        && (name !in old(versionNames) ==> r == Fail(NotRegistered) && versionNames == old(versionNames))
      ensures r == Done && old(Consistent()) ==> Consistent() && name !in versions && name !in versionNames
    {
      if name == "" {
        return Fail(NameRequired);
      }
      if name !in versions {
        return Fail(NotFound);
      }
      versions := versions - {name};
      if name !in versionNames {
        return Fail(NotRegistered);
      }
      RemoveFirstNoDupIf(versionNames, name);
      versionNames := RemoveFirst(versionNames, name);
      r := Done;
    }

    /** `commit`: an identifier already taken raises before anything is
        written; a copy that raises leaves a commit directory without
        metadata and the history as it was; otherwise the snapshot is
        stored under the identifier and exactly one record, carrying that
        identifier, is appended to the history. */
    method Commit(t: Tree, id: string, timestamp: string, message: string, author: string) returns (r: Outcome)
      requires Valid() && IsCommitId(id)
      modifies this
      ensures Valid()
      ensures repoName == old(repoName) && files == old(files) && directories == old(directories) && dirOrder == old(dirOrder)
      ensures versions == old(versions) && versionNames == old(versionNames)
      ensures id in old(commits) ==> r == Fail(AlreadyExists) && commits == old(commits) && journal == old(journal)
      ensures id !in old(commits) ==>
        var snap := TakeSnapshot(t, files, dirOrder);
        var rec := CommitRecord(id, timestamp, message, author);
        && (snap.Ok? ==>
              r == Done && commits == old(commits)[id := Stored(snap.value, Some(rec))] && journal == old(journal) + [rec])
        && (snap.Err? ==>
              && r == Fail(CopyFailed)
              && id in commits && commits[id].meta == None
              && commits - {id} == old(commits) && journal == old(journal))
      ensures r == Done ==>
        && |journal| == |old(journal)| + 1 && journal[..|old(journal)|] == old(journal)
        && LastCommit(journal).Some? && LastCommit(journal).value.commitId == id
        && id in commits && commits[id].meta == LastCommit(journal)
    {
      if id in commits {
        return Fail(AlreadyExists);
      }
      var entries, ok := Materialize(t, files, dirOrder);
      if !ok {
        commits := commits[id := Stored(entries, None)];
        return Fail(CopyFailed);
      }
      var rec := CommitRecord(id, timestamp, message, author);
      commits := commits[id := Stored(entries, Some(rec))];
      journal := journal + [rec];
      r := Done;
    }

    /** `commit remove`: the commit's storage goes; the history is never touched. */
    method RemoveCommit(id: string) returns (r: Outcome)
      requires Valid()
      modifies this
      ensures Valid()
      ensures repoName == old(repoName) && files == old(files) && directories == old(directories) && dirOrder == old(dirOrder)
      ensures versions == old(versions) && versionNames == old(versionNames) && journal == old(journal)
      ensures id in old(commits) ==> r == Done && commits == old(commits) - {id}
      ensures id !in old(commits) ==> r == Fail(NotFound) && commits == old(commits)
    {
      if id !in commits {
        return Fail(NotFound);
      }
      commits := commits - {id};
      r := Done;
    }

    /** `push`: fails without change when the commit storage is empty, when
        the named commit is missing, or when only `latest` is stored;
        otherwise `latest` becomes a copy of the chosen commit (the named
        one, else the greatest identifier other than `latest`), replacing
        whatever it held. Pushing `latest` itself leaves it empty. */
    method Push(id: Option<string>) returns (r: Result<string, Failure>)
      requires Valid()
      modifies this
      ensures Valid()
      ensures repoName == old(repoName) && files == old(files) && directories == old(directories) && dirOrder == old(dirOrder)
      ensures versions == old(versions) && versionNames == old(versionNames) && journal == old(journal)
      ensures r.Err? ==> commits == old(commits)
      ensures old(commits) == map[] ==> r == Err(NothingToPush)
      ensures old(commits) != map[] && id.Some? && id.value != "" ==>
        if id.value in old(commits) then r == Ok(id.value) else r == Err(NotFound)
      ensures old(commits) != map[] && (id.None? || id.value == "") ==>
        && (r.Err? <==> old(commits).Keys <= {Latest})
        && (r.Err? ==> r.error == NothingToPush)
      ensures r.Ok? && (id.None? || id.value == "") ==>
        && r.value != Latest
        && forall k :: k in old(commits) && k != Latest ==> k == r.value || Less(k, r.value)
      ensures r.Ok? ==>
        && r.value in old(commits)
        && commits == old(commits)[Latest := if r.value == Latest then Stored(map[], None) else old(commits)[r.value]]
        && LatestEntries(commits) == (if r.value == Latest then map[] else old(commits)[r.value].entries)
    {
      if commits == map[] {
        return Err(NothingToPush);
      }
      var chosen: string;
      if id.Some? && id.value != "" {
        if id.value !in commits {
          return Err(NotFound);
        }
        chosen := id.value;
      } else {
        var newest := SelectNewest(commits.Keys);
        if newest.None? {
          return Err(NothingToPush);
        }
        chosen := newest.value;
      }
      var source := commits[chosen];
      commits := commits[Latest := Stored(map[], None)];
      if chosen != Latest {
        var copied := CopyEntries(source.entries);
        commits := commits[Latest := Stored(copied, source.meta)];
      }
      r := Ok(chosen);
    }

    /** `commit clear`: every commit except `latest` goes; `latest` is kept as
        it was and the history is never touched. */
    method ClearCommits()
      requires Valid()
      modifies this
      ensures Valid()
      ensures repoName == old(repoName) && files == old(files) && directories == old(directories) && dirOrder == old(dirOrder)
      ensures versions == old(versions) && versionNames == old(versionNames) && journal == old(journal)
      ensures commits.Keys == old(commits).Keys * {Latest}
      ensures Latest in old(commits) ==> commits[Latest] == old(commits)[Latest]
    {
      var todo := commits.Keys;
      while todo != {}
        invariant todo <= old(commits).Keys
        invariant commits.Keys == (old(commits).Keys * {Latest}) + todo
        invariant forall k :: k in commits ==> commits[k] == old(commits)[k]
        invariant repoName == old(repoName) && files == old(files) && directories == old(directories) && dirOrder == old(dirOrder)
        invariant versions == old(versions) && versionNames == old(versionNames) && journal == old(journal)
        decreases todo
      {
        var k :| k in todo;
        if k != Latest {
          commits := commits - {k};
        }
        todo := todo - {k};
      }
    }
  }
}
