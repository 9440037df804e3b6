/** The snapshot store: what copying the tracked files and directories into a
    fresh storage directory produces (`shutil.copy` / `shutil.copytree` into
    `commits/<id>` or `versions/<name>`), and how a path is looked up in it. */
module SnapshotStore {
  import opened Base
  import opened Lists
  import opened Paths

  /** The working tree on disk: regular files with their contents, and directories. */
  datatype Tree = Tree(files: map<Path, Bytes>, dirs: set<Path>)

  /** `os.path.exists`. */
  predicate Exists(t: Tree, p: Path)
  {
    p in t.files || p in t.dirs
  }

  /** A top-level item of a snapshot: a copied file, or a copied directory whose
      files are keyed by their path relative to that directory. */
  datatype Entry = FileEntry(data: Bytes) | DirEntry(members: map<Path, Bytes>)

  type Entries = map<Path, Entry>

  /** A storage directory: its copied items and, once written, its `metadata.json` document. */
  datatype Stored<M> = Stored(entries: Entries, meta: Option<M>)

  /** The paths, relative to `d`, of the files below directory `d`. */
  function RelNames(t: Tree, d: Path): set<Path>
  {
    set p | p in t.files && IsStrictlyUnder(p, d) :: p[|d| + 1..]
  }

  /** The files `shutil.copytree(d, ...)` copies, keyed relative to `d`. */
  function DirMembers(t: Tree, d: Path): map<Path, Bytes>
  {
    assert forall r :: r in RelNames(t, d) ==> d + "/" + r in t.files by {
      forall r | r in RelNames(t, d) ensures d + "/" + r in t.files {
        var p :| p in t.files && IsStrictlyUnder(p, d) && p[|d| + 1..] == r;
        assert p == p[..|d|] + [p[|d|]] + p[|d| + 1..];
      }
    }
    map r | r in RelNames(t, d) :: t.files[d + "/" + r]
  }

  /** A copied directory holds exactly the files below it, under their paths relative to it. */
  lemma DirMembersSpec(t: Tree, d: Path)
    ensures forall r :: r in DirMembers(t, d) <==> r != "" && d + "/" + r in t.files
    ensures forall r :: r in DirMembers(t, d) ==> DirMembers(t, d)[r] == t.files[d + "/" + r]
  {
    var m := DirMembers(t, d);
    forall r | r in m ensures r != "" && d + "/" + r in t.files {
      var p :| p in t.files && IsStrictlyUnder(p, d) && p[|d| + 1..] == r;
      assert p == p[..|d|] + [p[|d|]] + p[|d| + 1..];
    }
    forall r | r != "" && d + "/" + r in t.files ensures r in m {
      var p := d + "/" + r;
      assert IsStrictlyUnder(p, d) && p[|d| + 1..] == r;
    }
  }

  /** The `for file in repo_data["files"]` loop: each tracked file that exists
      is copied under its base name (a later file with the same base name
      overwrites an earlier one), a missing one is skipped with a warning, and
      `shutil.copy` of a directory raises. */
  function CopyFiles(t: Tree, files: seq<Path>): (r: Result<Entries, Failure>)
    ensures r.Err? ==> r.error == CopyFailed && exists f :: f in files && f !in t.files && f in t.dirs
    ensures r.Ok? ==> forall f :: f in files && f in t.files ==> Basename(f) in r.value
    ensures r.Ok? ==> forall k :: k in r.value ==> r.value[k].FileEntry?
  {
    if files == [] then Ok(map[])
    else
      var f := files[|files| - 1];
      match CopyFiles(t, files[..|files| - 1])
      case Err(e) => Err(e)
      case Ok(m) =>
        if f in t.files then Ok(m[Basename(f) := FileEntry(t.files[f])])
        else if f in t.dirs then Err(CopyFailed)
        else Ok(m)
  }

  /** A destination `os.path.join(storage, b)` that already exists before anything is copied. */
  predicate BadDest(b: Path)
  {
    b == "" || b == "." || b == ".."
  }

  /** The `for directory, _ in repo_data["directories"].items()` loop, over the
      directory keys in dictionary order, adding to the entries `m` the file
      loop produced: an existing directory is copied under its base name, a
      missing one is skipped with a warning; `shutil.copytree` raises when the
      tracked directory is now a file or its destination already exists. */
  function CopyDirs(t: Tree, m: Entries, dirs: seq<Path>): (r: Result<Entries, Failure>)
    ensures r.Err? ==> r.error == CopyFailed
    ensures r.Ok? ==> m.Keys <= r.value.Keys && forall k :: k in m ==> r.value[k] == m[k]
    ensures r.Ok? ==> forall d :: d in dirs && d in t.dirs ==> Basename(d) in r.value
  {
    if dirs == [] then Ok(m)
    else
      var d := dirs[|dirs| - 1];
      match CopyDirs(t, m, dirs[..|dirs| - 1])
      case Err(e) => Err(e)
      case Ok(acc) =>
        if d in t.files then Err(CopyFailed)
        else if d in t.dirs then
          if BadDest(Basename(d)) || Basename(d) in acc then Err(CopyFailed)
          else Ok(acc[Basename(d) := DirEntry(DirMembers(t, d))])
        else Ok(acc)
  }

  /** Materialising the index into a fresh storage directory: the files first,
      then the directories. The cached member lists of the directories play no
      part, only the directory keys. */
  function TakeSnapshot(t: Tree, files: seq<Path>, dirs: seq<Path>): (r: Result<Entries, Failure>)
    ensures r.Err? ==> r.error == CopyFailed
    ensures r.Ok? ==> forall f :: f in files && f in t.files ==> Basename(f) in r.value
    ensures r.Ok? ==> forall d :: d in dirs && d in t.dirs ==>
      Basename(d) in r.value && r.value[Basename(d)] == DirEntry(DirMembers(t, d))
  {
    match CopyFiles(t, files)
    case Err(e) => Err(e)
    case Ok(m) =>
      if CopyDirs(t, m, dirs).Ok? then CopyDirsContents(t, m, dirs); CopyDirs(t, m, dirs)
      else CopyDirs(t, m, dirs)
  }

  /** Copying the files fails exactly when some tracked file exists as a directory;
      a tracked file missing from disk is skipped, never fatal. */
  lemma {:induction false} CopyFilesOk(t: Tree, files: seq<Path>)
    ensures CopyFiles(t, files).Ok? <==> forall f :: f in files ==> f in t.files || f !in t.dirs
  {
    if files != [] {
      var w := files[..|files| - 1];
      assert files == w + [files[|files| - 1]];
      CopyFilesOk(t, w);
    }
  }

  /** The file part holds exactly one entry per base name of an existing tracked file. */
  lemma {:induction false} CopyFilesKeys(t: Tree, files: seq<Path>)
    requires CopyFiles(t, files).Ok?
    ensures CopyFiles(t, files).value.Keys == set f | f in files && f in t.files :: Basename(f)
    ensures forall k :: k in CopyFiles(t, files).value ==> CopyFiles(t, files).value[k].FileEntry?
  {
    if files != [] {
      var w := files[..|files| - 1];
      assert files == w + [files[|files| - 1]];
      CopyFilesKeys(t, w);
    }
  }

  /** The entry under a base name holds the contents of the last existing tracked
      file with that base name (`shutil.copy` overwrites). */
  lemma {:induction false} CopyFilesLastWins(t: Tree, files: seq<Path>, i: nat)
    requires CopyFiles(t, files).Ok?
    requires i < |files| && files[i] in t.files
    requires forall j :: i < j < |files| && files[j] in t.files && Basename(files[j]) == Basename(files[i]) ==>
      t.files[files[j]] == t.files[files[i]]
    ensures Basename(files[i]) in CopyFiles(t, files).value
    ensures CopyFiles(t, files).value[Basename(files[i])] == FileEntry(t.files[files[i]])
  {
    var w := files[..|files| - 1];
    if i < |files| - 1 {
      assert w[i] == files[i];
      CopyFilesLastWins(t, w, i);
    }
  }

  /** A successful directory loop keeps every entry the file loop made and adds
      exactly one entry per existing tracked directory, holding that directory's files. */
  lemma {:induction false} CopyDirsContents(t: Tree, m: Entries, dirs: seq<Path>)
    requires CopyDirs(t, m, dirs).Ok?
    ensures var r := CopyDirs(t, m, dirs).value;
      && r.Keys == m.Keys + (set d | d in dirs && d in t.dirs :: Basename(d))
      && (forall k :: k in m ==> r[k] == m[k])
      && (forall d :: d in dirs && d in t.dirs ==> r[Basename(d)] == DirEntry(DirMembers(t, d)))
  {
    CopyDirsKeys(t, m, dirs);
    CopyDirsEntries(t, m, dirs);
  }

  lemma {:induction false} CopyDirsKeys(t: Tree, m: Entries, dirs: seq<Path>)
    requires CopyDirs(t, m, dirs).Ok?
    ensures CopyDirs(t, m, dirs).value.Keys == m.Keys + (set d | d in dirs && d in t.dirs :: Basename(d))
  {
    if dirs != [] {
      var w, d := dirs[..|dirs| - 1], dirs[|dirs| - 1];
      assert dirs == w + [d];
      CopyDirsStep(t, m, w, d);
      CopyDirsKeys(t, m, w);
      DirNamesSnoc(t, w, d);
    }
  }

  lemma {:induction false} CopyDirsEntries(t: Tree, m: Entries, dirs: seq<Path>)
    requires CopyDirs(t, m, dirs).Ok?
    ensures forall d :: d in dirs && d in t.dirs ==> CopyDirs(t, m, dirs).value[Basename(d)] == DirEntry(DirMembers(t, d))
  {
    if dirs != [] {
      var w, d := dirs[..|dirs| - 1], dirs[|dirs| - 1];
      assert dirs == w + [d];
      CopyDirsStep(t, m, w, d);
      CopyDirsEntries(t, m, w);
      var acc, r := CopyDirs(t, m, w).value, CopyDirs(t, m, dirs).value;
      forall e | e in dirs && e in t.dirs
        ensures r[Basename(e)] == DirEntry(DirMembers(t, e))
      {
        if e != d {
          assert e in w && Basename(e) in acc && acc[Basename(e)] == DirEntry(DirMembers(t, e));
        }
      }
    }
  }

  /** One step of the directory loop: the entries before it, plus one more
      entry when the directory exists. */
  lemma CopyDirsStep(t: Tree, m: Entries, w: seq<Path>, d: Path)
    requires CopyDirs(t, m, w + [d]).Ok?
    ensures CopyDirs(t, m, w).Ok?
    ensures d in t.dirs ==> Basename(d) !in CopyDirs(t, m, w).value
    ensures d in t.dirs ==>
      CopyDirs(t, m, w + [d]).value == CopyDirs(t, m, w).value[Basename(d) := DirEntry(DirMembers(t, d))]
    ensures d !in t.dirs ==> CopyDirs(t, m, w + [d]).value == CopyDirs(t, m, w).value
  {
    assert (w + [d])[..|w + [d]| - 1] == w;
  }

  /** The base names of the existing directories of `w + [d]`. */
  lemma DirNamesSnoc(t: Tree, w: seq<Path>, d: Path)
    ensures (set e | e in w + [d] && e in t.dirs :: Basename(e)) ==
      (set e | e in w && e in t.dirs :: Basename(e)) + (if d in t.dirs then {Basename(d)} else {})
  {
    assert forall e :: e in w + [d] <==> e in w || e == d;
  }

  /** The three conditions under which every `copytree` of the directory loop
      succeeds, stated position by position: no tracked directory is now a
      file; every existing one has a usable base name not taken by a copied
      file; and no two existing ones share a base name. */
  predicate DirsCopyable(t: Tree, m: Entries, dirs: seq<Path>)
  {
    && (forall i :: 0 <= i < |dirs| ==> dirs[i] !in t.files)
    && (forall i :: 0 <= i < |dirs| && dirs[i] in t.dirs ==> !BadDest(Basename(dirs[i])) && Basename(dirs[i]) !in m)
    && (forall i, j :: 0 <= i < j < |dirs| && dirs[i] in t.dirs && dirs[j] in t.dirs ==>
          Basename(dirs[i]) != Basename(dirs[j]))
  }

  /** The conditions for one more directory `d` after the directories `w`. */
  predicate NextCopyable(t: Tree, m: Entries, w: seq<Path>, d: Path)
  {
    && d !in t.files
    && (d in t.dirs ==>
          && !BadDest(Basename(d)) && Basename(d) !in m
          && forall i :: 0 <= i < |w| && w[i] in t.dirs ==> Basename(w[i]) != Basename(d))
  }

  lemma CopyableSnoc(t: Tree, m: Entries, w: seq<Path>, d: Path)
    ensures DirsCopyable(t, m, w + [d]) <==> DirsCopyable(t, m, w) && NextCopyable(t, m, w, d)
  {
    var dirs := w + [d];
    assert forall i :: 0 <= i < |w| ==> dirs[i] == w[i];
    assert dirs[|w|] == d;
  }

  /** After the directories `w`, a base name is taken exactly when a copied file
      or one of the existing directories of `w` holds it. */
  lemma TakenAfter(t: Tree, m: Entries, w: seq<Path>, b: Path)
    requires CopyDirs(t, m, w).Ok?
    ensures b in CopyDirs(t, m, w).value <==>
      b in m || exists i :: 0 <= i < |w| && w[i] in t.dirs && Basename(w[i]) == b
  {
    CopyDirsContents(t, m, w);
    if b !in m && b in CopyDirs(t, m, w).value {
      var d2 :| d2 in w && d2 in t.dirs && Basename(d2) == b;
      var i :| 0 <= i < |w| && w[i] == d2;
    }
  }

  lemma {:induction false} CopyDirsCopyable(t: Tree, m: Entries, dirs: seq<Path>)
    ensures CopyDirs(t, m, dirs).Ok? <==> DirsCopyable(t, m, dirs)
  {
    if dirs != [] {
      var w := dirs[..|dirs| - 1];
      var d := dirs[|dirs| - 1];
      assert dirs == w + [d];
      CopyDirsCopyable(t, m, w);
      CopyableSnoc(t, m, w, d);
      if CopyDirs(t, m, w).Ok? {
        TakenAfter(t, m, w, Basename(d));
      }
    }
  }

  /** Which copy raises may depend on the dictionary order, but whether one does
      does not: the directory loop succeeds exactly when no tracked directory is
      now a file, and the existing ones have distinct, usable base names not
      taken by a copied file. */
  lemma CopyDirsOk(t: Tree, m: Entries, dirs: seq<Path>)
    ensures CopyDirs(t, m, dirs).Ok? <==>
      && (forall d :: d in dirs ==> d !in t.files)
      && (forall d :: d in dirs && d in t.dirs ==> !BadDest(Basename(d)) && Basename(d) !in m)
      && (forall i, j :: 0 <= i < j < |dirs| && dirs[i] in t.dirs && dirs[j] in t.dirs ==> Basename(dirs[i]) != Basename(dirs[j]))
  {
    CopyDirsCopyable(t, m, dirs);
  }

  /** The outcome of `os.path.exists(os.path.join(root, p))` followed by reading it. */
  datatype Found = Missing | FileAt(data: Bytes) | DirAt

  /** Looks a relative path up in a snapshot. */
  function Probe(m: Entries, p: Path): (r: Found)
    ensures '/' !in p ==> (r.Missing? <==> p !in m)
    ensures '/' !in p && r.FileAt? ==> m[p] == FileEntry(r.data)
    ensures r.FileAt? && '/' in p ==> exists d :: d in m && m[d].DirEntry? && r.data in m[d].members.Values
  {
    match FirstSlash(p)
    case None =>
      if p !in m then Missing
      else if m[p].FileEntry? then FileAt(m[p].data)
      else DirAt
    case Some(i) =>
      var head, rest := p[..i], p[i + 1..];
      if head !in m || m[head].FileEntry? then Missing
      else if rest in m[head].members then FileAt(m[head].members[rest])
      else if rest == "" || exists k :: k in m[head].members && StartsWith(k, rest + "/") then DirAt
      else Missing
  }

  /** A tracked top-level file is found under its own name in the snapshot,
      with its bytes, when no other tracked file with that base name holds
      different bytes. */
  lemma TopLevelFileStored(t: Tree, files: seq<Path>, dirs: seq<Path>, p: Path)
    requires TakeSnapshot(t, files, dirs).Ok?
    requires p in files && p in t.files && '/' !in p
    requires forall f :: f in files && f in t.files && Basename(f) == p ==> t.files[f] == t.files[p]
    ensures Probe(TakeSnapshot(t, files, dirs).value, p) == FileAt(t.files[p])
  {
    var i :| 0 <= i < |files| && files[i] == p;
    BasenameOfName(p);
    CopyFilesLastWins(t, files, i);
    CopyDirsContents(t, CopyFiles(t, files).value, dirs);
  }

  /** A file inside a tracked top-level directory is found at its own path in
      the snapshot, with its bytes. */
  lemma DirectoryFileStored(t: Tree, files: seq<Path>, dirs: seq<Path>, d: Path, r: Path)
    requires TakeSnapshot(t, files, dirs).Ok?
    requires d in dirs && d in t.dirs && '/' !in d && r != "" && d + "/" + r in t.files
    ensures Probe(TakeSnapshot(t, files, dirs).value, d + "/" + r) == FileAt(t.files[d + "/" + r])
  {
    var p, snap := d + "/" + r, TakeSnapshot(t, files, dirs).value;
    BasenameOfName(d);
    assert snap[d] == DirEntry(DirMembers(t, d));
    DirMembersSpec(t, d);
    assert r in DirMembers(t, d) && DirMembers(t, d)[r] == t.files[p];
    assert p[..|d|] == d && p[|d| + 1..] == r;
    FirstSlashAt(p, |d|);
  }

  /** A nested path whose first component is the base name of no tracked
      existing directory is not in the snapshot: files are stored flat, under
      their base names. */
  lemma NestedPathMissing(t: Tree, files: seq<Path>, dirs: seq<Path>, p: Path, i: nat)
    requires TakeSnapshot(t, files, dirs).Ok? && FirstSlash(p) == Some(i)
    requires forall d :: d in dirs && d in t.dirs ==> Basename(d) != p[..i]
    ensures Probe(TakeSnapshot(t, files, dirs).value, p) == Missing
  {
    var m := CopyFiles(t, files).value;
    CopyFilesKeys(t, files);
    CopyDirsContents(t, m, dirs);
  }

  /** Once a copy has raised, the later directories do not matter. */
  lemma {:induction false} CopyDirsFailStays(t: Tree, m: Entries, dirs: seq<Path>, n: nat)
    requires n <= |dirs| && CopyDirs(t, m, dirs[..n]).Err?
    ensures CopyDirs(t, m, dirs).Err?
    decreases |dirs| - n
  {
    if n < |dirs| {
      assert dirs[..n + 1][..n] == dirs[..n];
      CopyDirsFailStays(t, m, dirs, n + 1);
    } else {
      assert dirs[..n] == dirs;
    }
  }

  /** The `for file in repo_data["files"]` loop. */
  method CopyTrackedFiles(t: Tree, files: seq<Path>) returns (entries: Entries, ok: bool)
    ensures ok <==> CopyFiles(t, files).Ok?
    ensures ok ==> entries == CopyFiles(t, files).value
  {
    entries := map[];
    for i := 0 to |files|
      invariant CopyFiles(t, files[..i]) == Ok(entries)
    {
      var f := files[i];
      assert files[..i + 1][..i] == files[..i];
      if f in t.files {
        entries := entries[Basename(f) := FileEntry(t.files[f])];
      } else if f in t.dirs {
        CopyFilesOk(t, files);
        return entries, false;
      }
    }
    assert files[..|files|] == files;
    ok := true;
  }

  /** The `for directory, _ in repo_data["directories"].items()` loop. */
  method CopyTrackedDirs(t: Tree, m: Entries, dirs: seq<Path>) returns (entries: Entries, ok: bool)
    ensures ok <==> CopyDirs(t, m, dirs).Ok?
    ensures ok ==> entries == CopyDirs(t, m, dirs).value
  {
    entries := m;
    for i := 0 to |dirs|
      invariant CopyDirs(t, m, dirs[..i]) == Ok(entries)
    {
      var d := dirs[i];
      assert dirs[..i + 1][..i] == dirs[..i];
      if d in t.files {
        CopyDirsFailStays(t, m, dirs, i + 1);
        return entries, false;
      } else if d in t.dirs {
        if BadDest(Basename(d)) || Basename(d) in entries {
          CopyDirsFailStays(t, m, dirs, i + 1);
          return entries, false;
        }
        entries := entries[Basename(d) := DirEntry(DirMembers(t, d))];
      }
    }
    assert dirs[..|dirs|] == dirs;
    ok := true;
  }

  /** The two loops of `commit` / `version create` that fill a fresh storage
      directory. On failure the entries copied so far are returned: icvcs
      leaves them behind in the half-written directory. */
  method Materialize(t: Tree, files: seq<Path>, dirs: seq<Path>) returns (entries: Entries, ok: bool)
    ensures ok <==> TakeSnapshot(t, files, dirs).Ok?
    ensures ok ==> entries == TakeSnapshot(t, files, dirs).value
  {
    entries, ok := CopyTrackedFiles(t, files);
    if ok {
      entries, ok := CopyTrackedDirs(t, entries, dirs);
    }
  }

  /** The `for item in os.listdir(commit_dir)` loop of `push`: every item is
      copied, so the copy is exact. */
  method CopyEntries(src: Entries) returns (dst: Entries)
    ensures dst == src
  {
    dst := map[];
    var todo := src.Keys;
    while todo != {}
      invariant todo <= src.Keys
      invariant dst.Keys == src.Keys - todo
      invariant forall k :: k in dst ==> dst[k] == src[k]
      decreases todo
    {
      var k :| k in todo;
      dst := dst[k := src[k]];
      todo := todo - {k};
    }
  }
}
