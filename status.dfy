/** `status`: the working tree compared with `commits/latest`, and the
    summary lines printed above the four lists. */
module Status {
  import opened Base
  import opened Lists
  import opened Paths
  import opened SnapshotStore
  import opened Store

  /** The repository's own directory, which `status` never reports as untracked. */
  const IcvcsDir: string := ".icvcs"

  /** The four lists `status` prints. */
  datatype Classification = Classification(untracked: set<Path>, modified: set<Path>, deleted: set<Path>, staged: set<Path>)

  /** What `status` prints before the lists. */
  datatype Report = Report(repoName: string, trackedCount: nat, versionCount: nat, lastCommit: Option<CommitRecord>,
                           lists: Classification)

  /** Opening a tracked path with `open(..., 'rb')`, on either side, raises:
      it exists in the tree and under `latest`, and one of the two is a directory. */
  predicate Unreadable(t: Tree, latest: Entries, p: Path)
    ensures p in t.files && Probe(latest, p).FileAt? ==> !Unreadable(t, latest, p)
    ensures Exists(t, p) && Probe(latest, p) != Missing && !Unreadable(t, latest, p) ==>
      p in t.files && Probe(latest, p).FileAt?
  {
    Exists(t, p) && Probe(latest, p) != Missing && (p !in t.files || Probe(latest, p) == DirAt)
  }

  /** `latest` has nothing at the tracked path, or bytes other than the tree's. */
  predicate Differs(t: Tree, latest: Entries, p: Path)
  {
    Probe(latest, p) == Missing || (p in t.files && Probe(latest, p) != FileAt(t.files[p]))
  }

  /** The classification loop of `status`. `tracked` is `set(repo_data["files"])`
      and `walked` the relative paths `os.walk('.')` yields outside `.icvcs`.
      Reports raise when some tracked path is unreadable; otherwise the
      deleted, modified and staged lists are disjoint parts of the tracked
      set, staged files were walked, and untracked files are walked files
      that are neither tracked nor under `.icvcs`. */
  function Classify(tracked: set<Path>, t: Tree, walked: set<Path>, latest: Entries): (r: Result<Classification, Failure>)
    ensures r.Err? <==> exists p :: p in tracked && Unreadable(t, latest, p)
    ensures r.Err? ==> r.error == IsADirectory
    ensures r.Ok? ==>
      var c := r.value;
      && c.deleted <= tracked && c.modified <= tracked && c.staged <= tracked * walked
      && c.deleted * c.modified == {} && c.deleted * c.staged == {} && c.modified * c.staged == {}
      && c.untracked <= walked && c.untracked * tracked == {}
      && (forall p :: p in c.untracked ==> !StartsWith(p, IcvcsDir))
    ensures r.Ok? ==> forall p :: p in tracked ==> (p in r.value.deleted <==> !Exists(t, p))
    ensures r.Ok? ==> forall p :: p in walked && p !in tracked && !StartsWith(p, IcvcsDir) ==> p in r.value.untracked
    ensures r.Ok? ==> forall p :: p in tracked && p in walked && Exists(t, p) && !Differs(t, latest, p) ==>
      p in r.value.staged
  {
    if exists p :: p in tracked && Unreadable(t, latest, p) then Err(IsADirectory)
    else
      var deleted := set p | p in tracked && !Exists(t, p);
      var modified := set p | p in tracked && Exists(t, p) && Differs(t, latest, p);
      var staged := tracked * walked - modified - deleted;
      var untracked := set p | p in walked - tracked && !StartsWith(p, IcvcsDir);
      Ok(Classification(untracked, modified, deleted, staged))
  }

  /** `status` as a whole: the classification, then the summary. */
  function StatusReport(repoName: string, files: seq<Path>, versionNames: seq<string>, journal: seq<CommitRecord>,
                        t: Tree, walked: set<Path>, latest: Entries): (r: Result<Report, Failure>)
    ensures r.Ok? <==> Classify(Elems(files), t, walked, latest).Ok?
    ensures r.Ok? ==> r.value.lists == Classify(Elems(files), t, walked, latest).value
    ensures r.Ok? ==> r.value.trackedCount <= |files| && (NoDup(files) ==> r.value.trackedCount == |files|)
    ensures r.Ok? ==> r.value.lastCommit == LastCommit(journal) && r.value.versionCount == |versionNames|
  {
    match Classify(Elems(files), t, walked, latest)
    case Err(e) => Err(e)
    case Ok(c) =>
      ElemsCard(files);
      Ok(Report(repoName, |Elems(files)|, |versionNames|, LastCommit(journal), c))
  }

  /** When every tracked file present on disk was walked, the three tracked
      lists together are exactly the tracked set. */
  lemma ClassifyCovers(tracked: set<Path>, t: Tree, walked: set<Path>, latest: Entries)
    requires Classify(tracked, t, walked, latest).Ok?
    requires forall p :: p in tracked && p in t.files ==> p in walked
    ensures var c := Classify(tracked, t, walked, latest).value;
      c.deleted + c.modified + c.staged == tracked
  {
  }

  /** A tracked file is modified exactly when it is present and its bytes
      differ from those stored under the same path in `latest`. */
  lemma ModifiedMeans(tracked: set<Path>, t: Tree, walked: set<Path>, latest: Entries, p: Path)
    requires Classify(tracked, t, walked, latest).Ok? && p in tracked
    ensures p in Classify(tracked, t, walked, latest).value.modified <==>
      Exists(t, p) && (p !in t.files || Probe(latest, p) != FileAt(t.files[p]))
  {
  }

  /** Right after a snapshot is pushed to `latest`, an unchanged top-level
      tracked file that the walk saw is reported as staged. */
  lemma PushedFileStaged(t: Tree, files: seq<Path>, dirs: seq<Path>, walked: set<Path>, p: Path)
    requires TakeSnapshot(t, files, dirs).Ok?
    requires p in files && p in t.files && '/' !in p && p in walked
    requires forall f :: f in files && f in t.files && Basename(f) == p ==> t.files[f] == t.files[p]
    requires Classify(Elems(files), t, walked, TakeSnapshot(t, files, dirs).value).Ok?
    ensures p in Classify(Elems(files), t, walked, TakeSnapshot(t, files, dirs).value).value.staged
  {
    TopLevelFileStored(t, files, dirs, p);
  }

  /** A top-level tracked file edited after the push is reported as
      modified, and in no other list. */
  lemma EditedFileModified(t: Tree, files: seq<Path>, dirs: seq<Path>, now: Tree, walked: set<Path>, p: Path)
    requires TakeSnapshot(t, files, dirs).Ok?
    requires p in files && p in t.files && '/' !in p
    requires forall f :: f in files && f in t.files && Basename(f) == p ==> t.files[f] == t.files[p]
    requires p in now.files && now.files[p] != t.files[p]
    requires Classify(Elems(files), now, walked, TakeSnapshot(t, files, dirs).value).Ok?
    ensures var c := Classify(Elems(files), now, walked, TakeSnapshot(t, files, dirs).value).value;
      p in c.modified && p !in c.staged && p !in c.deleted && p !in c.untracked
  {
    TopLevelFileStored(t, files, dirs, p);
  }

  /** A nested tracked file that is still on disk is reported as modified
      however unchanged it is, unless its first component is a tracked
      directory: the snapshot holds it under its base name, while `status`
      looks for it under its full path. */
  lemma NestedFileModified(t: Tree, files: seq<Path>, dirs: seq<Path>, now: Tree, walked: set<Path>, p: Path, i: nat)
    requires TakeSnapshot(t, files, dirs).Ok? && FirstSlash(p) == Some(i)
    requires forall d :: d in dirs && d in t.dirs ==> Basename(d) != p[..i]
    requires p in files && Exists(now, p)
    requires Classify(Elems(files), now, walked, TakeSnapshot(t, files, dirs).value).Ok?
    ensures p in Classify(Elems(files), now, walked, TakeSnapshot(t, files, dirs).value).value.modified
  {
    NestedPathMissing(t, files, dirs, p, i);
  }

  /** A tracked file inside a tracked top-level directory, unchanged since the
      push and seen by the walk, is reported as staged. */
  lemma DirectoryFileStaged(t: Tree, files: seq<Path>, dirs: seq<Path>, walked: set<Path>, d: Path, r: Path)
    requires TakeSnapshot(t, files, dirs).Ok?
    requires d in dirs && d in t.dirs && '/' !in d && r != ""
    requires d + "/" + r in files && d + "/" + r in t.files && d + "/" + r in walked
    requires Classify(Elems(files), t, walked, TakeSnapshot(t, files, dirs).value).Ok?
    ensures d + "/" + r in Classify(Elems(files), t, walked, TakeSnapshot(t, files, dirs).value).value.staged
  {
    DirectoryFileStored(t, files, dirs, d, r);
  }
}
