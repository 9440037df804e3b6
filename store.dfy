/** The documents kept under `.icvcs`: the commit and version metadata
    records, the reserved `latest` storage, and the choice `push` makes. */
module Store {
  import opened Base
  import opened Paths
  import opened SnapshotStore

  /** The name of the storage under `commits/` that mirrors the pushed commit. */
  const Latest: string := "latest"

  /** A commit's `metadata.json`, and one entry of `commit_history.json`. */
  datatype CommitRecord = CommitRecord(commitId: string, timestamp: string, message: string, author: string)

  /** A version's `metadata.json`; `files` is absent when the document lacks that key. */
  datatype VersionMeta = VersionMeta(versionName: string, createdAt: string, author: string, description: string,
                                     files: Option<seq<Path>>)

  type CommitStore = map<string, Stored<CommitRecord>>
  type VersionStore = map<string, Stored<VersionMeta>>

  /** The shape `datetime.now().strftime('%Y%m%d%H%M%S')` gives: fourteen digits. */
  predicate IsCommitId(id: string)
  {
    |id| == 14 && forall i :: 0 <= i < |id| ==> '0' <= id[i] <= '9'
  }

  /** What `status` finds under `commits/latest`: nothing when that directory is gone. */
  function LatestEntries(commits: CommitStore): (m: Entries)
    ensures Latest !in commits ==> m == map[]
  {
    if Latest in commits then commits[Latest].entries else map[]
  }

  /** `get_last_commit_info`: the last record of the history, or none when it is empty. */
  function LastCommit(journal: seq<CommitRecord>): (r: Option<CommitRecord>)
    ensures r.None? <==> journal == []
    ensures r.Some? ==> r.value in journal
  {
    if journal == [] then None else Some(journal[|journal| - 1])
  }

  /** Appending a record makes it the one `get_last_commit_info` reports. */
  lemma LastCommitAppend(journal: seq<CommitRecord>, rec: CommitRecord)
    ensures LastCommit(journal + [rec]) == Some(rec)
  {
  }

  /** `sorted(os.listdir(COMMITS_DIR))` without `latest`, last element: the
      greatest identifier other than `latest`, or none when there is none. */
  method SelectNewest(ids: set<string>) returns (r: Option<string>)
    ensures r.None? <==> ids - {Latest} == {}
    ensures r.Some? ==> r.value in ids && r.value != Latest
    ensures r.Some? ==> forall k :: k in ids && k != Latest ==> k == r.value || Less(k, r.value)
  {
    var todo := ids - {Latest};
    r := None;
    while todo != {}
      invariant todo <= ids - {Latest}
      invariant r.None? ==> todo == ids - {Latest}
      invariant r.Some? ==> r.value in ids && r.value != Latest && r.value !in todo
      invariant r.Some? ==> forall k :: k in ids - {Latest} - todo ==> k == r.value || Less(k, r.value)
      decreases todo
    {
      var x :| x in todo;
      if r.None? {
        r := Some(x);
      } else if Less(r.value, x) {
        forall k | k in ids - {Latest} - todo && k != r.value ensures Less(k, x) {
          LessTransitive(k, r.value, x);
        }
        r := Some(x);
      } else {
        LessTotal(x, r.value);
      }
      todo := todo - {x};
    }
  }
}
