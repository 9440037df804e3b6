# icvcs in Dafny

icvcs is a single-user version-control tool that works on snapshots. It keeps
an index in `.icvcs/repo_data.json`. The index holds the tracked files, the
tracked directories (each with the paths walked below it) and the registered
version names. `commit` copies every tracked file and directory into a fresh
storage directory `.icvcs/commits/<id>` and appends a record to
`commit_history.json`. `push` replaces `.icvcs/commits/latest` with a copy of
one commit. `version create` does the same kind of copy into
`.icvcs/versions/<name>`. `status` sorts tracked files into deleted, modified
and staged by comparing the working tree with `latest`. `compare` decides, for
each path listed by two versions, whether their text differs.

The model has eight modules:

- `Base`: paths, bytes, `Option`/`Result`, and the failure kinds.
- `Lists`: the Python list operations the index uses: append-if-absent, and
  `list.remove`, which drops the first occurrence.
- `Paths`: `os.path.basename`, the first '/' of a path, and Python's string
  order with `sorted`.
- `SnapshotStore`: the working tree as a value (`Tree`: files with their bytes,
  and directories). It also holds what copying the index into a storage
  directory produces, and the lookup of a path in a snapshot (`Probe`).
- `Store`: the commit and version metadata records, `latest`, and the
  commit that `push` picks.
- `Icvcs`: the class `Repository`. Its fields are the index, the commit and
  version storage, and the history. Every command is a method that updates
  those fields in place.
- `Status`: the `status` classification and its summary.
- `Diff`: `load_version_files`, `load_file_content` and the decision that
  `compare_versions` makes for each file.

The working tree, the clock (commit identifier and ISO timestamps), the
answers to the author/message/description prompts, and the order `os.walk`
yields paths are all parameters of the operations that use them.

Files are copied into a storage directory under their base name
(`shutil.copy(file, dir)`). Directories are copied under the base name of the
directory (`copytree`). `status` and `compare`, however, look each tracked
file up under its full path. The model keeps this as written, and the lemmas
state its consequences:

- A top-level file is found in a snapshot with its bytes, provided no other
  tracked file with the same base name holds different bytes.
- A file inside a tracked top-level directory is found too.
- A nested tracked file is always reported as modified when its first
  component is the base name of no tracked directory that exists
  (`Status.NestedFileModified`). The tracked directory can sit at any depth:
  `lib/src` is stored as `src`, so `src/a.py` is found in it.

## Model

| member | source | states |
|---|---|---|
| Icvcs.Repository.Init | icvcs.py:41-73 | A fresh repository tracks nothing, has no versions and an empty history, and `latest` is empty. Both invariants hold. |
| Icvcs.Repository.Add | icvcs.py:76-100 | A file in the tree is tracked exactly once: it is appended at the end only when new. A directory gets a key, appended last in key order when new. With `-wf`, the directory also gets the walked paths it does not hold yet, in walk order. A missing path changes nothing. No-duplicate invariants are preserved. Storage and history are untouched. |
| Icvcs.CollectWalked | icvcs.py:91-95 | The `-wf` walk loop leaves exactly the append-if-absent list `Lists.AppendNew` describes. |
| Lists.AppendNew | icvcs.py:91-95 | The result extends the old member list. Its elements are the old ones plus the walked ones. It stays duplicate-free. |
| Icvcs.Repository.Remove | icvcs.py:103-121 | A path that is a file on disk loses its first occurrence in `files`; on a consistent index it is then gone. A path that is a directory on disk loses its key from both views of the directory table. Anything else changes nothing. |
| Lists.RemoveFirst | icvcs.py:108 | Removes exactly one occurrence (multiset difference) when present. Otherwise the list is unchanged. |
| Lists.RemoveFirstNoDup | icvcs.py:108 | On a duplicate-free list, the result is duplicate-free and holds every element except the removed one. |
| Icvcs.Repository.VersionCreate | icvcs.py:128-166 | An empty name gives `NameRequired`, and an existing name without `--force` gives `AlreadyExists`; neither changes anything. With `--force` the old storage is deleted; if the name is unregistered the command then stops with that storage gone. A copy that raises leaves storage without metadata and the registry unchanged. On success, metadata `files` equals the tracked list, `load_version_files` returns it, and the name is registered exactly once and last. |
| Icvcs.Repository.ReplaceVersion | icvcs.py:141-166 | Once the name is usable, an old version under it loses its storage and its registry entry. The snapshot is then stored under the name, with the given metadata, and the name is appended to the registry. A copy that raises leaves storage without metadata. A registry that named each stored version once still does. |
| Icvcs.Repository.StoreVersion | icvcs.py:145-166 | A snapshot that can be taken is stored under the name with its metadata, and the name goes last in the registry. A copy that raises leaves storage without metadata and the registry as it was. |
| Icvcs.Repository.VersionDelete | icvcs.py:169-181 | An empty name or a missing version changes nothing. Otherwise the storage is deleted; the registry entry goes only if it exists, else `NotRegistered`. On success the name is neither stored nor registered. |
| Icvcs.Repository.Commit | icvcs.py:187-225 | An identifier that is already taken gives `AlreadyExists` and changes nothing. A copy that raises leaves storage without metadata and the history unchanged. On success the snapshot is stored under the identifier and exactly one record is appended. That record carries the identifier, is what `get_last_commit_info` reports, and is the commit's metadata. Other commits are unchanged. |
| Icvcs.Repository.RemoveCommit | icvcs.py:230-236 | The commit's storage is deleted if present, otherwise `NotFound`. The history is never touched. |
| Icvcs.Repository.Push | icvcs.py:239-270 | These cases fail without change: empty storage, a missing named commit, and only `latest` stored. Otherwise `latest` becomes a whole copy of the chosen commit: the named one, or the greatest identifier other than `latest`. Pushing `latest` itself empties it. |
| Store.SelectNewest | icvcs.py:250-256 | Returns none exactly when `latest` is the only identifier. Otherwise it returns a stored identifier other than `latest` that every other such identifier precedes in Python string order. |
| Icvcs.Repository.ClearCommits | icvcs.py:274-280 | Only `latest` remains, if it was there, holding what it held. The index, versions and history are unchanged. |
| Paths.Basename | icvcs.py:152 | The base name holds no '/'. |
| Paths.BasenameIsLastComponent | icvcs.py:203 | The base name is the suffix after the last '/', or the whole path when it has no '/'. |
| Paths.Less | icvcs.py:250 | Python's string order never puts a string before itself. |
| Paths.LessTotal | icvcs.py:250 | Python's string order is total. |
| Paths.LessTransitive | icvcs.py:250 | Python's string order is transitive. |
| Paths.SortedSet | icvcs.py:514-515 | `sorted(set(...))` is strictly increasing, and its elements are the input's elements. |
| Paths.SortedUnionSymmetric | icvcs.py:514-515 | The sorted union of two lists does not depend on their order. |
| SnapshotStore.DirMembersSpec | icvcs.py:204 | A copied directory holds exactly the files below it, keyed relative to it, with their bytes. |
| SnapshotStore.CopyFiles | icvcs.py:195-199 | The file-copy loop (also icvcs.py:146-148) fails only with `CopyFailed`, and then some tracked path is a directory and not a file. On success every existing tracked file has an entry under its base name, and every entry is a file. |
| SnapshotStore.CopyDirs | icvcs.py:201-206 | The directory-copy loop (also icvcs.py:150-152) fails only with `CopyFailed`. On success it keeps every entry the file loop made, unchanged. It adds an entry under the base name of each existing tracked directory. |
| SnapshotStore.TakeSnapshot | icvcs.py:195-206 | Filling a storage directory fails only with `CopyFailed`. On success every existing tracked file has an entry under its base name. Every existing tracked directory has an entry under its base name that holds exactly that directory's files. |
| SnapshotStore.Probe | icvcs.py:390-399 | A single-component path is missing from a snapshot exactly when it is not an entry. When such a path is found as a file, the entry is that file with those bytes. A nested path found as a file holds the bytes of a member of some copied directory. |
| SnapshotStore.CopyTrackedFiles | icvcs.py:195-199 | The file-copy loop succeeds exactly when the file part of the snapshot does. On success it returns that part. |
| SnapshotStore.CopyTrackedDirs | icvcs.py:201-206 | The directory-copy loop, in key order, succeeds exactly when the directory part does. On success it returns that part. |
| SnapshotStore.Materialize | icvcs.py:195-206 | Copying the index succeeds exactly when the snapshot is defined. On success it returns the snapshot. |
| SnapshotStore.CopyFilesOk | icvcs.py:146-148 | Copying the files fails exactly when a tracked file is now a directory. A missing file is skipped. |
| SnapshotStore.CopyFilesKeys | icvcs.py:146-148 | The file part has exactly one entry per base name of an existing tracked file, and each entry is a file. |
| SnapshotStore.CopyFilesLastWins | icvcs.py:195-197 | The entry for a base name holds the bytes of an existing tracked file with that base name, provided no later such file holds different bytes. `shutil.copy` overwrites. |
| SnapshotStore.CopyDirsContents | icvcs.py:150-152 | The directory loop keeps every file entry. It adds one entry per existing tracked directory, holding that directory's files. |
| SnapshotStore.CopyDirsOk | icvcs.py:201-204 | The directory loop fails exactly when one of these holds: a tracked directory is now a file; an existing one has base name "", "." or ".."; that base name is already taken by a copied file; or two existing directories share a base name. |
| SnapshotStore.CopyEntries | icvcs.py:263-269 | Copying a commit's items into `latest` reproduces them exactly. |
| SnapshotStore.TopLevelFileStored | icvcs.py:197 | A tracked top-level file is found at its own path in the snapshot, with its bytes, provided no other tracked file with the same base name holds different bytes. |
| SnapshotStore.DirectoryFileStored | icvcs.py:204 | A file inside a tracked top-level directory is found at its own path in the snapshot, with its bytes. |
| SnapshotStore.NestedPathMissing | icvcs.py:197 | A nested path is absent from the snapshot when its first component is the base name of no tracked directory that exists, at any depth. |
| Store.LastCommit | icvcs.py:438-447 | `get_last_commit_info` reports nothing exactly when the history is empty. Otherwise it reports a record from the history. |
| Store.LastCommitAppend | icvcs.py:222 | After an append, the appended record is the last commit. |
| Status.Unreadable | icvcs.py:396-399 | A tracked path that is a file on disk and a file in `latest` never raises. A path that exists on both sides and does not raise is a file on both sides. |
| Status.Classify | icvcs.py:370-403 | Fails, with `IsADirectory`, exactly when some tracked path is unreadable as a file on either side. Otherwise deleted, modified and staged are pairwise disjoint and lie within the tracked set. Staged files were walked. Deleted means absent from disk. Untracked files are exactly the walked files that are not tracked and do not start with `.icvcs`. Every walked, tracked file on disk that does not differ from `latest` is staged. |
| Status.StatusReport | icvcs.py:404-408 | The summary is given exactly when the lists are. The tracked count is at most the length of `files`, and equal to it on a duplicate-free index. The last commit is the history's last record. |
| Status.ClassifyCovers | icvcs.py:389-403 | When every tracked file on disk was walked, deleted, modified and staged together are exactly the tracked set. |
| Status.ModifiedMeans | icvcs.py:389-401 | A tracked path is modified exactly when it is on disk and is either not a file or not stored with the same bytes under its path in `latest`. |
| Status.PushedFileStaged | icvcs.py:389-403 | After its snapshot is pushed, an unchanged top-level tracked file that was walked is staged. This holds provided no other tracked file with the same base name holds different bytes. |
| Status.EditedFileModified | icvcs.py:396-401 | A top-level tracked file edited after the push is modified, and in no other list. This holds provided no other tracked file with the same base name held different bytes at the push. |
| Status.NestedFileModified | icvcs.py:390-394 | A nested tracked file on disk is modified, however unchanged it is, when its first component is the base name of no tracked directory that exists, at any depth. |
| Status.DirectoryFileStaged | icvcs.py:389-403 | An unchanged, walked tracked file inside a tracked top-level directory is staged. |
| Diff.LoadVersionFiles | icvcs.py:479-494 | Returns the metadata's `files` list when version and metadata exist and the list is present. Otherwise it gives `NotFound` or `MalformedMetadata` accordingly. |
| Diff.Universal | icvcs.py:499 | Text mode leaves no carriage return, and never lengthens the text. |
| Diff.UniversalPrefix | icvcs.py:499 | A leading run without carriage returns reads back unchanged, whatever follows it. |
| Diff.UniversalCrLf | icvcs.py:499 | A `\r\n` pair reads as a single `\n`. |
| Diff.UniversalLoneCr | icvcs.py:499 | A `\r` not followed by `\n` reads as `\n`. |
| Diff.CrLfAsLf | icvcs.py:499 | Replacing a `\r\n` pair by `\n` does not change how the text reads. |
| Diff.UniversalIdempotent | icvcs.py:499 | Reading already translated text translates nothing. |
| Diff.ThroughFile | icvcs.py:499 | Only a path holding '/' can run through a file. When it does, its first component is an entry of the snapshot. A first component stored as a file makes the path run through a file, and the path itself is then missing. |
| Diff.ReadText | icvcs.py:496-502 | A path running through a file raises `NotADirectory`. Otherwise a stored file reads as its newline-translated bytes, with no carriage return. A missing file reads as empty. A directory raises `IsADirectory`. |
| Diff.CompareAll | icvcs.py:515-525 | Succeeds exactly when every path reads on both sides. It decides each path in order, changed exactly when the two texts differ. |
| Diff.Compare | icvcs.py:504-525 | Fails with the version-loading error, first version first. Otherwise it succeeds exactly when every listed path reads on both sides. It reports each path of either list once, in strictly increasing order, changed exactly when the texts differ. |
| Diff.CompareSymmetric | icvcs.py:504-525 | Swapping the two versions gives the same outcome: the same failure status, the same paths, and the same decisions. |
| Diff.LineEndingsInvisible | icvcs.py:517-520 | Files that differ only in their line endings compare as unchanged. |
| Diff.CrLfEditUnchanged | icvcs.py:517-520 | A file stored with a `\r\n` in one version and `\n` at the same place in the other compares as unchanged. |
| Diff.CompareSelf | icvcs.py:504-525 | A version compared with itself shows no changes. |

## Left out

- Printed messages, the help text, the `list_*` commands and the unified-diff
  text of `show_diff`. They are output only.
- `main`'s argument parsing, and the configuration file with its
  `change_*`/`show` commands. Prompts with configuration defaults become the
  resolved author/message/description parameters.
- JSON loading and saving. The index is the class's fields. A repository missing
  its `repo_data.json` is outside the model, as is `init` on an existing
  repository; `Init` models only a fresh one.
- The clock. Commit identifiers and ISO timestamps are parameters, and
  identifiers have the fourteen-digit shape that
  `strftime('%Y%m%d%H%M%S')` produces.
- `Add`, `Remove`, `Status.Classify` and `Diff.ReadText`: tracked paths are
  taken to be normalised relative paths, compared as strings. `./a.txt`,
  `a//b` or an absolute path name the same file as another string once the
  operating system resolves them, but the model treats them as different
  paths.
- Identifiers and names that `os.path.join` does not treat as one plain name.
  Examples are the empty commit identifier (`commit remove ""` would delete
  the whole commit storage) and names holding '/' or "..".
- The order and normalisation of `os.walk`. The walked paths are given, as a
  sequence for `add -wf` and as a set of relative paths for `status`. The
  walk's skipping of any root containing `.icvcs` is part of what is given.
- Empty directories and other file kinds. `Tree` has regular files and
  directories, and a copied directory keeps only its files.
- The `metadata.json` file written into every storage directory. It is kept
  apart from the copied items. Two clashes with it are not modelled. A tracked
  file named `metadata.json` is overwritten by icvcs. A tracked directory named
  `metadata.json` makes `open(metadata_path, 'w')` raise `IsADirectoryError`
  (icvcs.py:162, icvcs.py:214-216). That happens after the copies, before the
  history is appended or the version registered, yet `Commit` and
  `VersionCreate` report `Done` in that case.
- What a copy that raises had written before it raised. The model keeps the
  partial storage but states nothing about its contents.
- The list-shaped metadata branch of `load_version_files`. Version metadata is
  always written as a document.
- Text decoding. `Diff.ReadText` models the newline translation of text mode
  but not `UnicodeDecodeError`, which icvcs does not catch: it ends the
  whole comparison rather than failing one file. A read that raises is
  modelled as the failure of the whole comparison. The lines printed before
  it are not modelled.
- Commit identifier collisions. icvcs does not overwrite an existing
  commit with the same identifier: `os.makedirs` raises first. The model
  follows the code and reports `AlreadyExists` with nothing changed.
