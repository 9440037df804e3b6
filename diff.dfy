/** `compare`: reading a version's file list and its files, and deciding for
    every path of either list whether the two versions differ there. The
    unified diff text itself is not part of the model. */
module Diff {
  import opened Base
  import opened Lists
  import opened Paths
  import opened SnapshotStore
  import opened Store

  /** `load_version_files`: the `files` list of the version's metadata; a
      missing version directory or metadata file, and metadata without `files`,
      are reported and end the comparison. */
  function LoadVersionFiles(versions: VersionStore, v: string): (r: Result<seq<Path>, Failure>)
    ensures r.Ok? <==> v in versions && versions[v].meta.Some? && versions[v].meta.value.files.Some?
    ensures r.Ok? ==> r.value == versions[v].meta.value.files.value
    ensures r.Err? ==> r.error == (if v in versions && versions[v].meta.Some? then MalformedMetadata else NotFound)
  {
    if v !in versions || versions[v].meta.None? then Err(NotFound)
    else match versions[v].meta.value.files
      case None => Err(MalformedMetadata)
      case Some(fs) => Ok(fs)
  }

  /** Opening the path raises `NotADirectoryError`: some proper prefix of it is a file. */
  predicate ThroughFile(m: Entries, p: Path)
    ensures ThroughFile(m, p) ==> '/' in p
    ensures ThroughFile(m, p) ==> FirstSlash(p).Some? && p[..FirstSlash(p).value] in m
    ensures FirstSlash(p).Some? && p[..FirstSlash(p).value] in m && m[p[..FirstSlash(p).value]].FileEntry? ==>
      ThroughFile(m, p) && Probe(m, p) == Missing
  {
    match FirstSlash(p)
    case None => false
    case Some(i) =>
      var head, rest := p[..i], p[i + 1..];
      head in m && (m[head].FileEntry? || exists k :: k in m[head].members && StartsWith(rest, k + "/"))
  }

  const CR: Byte := 13
  const LF: Byte := 10

  /** Text mode's universal newlines: `\r\n` and a lone `\r` both read as `\n`. */
  function Universal(b: Bytes): (r: Bytes)
    ensures CR !in r
    ensures |r| <= |b|
    decreases |b|
  {
    if b == [] then []
    else if b[0] == CR then [LF] + Universal(if |b| > 1 && b[1] == LF then b[2..] else b[1..])
    else [b[0]] + Universal(b[1..])
  }

  /** Text without carriage returns reads back as it is. */
  lemma {:induction false} UniversalPlain(b: Bytes)
    requires CR !in b
    ensures Universal(b) == b
    decreases |b|
  {
    if b != [] {
      assert CR !in b[1..] by { assert forall i :: 0 <= i < |b[1..]| ==> b[1..][i] == b[i + 1]; }
      UniversalPlain(b[1..]);
    }
  }

  /** A leading run without carriage returns passes through unchanged, whatever follows it. */
  lemma {:induction false} UniversalPrefix(a: Bytes, b: Bytes)
    requires CR !in a
    ensures Universal(a + b) == a + Universal(b)
    decreases |a|
  {
    if a != [] {
      assert a[0] in a;
      assert (a + b)[0] == a[0] && (a + b)[1..] == a[1..] + b;
      assert a == [a[0]] + a[1..];
      assert Universal(a + b) == [a[0]] + Universal((a + b)[1..]);
      assert CR !in a[1..] by { assert forall i :: 0 <= i < |a[1..]| ==> a[1..][i] == a[i + 1]; }
      UniversalPrefix(a[1..], b);
    } else {
      assert a + b == b;
    }
  }

  /** A `\r\n` pair reads as one `\n`. */
  lemma UniversalCrLf(a: Bytes, b: Bytes)
    requires CR !in a
    ensures Universal(a + [CR, LF] + b) == a + [LF] + Universal(b)
  {
    UniversalPrefix(a, [CR, LF] + b);
    assert Universal([CR, LF] + b) == [LF] + Universal(b) by {
      assert ([CR, LF] + b)[0] == CR && ([CR, LF] + b)[1] == LF && ([CR, LF] + b)[2..] == b;
    }
    assert a + [CR, LF] + b == a + ([CR, LF] + b);
    assert a + ([LF] + Universal(b)) == a + [LF] + Universal(b);
  }

  /** A `\r` not followed by `\n` reads as `\n` too. */
  lemma UniversalLoneCr(a: Bytes, b: Bytes)
    requires CR !in a && (b == [] || b[0] != LF)
    ensures Universal(a + [CR] + b) == a + [LF] + Universal(b)
  {
    UniversalPrefix(a, [CR] + b);
    assert Universal([CR] + b) == [LF] + Universal(b) by {
      assert ([CR] + b)[0] == CR && ([CR] + b)[1..] == b;
      assert |[CR] + b| > 1 ==> ([CR] + b)[1] == b[0];
    }
    assert a + [CR] + b == a + ([CR] + b);
    assert a + ([LF] + Universal(b)) == a + [LF] + Universal(b);
  }

  /** Replacing the first `\r\n` of a text by `\n` does not change how it reads. */
  lemma CrLfAsLf(a: Bytes, b: Bytes)
    requires CR !in a
    ensures Universal(a + [CR, LF] + b) == Universal(a + [LF] + b)
  {
    UniversalCrLf(a, b);
    UniversalPrefix(a, [LF] + b);
    assert Universal([LF] + b) == [LF] + Universal(b) by {
      assert ([LF] + b)[0] == LF && ([LF] + b)[1..] == b;
    }
    assert a + [LF] + b == a + ([LF] + b);
    assert a + ([LF] + Universal(b)) == a + [LF] + Universal(b);
  }

  /** Reading a text twice translates nothing the second time. */
  lemma UniversalIdempotent(b: Bytes)
    ensures Universal(Universal(b)) == Universal(b)
  {
    UniversalPlain(Universal(b));
  }

  /** `load_file_content(...) or ""`: the file read in text mode, or the empty
      text when it is missing (or empty); a directory, or a path through a
      file, raises. */
  function ReadText(m: Entries, p: Path): (r: Result<Bytes, Failure>)
    ensures r.Ok? ==> CR !in r.value
    ensures ThroughFile(m, p) ==> r == Err(NotADirectory)
    ensures !ThroughFile(m, p) && Probe(m, p) == Missing ==> r == Ok([])
    ensures !ThroughFile(m, p) && Probe(m, p).FileAt? ==> r == Ok(Universal(Probe(m, p).data))
    ensures !ThroughFile(m, p) && Probe(m, p) == DirAt ==> r == Err(IsADirectory)
  {
    if ThroughFile(m, p) then Err(NotADirectory)
    else match Probe(m, p)
      case Missing => Ok([])
      case FileAt(b) => Ok(Universal(b))
      case DirAt => Err(IsADirectory)
  }

  /** One line of the report: `Changes in file: ...` or `No changes in file: ...`. */
  datatype Verdict = Verdict(path: Path, changed: bool)

  function PathsOf(vs: seq<Verdict>): (r: seq<Path>)
    ensures |r| == |vs| && forall i :: 0 <= i < |vs| ==> r[i] == vs[i].path
  {
    seq(|vs|, i requires 0 <= i < |vs| => vs[i].path)
  }

  /** The loop over the sorted union, comparing the two texts at each path. */
  function CompareAll(m1: Entries, m2: Entries, paths: seq<Path>): (r: Result<seq<Verdict>, Failure>)
    ensures r.Ok? <==> forall p :: p in paths ==> ReadText(m1, p).Ok? && ReadText(m2, p).Ok?
    ensures r.Ok? ==> PathsOf(r.value) == paths
    ensures r.Ok? ==> forall i :: 0 <= i < |paths| ==>
      (r.value[i].changed <==> ReadText(m1, paths[i]).value != ReadText(m2, paths[i]).value)
  {
    if paths == [] then Ok([])
    else
      var w, p := paths[..|paths| - 1], paths[|paths| - 1];
      assert paths == w + [p];
      var earlier, t1, t2 := CompareAll(m1, m2, w), ReadText(m1, p), ReadText(m2, p);
      if earlier.Err? then earlier
      else if t1.Err? then Err(t1.error)
      else if t2.Err? then Err(t2.error)
      else
        VerdictSnoc(earlier.value, w, p, t1.value != t2.value);
        Ok(earlier.value + [Verdict(p, t1.value != t2.value)])
  }

  /** Appending a verdict appends its path and keeps the earlier verdicts. */
  lemma VerdictSnoc(vs: seq<Verdict>, w: seq<Path>, p: Path, changed: bool)
    requires PathsOf(vs) == w
    ensures PathsOf(vs + [Verdict(p, changed)]) == w + [p]
    ensures forall i :: 0 <= i < |w| ==> (vs + [Verdict(p, changed)])[i] == vs[i]
  {
    assert forall i :: 0 <= i < |w| ==> |vs| == |w| && PathsOf(vs)[i] == w[i];
  }

  /** `compare_versions`: fails when either version's file list cannot be
      loaded; otherwise reports, in sorted order and once each, every path
      listed by either version, as changed exactly when the two texts differ
      (a missing file reading as empty). */
  function Compare(versions: VersionStore, v1: string, v2: string): (r: Result<seq<Verdict>, Failure>)
    ensures LoadVersionFiles(versions, v1).Err? ==> r == Err(LoadVersionFiles(versions, v1).error)
    ensures LoadVersionFiles(versions, v1).Ok? && LoadVersionFiles(versions, v2).Err? ==>
      r == Err(LoadVersionFiles(versions, v2).error)
    ensures LoadVersionFiles(versions, v1).Ok? && LoadVersionFiles(versions, v2).Ok? ==>
      (r.Ok? <==> forall p :: p in LoadVersionFiles(versions, v1).value + LoadVersionFiles(versions, v2).value ==>
                    ReadText(versions[v1].entries, p).Ok? && ReadText(versions[v2].entries, p).Ok?)
    ensures r.Ok? ==>
      && LoadVersionFiles(versions, v1).Ok? && LoadVersionFiles(versions, v2).Ok?
      && StrictlySorted(PathsOf(r.value))
      && Elems(PathsOf(r.value)) == Elems(LoadVersionFiles(versions, v1).value) + Elems(LoadVersionFiles(versions, v2).value)
      && forall i :: 0 <= i < |r.value| ==>
           && ReadText(versions[v1].entries, r.value[i].path).Ok?
           && ReadText(versions[v2].entries, r.value[i].path).Ok?
           && (r.value[i].changed <==>
              ReadText(versions[v1].entries, r.value[i].path).value != ReadText(versions[v2].entries, r.value[i].path).value)
  {
    match LoadVersionFiles(versions, v1)
    case Err(e) => Err(e)
    case Ok(files1) =>
      match LoadVersionFiles(versions, v2)
      case Err(e) => Err(e)
      case Ok(files2) =>
        ElemsConcat(files1, files2);
        var paths := SortedSet(files1 + files2);
        assert forall p :: p in paths <==> p in Elems(paths);
        assert forall p :: p in files1 + files2 <==> p in Elems(files1 + files2);
        CompareAll(versions[v1].entries, versions[v2].entries, paths)
  }

  /** Comparing two versions either way round fails alike, or lists the same
      paths with the same decisions. */
  lemma CompareSymmetric(versions: VersionStore, v1: string, v2: string)
    ensures Compare(versions, v1, v2).Ok? <==> Compare(versions, v2, v1).Ok?
    ensures Compare(versions, v1, v2).Ok? ==> Compare(versions, v1, v2).value == Compare(versions, v2, v1).value
  {
    var l1, l2 := LoadVersionFiles(versions, v1), LoadVersionFiles(versions, v2);
    if l1.Ok? && l2.Ok? {
      SortedUnionSymmetric(l1.value, l2.value);
      var paths := SortedSet(l1.value + l2.value);
      var m1, m2 := versions[v1].entries, versions[v2].entries;
      CompareAllSwap(m1, m2, paths);
    }
  }

  lemma {:induction false} CompareAllSwap(m1: Entries, m2: Entries, paths: seq<Path>)
    ensures CompareAll(m1, m2, paths) == CompareAll(m2, m1, paths) ||
            (CompareAll(m1, m2, paths).Err? && CompareAll(m2, m1, paths).Err?)
  {
    if paths != [] {
      CompareAllSwap(m1, m2, paths[..|paths| - 1]);
    }
  }

  /** A file saved once with `\r\n` and once with `\n` at the same place compares as unchanged. */
  lemma CrLfEditUnchanged(versions: VersionStore, v1: string, v2: string, i: nat, a: Bytes, b: Bytes)
    requires Compare(versions, v1, v2).Ok? && i < |Compare(versions, v1, v2).value|
    requires CR !in a
    requires var p := Compare(versions, v1, v2).value[i].path;
      Probe(versions[v1].entries, p) == FileAt(a + [CR, LF] + b) && Probe(versions[v2].entries, p) == FileAt(a + [LF] + b)
    ensures !Compare(versions, v1, v2).value[i].changed
  {
    CrLfAsLf(a, b);
    LineEndingsInvisible(versions, v1, v2, i);
  }

  /** Two texts that differ only in their line endings compare as unchanged. */
  lemma LineEndingsInvisible(versions: VersionStore, v1: string, v2: string, i: nat)
    requires Compare(versions, v1, v2).Ok? && i < |Compare(versions, v1, v2).value|
    requires var p := Compare(versions, v1, v2).value[i].path;
      Probe(versions[v1].entries, p).FileAt? && Probe(versions[v2].entries, p).FileAt? &&
      Universal(Probe(versions[v1].entries, p).data) == Universal(Probe(versions[v2].entries, p).data)
    ensures !Compare(versions, v1, v2).value[i].changed
  {
  }

  /** A version compared with itself shows no changes. */
  lemma CompareSelf(versions: VersionStore, v: string)
    requires Compare(versions, v, v).Ok?
    ensures forall i :: 0 <= i < |Compare(versions, v, v).value| ==> !Compare(versions, v, v).value[i].changed
  {
  }
}
