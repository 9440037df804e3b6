/** Path helpers and the ordering Python's `sorted` uses on strings. */
module Paths {
  import opened Base
  import opened Lists

  /** The last component of a path, as `os.path.basename` gives it: the longest
      suffix that holds no '/'. */
  function Basename(p: Path): (b: Path)
    ensures '/' !in b
  {
    if |p| == 0 then ""
    else if p[|p| - 1] == '/' then ""
    else Basename(p[..|p| - 1]) + [p[|p| - 1]]
  }

  /** `Basename` is the last component: a suffix of the path, starting at
      index `k`, preceded by '/' unless it is the whole path. */
  lemma {:induction false} BasenameIsLastComponent(p: Path)
    ensures var k := |p| - |Basename(p)|;
      0 <= k && Basename(p) == p[k..] && (k > 0 ==> p[k - 1] == '/')
  {
    if |p| > 0 && p[|p| - 1] != '/' {
      var q, c := p[..|p| - 1], p[|p| - 1];
      var b := Basename(q);
      assert Basename(p) == b + [c];
      BasenameIsLastComponent(q);
      var k := |q| - |b|;
      assert p == q + [c];
      assert p[k..] == q[k..] + [c];
      assert k > 0 ==> p[k - 1] == q[k - 1];
    }
  }

  /** A path of one component is its own base name. */
  lemma {:induction false} BasenameOfName(p: Path)
    requires '/' !in p
    ensures Basename(p) == p
  {
    if |p| > 0 {
      var q := p[..|p| - 1];
      assert '/' !in q by { assert forall i :: 0 <= i < |q| ==> q[i] == p[i]; }
      BasenameOfName(q);
      assert p == q + [p[|p| - 1]];
    }
  }

  predicate StartsWith(s: string, prefix: string)
  {
    |prefix| <= |s| && s[..|prefix|] == prefix
  }

  /** `p` lies strictly inside directory `d`, i.e. `p` is `d + "/" + rest` with a non-empty rest. */
  predicate IsStrictlyUnder(p: Path, d: Path)
  {
    |p| > |d| + 1 && p[..|d|] == d && p[|d|] == '/'
  }

  /** The index of the first '/' in `p`, if any. */
  function FirstSlash(p: Path): (r: Option<nat>)
    ensures r.None? <==> '/' !in p
    ensures r.Some? ==> r.value < |p| && p[r.value] == '/' && '/' !in p[..r.value]
  {
    if |p| == 0 then None
    else if p[0] == '/' then Some(0)
    else match FirstSlash(p[1..])
      case None => None
      case Some(i) => assert p[..i + 1] == [p[0]] + p[1..][..i]; Some(i + 1)
  }

  /** The first '/' is the one with none before it. */
  lemma FirstSlashAt(p: Path, k: nat)
    requires k < |p| && p[k] == '/' && '/' !in p[..k]
    ensures FirstSlash(p) == Some(k)
  {
  }

  /** Python's string order: lexicographic on code points, a proper prefix first. */
  predicate Less(a: string, b: string)
    decreases |a|
    ensures Less(a, b) ==> a != b
  {
    |b| > 0 && (|a| == 0 || a[0] < b[0] || (a[0] == b[0] && Less(a[1..], b[1..])))
  }

  lemma {:induction false} LessIrreflexive(a: string)
    ensures !Less(a, a)
    decreases |a|
  {
    if |a| > 0 {
      LessIrreflexive(a[1..]);
    }
  }

  lemma {:induction false} LessTransitive(a: string, b: string, c: string)
    requires Less(a, b) && Less(b, c)
    ensures Less(a, c)
    decreases |a|
  {
    if |a| > 0 && a[0] == b[0] && b[0] == c[0] {
      LessTransitive(a[1..], b[1..], c[1..]);
    }
  }

  lemma {:induction false} LessAsymmetric(a: string, b: string)
    requires Less(a, b)
    ensures !Less(b, a)
    decreases |a|
  {
    if |a| > 0 && a[0] == b[0] {
      LessAsymmetric(a[1..], b[1..]);
    }
  }

  lemma {:induction false} LessTotal(a: string, b: string)
    requires a != b
    ensures Less(a, b) || Less(b, a)
    decreases |a|
  {
    if |a| > 0 && |b| > 0 && a[0] == b[0] {
      assert a == [a[0]] + a[1..] && b == [b[0]] + b[1..];
      LessTotal(a[1..], b[1..]);
    }
  }

  predicate StrictlySorted(s: seq<string>)
  {
    forall i, j :: 0 <= i < j < |s| ==> Less(s[i], s[j])
  }

  /** Inserts `x` into a strictly sorted sequence, keeping it strictly sorted
      (an element already present is not inserted twice). */
  function Insert(x: string, s: seq<string>): (r: seq<string>)
    requires StrictlySorted(s)
    ensures StrictlySorted(r)
    ensures Elems(r) == Elems(s) + {x}
  {
    if s == [] then [x]
    else if x == s[0] then s
    else if Less(x, s[0]) then
      InsertFront(x, s);
      [x] + s
    else
      TailAbove(s);
      var rest := Insert(x, s[1..]);
      InsertBehind(x, s, rest);
      [s[0]] + rest
  }

  /** An element below the head goes in front. */
  lemma InsertFront(x: string, s: seq<string>)
    requires StrictlySorted(s) && s != [] && Less(x, s[0])
    ensures StrictlySorted([x] + s) && Elems([x] + s) == Elems(s) + {x}
  {
    BelowHead(x, s);
    ConsSorted(x, s);
    ElemsConcat([x], s);
  }

  /** An element above the head goes into the tail, behind the head. */
  lemma InsertBehind(x: string, s: seq<string>, rest: seq<string>)
    requires StrictlySorted(s) && s != [] && x != s[0] && !Less(x, s[0])
    requires StrictlySorted(rest) && Elems(rest) == Elems(s[1..]) + {x}
    ensures StrictlySorted([s[0]] + rest) && Elems([s[0]] + rest) == Elems(s) + {x}
  {
    LessTotal(x, s[0]);
    TailAbove(s);
    assert s == [s[0]] + s[1..];
    ElemsConcat([s[0]], rest);
    ElemsConcat([s[0]], s[1..]);
    assert forall y :: y in rest ==> y == x || y in Elems(s[1..]);
    ConsSorted(s[0], rest);
  }

  /** An element below the head of a sorted sequence is below all of it. */
  lemma BelowHead(x: string, s: seq<string>)
    requires StrictlySorted(s) && s != [] && Less(x, s[0])
    ensures forall y :: y in s ==> Less(x, y)
  {
    forall y | y in s ensures Less(x, y) {
      var j :| 0 <= j < |s| && s[j] == y;
      if j > 0 { LessTransitive(x, s[0], s[j]); }
    }
  }

  /** The head of a sorted sequence is below every element of its tail, and the tail is sorted. */
  lemma TailAbove(s: seq<string>)
    requires StrictlySorted(s) && s != []
    ensures StrictlySorted(s[1..])
    ensures forall y :: y in Elems(s[1..]) ==> Less(s[0], y)
  {
    forall y | y in Elems(s[1..]) ensures Less(s[0], y) {
      var j :| 0 <= j < |s[1..]| && s[1..][j] == y;
      assert s[j + 1] == y;
    }
  }

  /** A head below every element of a sorted sequence keeps it sorted. */
  lemma ConsSorted(h: string, rest: seq<string>)
    requires StrictlySorted(rest) && forall y :: y in rest ==> Less(h, y)
    ensures StrictlySorted([h] + rest)
  {
    var r := [h] + rest;
    forall i, j | 0 <= i < j < |r| ensures Less(r[i], r[j]) {
      assert r[j] == rest[j - 1];
      if i > 0 { assert r[i] == rest[i - 1]; }
    }
  }

  /** The elements of `s` in Python's `sorted(set(s))` order. */
  function SortedSet(s: seq<string>): (r: seq<string>)
    ensures StrictlySorted(r)
    ensures Elems(r) == Elems(s)
  {
    if s == [] then []
    else
      assert s == s[..|s| - 1] + [s[|s| - 1]];
      Insert(s[|s| - 1], SortedSet(s[..|s| - 1]))
  }

  /** A set has exactly one strictly sorted listing. */
  lemma {:induction false} SortedUnique(r1: seq<string>, r2: seq<string>)
    requires StrictlySorted(r1) && StrictlySorted(r2)
    requires Elems(r1) == Elems(r2)
    ensures r1 == r2
    decreases |r1|
  {
    if r1 == [] {
      ElemsEmpty(r2);
    } else {
      assert r1[0] in Elems(r2);
      assert r2 != [];
      assert r2[0] in Elems(r1);
      var k :| 0 <= k < |r2| && r2[k] == r1[0];
      var m :| 0 <= m < |r1| && r1[m] == r2[0];
      if k > 0 {
        if m > 0 {
          LessAsymmetric(r1[0], r2[0]);
        }
        assert false;
      }
      assert forall i :: 0 < i < |r1| ==> r1[i] != r1[0];
      assert forall i :: 0 < i < |r2| ==> r2[i] != r2[0];
      assert Elems(r1[1..]) == Elems(r1) - {r1[0]} by {
        assert r1 == [r1[0]] + r1[1..];
      }
      assert Elems(r2[1..]) == Elems(r2) - {r2[0]} by {
        assert r2 == [r2[0]] + r2[1..];
      }
      SortedUnique(r1[1..], r2[1..]);
      assert r1 == [r1[0]] + r1[1..] && r2 == [r2[0]] + r2[1..];
    }
  }

  /** `sorted(set(a).union(b))` does not depend on which side is which. */
  lemma SortedUnionSymmetric(a: seq<string>, b: seq<string>)
    ensures SortedSet(a + b) == SortedSet(b + a)
  {
    assert Elems(a + b) == Elems(b + a);
    SortedUnique(SortedSet(a + b), SortedSet(b + a));
  }
}
