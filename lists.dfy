/** The list operations the index document is edited with: `in`, `append` and `list.remove`. */
module Lists {

  function Elems<T>(s: seq<T>): set<T>
  {
    set x | x in s
  }

  lemma ElemsConcat<T>(a: seq<T>, b: seq<T>)
    ensures Elems(a + b) == Elems(a) + Elems(b)
  {
    assert forall x :: x in a + b <==> x in a || x in b;
  }

  /** Only the empty list has no elements. */
  lemma ElemsEmpty<T>(s: seq<T>)
    ensures Elems(s) == {} ==> s == []
  {
    if s != [] {
      assert s[0] in Elems(s);
    }
  }

  /** No element occurs twice. */
  predicate NoDup<T(==)>(s: seq<T>)
  {
    forall i, j :: 0 <= i < j < |s| ==> s[i] != s[j]
  }

  /** A list without duplicates has as many distinct elements as it is long,
      so `len(set(files))` equals `len(files)` for a duplicate-free index. */
  lemma {:induction false} NoDupCard<T>(s: seq<T>)
    requires NoDup(s)
    ensures |Elems(s)| == |s|
  {
    if s != [] {
      var t := s[..|s| - 1];
      assert s == t + [s[|s| - 1]];
      ElemsConcat(t, [s[|s| - 1]]);
      assert s[|s| - 1] !in Elems(t);
      assert Elems([s[|s| - 1]]) == {s[|s| - 1]};
      NoDupCard(t);
    }
  }

  /** Appends, one by one and in order, every element of `walk` not yet present:
      the `if x not in l: l.append(x)` loop. */
  function AppendNew<T(==)>(acc: seq<T>, walk: seq<T>): (r: seq<T>)
    ensures |acc| <= |r| && r[..|acc|] == acc
    ensures Elems(r) == Elems(acc) + Elems(walk)
    ensures NoDup(acc) ==> NoDup(r)
  {
    if walk == [] then acc
    else
      var w := walk[..|walk| - 1];
      var x := walk[|walk| - 1];
      assert walk == w + [x];
      ElemsConcat(w, [x]);
      var a := AppendNew(acc, w);
      if x in a then
        assert x in Elems(a);
        a
      else
        ElemsConcat(a, [x]);
        assert (a + [x])[..|acc|] == a[..|acc|];
        a + [x]
  }

  /** The position of the first occurrence of `x`, as `list.index` finds it. */
  function IndexOf<T(==)>(s: seq<T>, x: T): (i: nat)
    requires x in s
    ensures i < |s| && s[i] == x && x !in s[..i]
  {
    if s[0] == x then 0
    else
      var j := IndexOf(s[1..], x);
      assert s[..j + 1] == [s[0]] + s[1..][..j];
      j + 1
  }

  /** Python's `list.remove(x)` when `x` is present: drops the first occurrence. */
  function RemoveFirst<T(==)>(s: seq<T>, x: T): (r: seq<T>)
    ensures x !in s ==> r == s
    ensures x in s ==> |r| == |s| - 1
    ensures multiset(r) == multiset(s) - multiset{x}
  {
    if x in s then
      var i := IndexOf(s, x);
      assert s == s[..i] + [x] + s[i + 1..];
      s[..i] + s[i + 1..]
    else
      assert x !in multiset(s);
      s
  }

  lemma RemoveAtIndex<T>(s: seq<T>, i: nat, k: nat)
    requires i < |s| && k < |s| - 1
    ensures (s[..i] + s[i + 1..])[k] == s[if k < i then k else k + 1]
  {
  }

  /** On a duplicate-free list `list.remove(x)` takes `x` out entirely and keeps the list duplicate-free. */
  lemma RemoveFirstNoDup<T>(s: seq<T>, x: T)
    requires NoDup(s)
    ensures NoDup(RemoveFirst(s, x))
    ensures Elems(RemoveFirst(s, x)) == Elems(s) - {x}
  {
    if x in s {
      var i := IndexOf(s, x);
      assert RemoveFirst(s, x) == s[..i] + s[i + 1..];
      DropAtNoDup(s, i);
      DropAtElems(s, i);
    }
  }

  /** Dropping one position of a duplicate-free list keeps it duplicate-free. */
  lemma DropAtNoDup<T>(s: seq<T>, i: nat)
    requires NoDup(s) && i < |s|
    ensures NoDup(s[..i] + s[i + 1..])
  {
    var r := s[..i] + s[i + 1..];
    forall a, b | 0 <= a < b < |r| ensures r[a] != r[b] {
      RemoveAtIndex(s, i, a);
      RemoveAtIndex(s, i, b);
    }
  }

  /** Dropping the only occurrence of `s[i]` removes exactly that element. */
  lemma DropAtElems<T>(s: seq<T>, i: nat)
    requires NoDup(s) && i < |s|
    ensures Elems(s[..i] + s[i + 1..]) == Elems(s) - {s[i]}
  {
    var r := s[..i] + s[i + 1..];
    forall y | y in r ensures y in s && y != s[i] {
      var k :| 0 <= k < |r| && r[k] == y;
      RemoveAtIndex(s, i, k);
    }
    forall y | y in s && y != s[i] ensures y in r {
      var k :| 0 <= k < |s| && s[k] == y;
      RemoveAtIndex(s, i, if k < i then k else k - 1);
    }
  }

  /** `RemoveFirstNoDup`, for a caller that only knows the list is duplicate-free
      when its own invariant holds. */
  lemma RemoveFirstNoDupIf<T>(s: seq<T>, x: T)
    ensures NoDup(s) ==> NoDup(RemoveFirst(s, x)) && Elems(RemoveFirst(s, x)) == Elems(s) - {x}
  {
    if NoDup(s) {
      RemoveFirstNoDup(s, x);
    }
  }

  /** A list has at least as many positions as distinct elements. */
  lemma {:induction false} ElemsCard<T>(s: seq<T>)
    ensures |Elems(s)| <= |s|
    ensures NoDup(s) ==> |Elems(s)| == |s|
  {
    if s != [] {
      var t := s[..|s| - 1];
      ElemsCard(t);
      assert s == t + [s[|s| - 1]];
      ElemsConcat(t, [s[|s| - 1]]);
      assert Elems([s[|s| - 1]]) == {s[|s| - 1]};
      if NoDup(s) {
        NoDupCard(s);
      }
    }
  }
}
