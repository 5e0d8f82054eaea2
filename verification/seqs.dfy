/** Sequence helpers. Immutable.js `OrderedSet`s and the `Set`s whose iteration
    order the modelled code observes are represented as duplicate-free sequences
    in insertion order. */
module Seqs {

  predicate NoDup<T(==)>(s: seq<T>) {
    forall i, j :: 0 <= i < j < |s| ==> s[i] != s[j]
  }

  /** The first components of a sequence of pairs, in order. */
  function Firsts<K, V>(s: seq<(K, V)>): (ks: seq<K>)
    ensures |ks| == |s|
    ensures forall i :: 0 <= i < |s| ==> ks[i] == s[i].0
  {
    if |s| == 0 then [] else [s[0].0] + Firsts(s[1..])
  }

  /** The elements of `s` satisfying `keep`, in order (`Array.prototype.filter`). */
  function Filter<T(==,!new)>(s: seq<T>, keep: T -> bool): (r: seq<T>)
    ensures |r| <= |s|
    ensures forall x :: x in r <==> x in s && keep(x)
  {
    if |s| == 0 then []
    else (if keep(s[0]) then [s[0]] else []) + Filter(s[1..], keep)
  }

  lemma FilterAppend<T(!new)>(a: seq<T>, b: seq<T>, keep: T -> bool)
    ensures Filter(a + b, keep) == Filter(a, keep) + Filter(b, keep)
  {
    if |a| == 0 {
      assert a + b == b;
    } else {
      assert (a + b)[1..] == a[1..] + b;
      FilterAppend(a[1..], b, keep);
    }
  }

  /** Filtering a sequence with a first element decides that element, then
      filters the rest. */
  lemma FilterCons<T(!new)>(x: T, s: seq<T>, keep: T -> bool)
    ensures Filter([x] + s, keep) == (if keep(x) then [x] else []) + Filter(s, keep)
  {
    assert ([x] + s)[1..] == s;
  }

  /** Filtering with a predicate every element satisfies changes nothing. */
  lemma FilterAll<T(!new)>(s: seq<T>, keep: T -> bool)
    requires forall i :: 0 <= i < |s| ==> keep(s[i])
    ensures Filter(s, keep) == s
  {
    if |s| > 0 {
      FilterAll(s[1..], keep);
    }
  }

  lemma FilterNoDup<T(!new)>(s: seq<T>, keep: T -> bool)
    requires NoDup(s)
    ensures NoDup(Filter(s, keep))
  {
    if |s| > 0 {
      FilterNoDup(s[1..], keep);
      assert s[0] !in s[1..];
    }
  }

  /** `s` without any occurrence of `x` (`Set.prototype.delete`). */
  function Remove<T(==,!new)>(s: seq<T>, x: T): (r: seq<T>)
    ensures x !in r
    ensures forall y :: y in r <==> y in s && y != x
    ensures x !in s ==> r == s
    ensures NoDup(s) ==> NoDup(r)
  {
    if |s| == 0 then []
    else
      var rest := Remove(s[1..], x);
      assert NoDup(s) ==> s[0] !in s[1..];
      if s[0] == x then rest else [s[0]] + rest
  }

  /** `Set.prototype.add`: appends `x` unless already present. */
  function Add<T(==,!new)>(s: seq<T>, x: T): (r: seq<T>)
    ensures x in r
    ensures forall y :: y in r <==> y in s || y == x
    ensures x in s ==> r == s
    ensures x !in s ==> r == s + [x]
    ensures NoDup(s) ==> NoDup(r)
  {
    if x in s then s else s + [x]
  }

  /** `Set.prototype.union`: the elements of `b` not yet in `a` are appended in order. */
  function Union<T(==,!new)>(a: seq<T>, b: seq<T>): (r: seq<T>)
    ensures forall y :: y in r <==> y in a || y in b
    ensures NoDup(a) ==> NoDup(r)
    ensures StartsWithSeq(r, a)
    decreases |b|
  {
    if |b| == 0 then a else Union(Add(a, b[0]), b[1..])
  }

  /** Appending elements none of which is present yet appends them all. */
  lemma {:induction false} UnionOfFresh<T(!new)>(a: seq<T>, b: seq<T>)
    requires NoDup(a + b)
    ensures Union(a, b) == a + b
    decreases |b|
  {
    if |b| > 0 {
      forall i | 0 <= i < |a| ensures a[i] != b[0] {
        assert (a + b)[i] == a[i] && (a + b)[|a|] == b[0];
      }
      assert a + [b[0]] + b[1..] == a + b;
      UnionOfFresh(a + [b[0]], b[1..]);
    }
  }

  /** `new Immutable.OrderedSet(s)`: the first occurrence of each element, in order. */
  function Dedup<T(==,!new)>(s: seq<T>): (r: seq<T>)
    ensures NoDup(r)
    ensures forall y :: y in r <==> y in s
    ensures NoDup(s) ==> r == s
  {
    assert NoDup(s) ==> Union([], s) == s by {
      if NoDup(s) {
        assert [] + s == s;
        UnionOfFresh([], s);
      }
    }
    Union([], s)
  }

  /** `sub` is `s` with some elements left out, the rest in their order. */
  predicate IsSubsequence<T(==)>(sub: seq<T>, s: seq<T>)
    decreases |s|
  {
    if |sub| == 0 then true
    else if |s| == 0 then false
    else (sub[0] == s[0] && IsSubsequence(sub[1..], s[1..])) || IsSubsequence(sub, s[1..])
  }

  lemma {:induction false} FilterIsSubsequence<T(!new)>(s: seq<T>, keep: T -> bool)
    ensures IsSubsequence(Filter(s, keep), s)
  {
    if |s| > 0 {
      FilterIsSubsequence(s[1..], keep);
      if keep(s[0]) {
        assert Filter(s, keep)[1..] == Filter(s[1..], keep);
      } else {
        assert Filter(s, keep) == Filter(s[1..], keep);
      }
    }
  }

  /** A subsequence of a duplicate-free sequence is duplicate-free. */
  lemma {:induction false} SubsequenceNoDup<T>(sub: seq<T>, s: seq<T>)
    requires IsSubsequence(sub, s) && NoDup(s)
    ensures NoDup(sub)
    decreases |s|
  {
    if |sub| > 0 {
      if sub[0] == s[0] && IsSubsequence(sub[1..], s[1..]) {
        SubsequenceNoDup(sub[1..], s[1..]);
        SubsequenceMembers(sub[1..], s[1..]);
        assert s[0] !in s[1..];
      } else {
        SubsequenceNoDup(sub, s[1..]);
      }
    }
  }

  lemma {:induction false} SubsequenceMembers<T>(sub: seq<T>, s: seq<T>)
    requires IsSubsequence(sub, s)
    ensures forall x :: x in sub ==> x in s
    decreases |s|
  {
    if |sub| > 0 {
      if sub[0] == s[0] && IsSubsequence(sub[1..], s[1..]) {
        SubsequenceMembers(sub[1..], s[1..]);
        assert sub == [sub[0]] + sub[1..];
      } else {
        SubsequenceMembers(sub, s[1..]);
      }
      assert s == [s[0]] + s[1..];
    }
  }

  /** An element first found at the last index, or later, is the last one. */
  lemma LastOfFirstIndex<T>(s: seq<T>, x: T)
    requires x in s && FirstIndex(s, x) >= |s| - 1
    ensures s[|s| - 1] == x
  {
  }

  /** `Array.prototype.indexOf`: the first position holding `x`, or -1. */
  function FirstIndex<T(==)>(s: seq<T>, x: T): (i: int)
    ensures -1 <= i < |s|
    ensures i >= 0 ==> s[i] == x && forall j :: 0 <= j < i ==> s[j] != x
    ensures i == -1 <==> x !in s
  {
    if |s| == 0 then -1
    else if s[0] == x then 0
    else
      var i := FirstIndex(s[1..], x);
      if i == -1 then -1 else i + 1
  }

  /** In a duplicate-free sequence the position of an element is the one it is at. */
  lemma FirstIndexNoDup<T>(s: seq<T>, i: int)
    requires NoDup(s) && 0 <= i < |s|
    ensures FirstIndex(s, s[i]) == i
  {
  }

  predicate StartsWithSeq<T(==)>(s: seq<T>, p: seq<T>) {
    |p| <= |s| && s[..|p|] == p
  }

  function ToSet<T(==,!new)>(s: seq<T>): (r: set<T>)
    ensures forall x :: x in r <==> x in s
  {
    set x | x in s
  }
}
