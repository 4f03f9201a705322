/**
 * Orderings and a functional insertion sort. Both runtimes compare strings
 * ordinally here: JavaScript's `localeCompare` and Ruby's `String#<=>` are
 * approximated by comparing code points left to right.
 */
module Sorting {
  import opened Seqs

  /** Ordinal (code point) lexicographic order on strings: `a` sorts no later than `b`. */
  predicate StrLe(a: string, b: string) {
    if a == [] then true
    else if b == [] then false
    else if a[0] != b[0] then a[0] < b[0]
    else StrLe(a[1..], b[1..])
  }

  lemma {:induction false} StrLeTotal(a: string, b: string)
    ensures StrLe(a, b) || StrLe(b, a)
  {
    if a != [] && b != [] && a[0] == b[0] {
      StrLeTotal(a[1..], b[1..]);
    }
  }

  lemma {:induction false} StrLeTransitive(a: string, b: string, c: string)
    requires StrLe(a, b) && StrLe(b, c)
    ensures StrLe(a, c)
  {
    if a != [] && b != [] && c != [] && a[0] == b[0] && b[0] == c[0] {
      StrLeTransitive(a[1..], b[1..], c[1..]);
    }
  }

  lemma {:induction false} StrLeAntisymmetric(a: string, b: string)
    requires StrLe(a, b) && StrLe(b, a)
    ensures a == b
  {
    if a != [] && b != [] {
      StrLeAntisymmetric(a[1..], b[1..]);
      assert a == [a[0]] + a[1..] && b == [b[0]] + b[1..];
    }
  }

  /** Transitivity of `le` at one triple; proofs name the triple they need. */
  ghost predicate TransitiveAt<T>(le: (T, T) -> bool, a: T, b: T, c: T) {
    le(a, b) && le(b, c) ==> le(a, c)
  }

  /** `le` orders every pair and is transitive: what a consistent sort comparator provides. */
  ghost predicate IsTotalPreorder<T(!new)>(le: (T, T) -> bool) {
    && (forall a, b :: le(a, b) || le(b, a))
    && (forall a, b, c {:trigger TransitiveAt(le, a, b, c)} :: TransitiveAt(le, a, b, c))
  }

  ghost predicate IsAntisymmetric<T(!new)>(le: (T, T) -> bool) {
    forall a, b :: le(a, b) && le(b, a) ==> a == b
  }

  lemma StrLeIsTotalOrder()
    ensures IsTotalPreorder(StrLe) && IsAntisymmetric(StrLe)
  {
    forall a, b
      ensures StrLe(a, b) || StrLe(b, a)
    {
      StrLeTotal(a, b);
    }
    forall a, b, c
      ensures TransitiveAt(StrLe, a, b, c)
    {
      if StrLe(a, b) && StrLe(b, c) {
        StrLeTransitive(a, b, c);
      }
    }
    forall a, b | StrLe(a, b) && StrLe(b, a)
      ensures a == b
    {
      StrLeAntisymmetric(a, b);
    }
  }

  predicate SortedBy<T>(s: seq<T>, le: (T, T) -> bool) {
    forall i, j :: 0 <= i < j < |s| ==> le(s[i], s[j])
  }

  /** A lower bound of `s` and of `x` is a lower bound of any permutation of `s + [x]`. */
  lemma LowerBound<T>(le: (T, T) -> bool, y: T, x: T, s: seq<T>, t: seq<T>)
    requires le(y, x) && forall k :: 0 <= k < |s| ==> le(y, s[k])
    requires multiset(t) == multiset(s) + multiset{x}
    ensures forall k :: 0 <= k < |t| ==> le(y, t[k])
  {
    forall k | 0 <= k < |t|
      ensures le(y, t[k])
    {
      assert t[k] in multiset(t);
      if t[k] != x {
        assert t[k] in multiset(s);
      }
    }
  }

  /** Inserts `x` into the sorted `s` before the first element it does not follow. */
  function Insert<T(!new)>(x: T, s: seq<T>, le: (T, T) -> bool): (r: seq<T>)
    requires IsTotalPreorder(le) && SortedBy(s, le)
    ensures SortedBy(r, le)
    ensures multiset(r) == multiset(s) + multiset{x}
  {
    if s == [] then [x]
    else if le(x, s[0]) then
      assert forall k :: 0 <= k < |s| ==> le(x, s[k]) by {
        forall k | 0 <= k < |s|
          ensures le(x, s[k])
        {
          assert TransitiveAt(le, x, s[0], s[k]);
        }
      }
      [x] + s
    else
      var t := Insert(x, s[1..], le);
      LowerBound(le, s[0], x, s[1..], t);
      assert s == [s[0]] + s[1..];
      [s[0]] + t
  }

  /** Insertion sort: a permutation of `s` ordered by `le`. */
  function Sort<T(!new)>(s: seq<T>, le: (T, T) -> bool): (r: seq<T>)
    requires IsTotalPreorder(le)
    ensures SortedBy(r, le)
    ensures multiset(r) == multiset(s)
  {
    if s == [] then []
    else
      assert s == [s[0]] + s[1..];
      Insert(s[0], Sort(s[1..], le), le)
  }

  /** The first elements of two sorted permutations are equal under an antisymmetric order. */
  lemma SortedHeads<T(!new)>(a: seq<T>, b: seq<T>, le: (T, T) -> bool)
    requires IsAntisymmetric(le)
    requires SortedBy(a, le) && SortedBy(b, le)
    requires |a| > 0 && multiset(a) == multiset(b)
    ensures |b| > 0 && a[0] == b[0]
  {
    assert a[0] in multiset(b);
    var j :| 0 <= j < |b| && b[j] == a[0];
    assert b[0] in multiset(a);
    var i :| 0 <= i < |a| && a[i] == b[0];
    assert i == 0 || le(a[0], a[i]);
    assert j == 0 || le(b[0], b[j]);
  }

  /** Under a total order there is only one sorted arrangement of a multiset. */
  lemma {:induction false} SortedUnique<T(!new)>(a: seq<T>, b: seq<T>, le: (T, T) -> bool)
    requires IsAntisymmetric(le)
    requires SortedBy(a, le) && SortedBy(b, le)
    requires multiset(a) == multiset(b)
    ensures a == b
    decreases |a|
  {
    if a == [] {
      assert |multiset(b)| == 0;
    } else {
      SortedHeads(a, b, le);
      MultisetHead(a);
      MultisetHead(b);
      MultisetCancel(multiset(a[1..]), multiset(b[1..]), a[0]);
      SortedUnique(a[1..], b[1..], le);
      assert a == [a[0]] + a[1..] && b == [b[0]] + b[1..];
    }
  }

  /** Filtering keeps a sorted sequence sorted. */
  lemma {:induction false} FilterSorted<T(!new)>(s: seq<T>, p: T -> bool, le: (T, T) -> bool)
    requires SortedBy(s, le)
    ensures SortedBy(Filter(s, p), le)
  {
    if s != [] {
      var tail := s[1..];
      assert SortedBy(tail, le) by {
        assert forall i :: 0 <= i < |tail| ==> tail[i] == s[i + 1];
      }
      FilterSorted(tail, p, le);
      FilterMembers(tail, p);
      var rest := Filter(tail, p);
      forall j | 0 <= j < |rest|
        ensures le(s[0], rest[j])
      {
        assert rest[j] in tail;
        var k :| 0 <= k < |tail| && tail[k] == rest[j];
        assert s[k + 1] == rest[j];
      }
      var h := if p(s[0]) then [s[0]] else [];
      var r := h + rest;
      assert Filter(s, p) == r;
      forall i, j | 0 <= i < j < |r|
        ensures le(r[i], r[j])
      {
        assert r[j] == rest[j - |h|];
        if i >= |h| {
          assert r[i] == rest[i - |h|];
        }
      }
    }
  }

  /** Two sorted runs, every element of the first below every element of the second, form a sorted run. */
  lemma SortedAppend<T>(a: seq<T>, b: seq<T>, le: (T, T) -> bool)
    requires SortedBy(a, le) && SortedBy(b, le)
    requires forall x, y :: x in a && y in b ==> le(x, y)
    ensures SortedBy(a + b, le)
  {
    var r := a + b;
    forall i, j | 0 <= i < j < |r|
      ensures le(r[i], r[j])
    {
      if j < |a| {
        assert r[i] == a[i] && r[j] == a[j];
      } else if i >= |a| {
        assert r[i] == b[i - |a|] && r[j] == b[j - |a|];
      } else {
        assert r[i] == a[i] && r[j] == b[j - |a|];
      }
    }
  }
}
