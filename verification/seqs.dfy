/** Small sequence vocabulary used by both pipelines. */
module Seqs {

  /** No element occurs twice. */
  predicate Distinct<T(==)>(s: seq<T>) {
    forall i, j :: 0 <= i < j < |s| ==> s[i] != s[j]
  }

  /** JavaScript's `Array.prototype.indexOf`: the first position of `x`, or -1. */
  function IndexOf<T(==)>(s: seq<T>, x: T): (i: int)
    ensures -1 <= i < |s|
    ensures i == -1 <==> x !in s
    ensures 0 <= i ==> s[i] == x && x !in s[..i]
  {
    if s == [] then -1
    else if s[0] == x then 0
    else
      var j := IndexOf(s[1..], x);
      if j == -1 then -1 else j + 1
  }

  function Map<A, B>(f: A -> B, s: seq<A>): (r: seq<B>)
    ensures |r| == |s|
    ensures forall i :: 0 <= i < |s| ==> r[i] == f(s[i])
  {
    if s == [] then [] else [f(s[0])] + Map(f, s[1..])
  }

  lemma MapAppend<A, B>(f: A -> B, a: seq<A>, b: seq<A>)
    ensures Map(f, a + b) == Map(f, a) + Map(f, b)
  {
    var l, r := Map(f, a + b), Map(f, a) + Map(f, b);
    assert |l| == |r|;
    forall i | 0 <= i < |l|
      ensures l[i] == r[i]
    {
      if i < |a| {
        assert (a + b)[i] == a[i];
      } else {
        assert (a + b)[i] == b[i - |a|];
      }
    }
  }

  /** The elements satisfying `p`, in their original order. */
  function Filter<T>(s: seq<T>, p: T -> bool): (r: seq<T>)
    ensures |r| <= |s|
  {
    if s == [] then [] else (if p(s[0]) then [s[0]] else []) + Filter(s[1..], p)
  }

  /** Filtering keeps every copy of an element that passes and none of one that fails. */
  lemma {:induction false} FilterCounts<T(!new)>(s: seq<T>, p: T -> bool)
    ensures forall x :: multiset(Filter(s, p))[x] == if p(x) then multiset(s)[x] else 0
  {
    if s != [] {
      FilterCounts(s[1..], p);
      assert s == [s[0]] + s[1..];
    }
  }

  function Concat<T>(ss: seq<seq<T>>): seq<T> {
    if ss == [] then [] else ss[0] + Concat(ss[1..])
  }

  /** Ruby's `Array#join` / JavaScript's `Array.prototype.join`. */
  function Join<T>(parts: seq<seq<T>>, sep: seq<T>): seq<T> {
    if |parts| == 0 then []
    else if |parts| == 1 then parts[0]
    else parts[0] + sep + Join(parts[1..], sep)
  }

  /** Removing the element at `j` removes one copy of it from the multiset. */
  lemma MultisetRemove<T>(b: seq<T>, j: nat)
    requires j < |b|
    ensures multiset(b[..j] + b[j + 1..]) + multiset{b[j]} == multiset(b)
  {
    assert b == b[..j] + [b[j]] + b[j + 1..];
  }

  lemma MultisetHead<T>(a: seq<T>)
    requires |a| > 0
    ensures multiset(a) == multiset(a[1..]) + multiset{a[0]}
  {
    assert a == [a[0]] + a[1..];
  }

  lemma MultisetCancel<T>(x: multiset<T>, y: multiset<T>, c: T)
    requires x + multiset{c} == y + multiset{c}
    ensures x == y
  {
    assert forall e :: x[e] == (x + multiset{c})[e] - multiset{c}[e];
    assert forall e :: y[e] == (y + multiset{c})[e] - multiset{c}[e];
  }

  /** A sequence is what comes before position `j`, the element there, and what comes after. */
  lemma SplitAt<T>(b: seq<T>, j: nat)
    requires j < |b|
    ensures b == b[..j] + ([b[j]] + b[j + 1..])
  {
    assert b[j..] == [b[j]] + b[j + 1..];
    assert b == b[..j] + b[j..];
  }

  /** Mapping `b` with its `j`-th element removed loses exactly one copy of that element's image. */
  lemma MapRemove<A, B>(f: A -> B, b: seq<A>, j: nat)
    requires j < |b|
    ensures multiset(Map(f, b)) == multiset(Map(f, b[..j] + b[j + 1..])) + multiset{f(b[j])}
  {
    var x, y, v := b[..j], b[j + 1..], f(b[j]);
    var mx, my := Map(f, x), Map(f, y);
    assert Map(f, b) == mx + ([v] + my) by {
      SplitAt(b, j);
      MapAppend(f, x, [b[j]] + y);
      MapAppend(f, [b[j]], y);
    }
    assert Map(f, x + y) == mx + my by {
      MapAppend(f, x, y);
    }
    assert multiset(mx + ([v] + my)) == multiset(mx + my) + multiset{v};
  }

  /** A position of `a`'s first element in its permutation `b`, and what remains. */
  lemma PermutationHead<T>(a: seq<T>, b: seq<T>) returns (j: nat)
    requires |a| > 0 && multiset(a) == multiset(b)
    ensures j < |b| && b[j] == a[0]
    ensures multiset(a[1..]) == multiset(b[..j] + b[j + 1..])
  {
    assert a[0] in multiset(b);
    j :| 0 <= j < |b| && b[j] == a[0];
    MultisetRemove(b, j);
    MultisetRemove(a, 0);
    assert a[..0] + a[1..] == a[1..];
    MultisetCancel(multiset(a[1..]), multiset(b[..j] + b[j + 1..]), a[0]);
  }

  /** Mapping a permutation gives a permutation of the images. */
  lemma {:induction false} MapPermutation<A, B>(f: A -> B, a: seq<A>, b: seq<A>)
    requires multiset(a) == multiset(b)
    ensures multiset(Map(f, a)) == multiset(Map(f, b))
    decreases |a|
  {
    if a == [] {
      assert |multiset(b)| == 0;
      assert b == [];
    } else {
      var j := PermutationHead(a, b);
      MapPermutation(f, a[1..], b[..j] + b[j + 1..]);
      MapRemove(f, b, j);
      MapRemove(f, a, 0);
      assert a[..0] + a[1..] == a[1..];
    }
  }

  /** Joining two non-empty lists of parts is joining each and putting `sep` between. */
  lemma {:induction false} JoinAppend<T>(a: seq<seq<T>>, b: seq<seq<T>>, sep: seq<T>)
    requires |a| > 0 && |b| > 0
    ensures Join(a + b, sep) == Join(a, sep) + sep + Join(b, sep)
    decreases |a|
  {
    if |a| == 1 {
      assert a + b == [a[0]] + b;
    } else {
      assert (a + b)[1..] == a[1..] + b;
      JoinAppend(a[1..], b, sep);
    }
  }

  lemma {:induction false} DistinctCounts<T(!new)>(s: seq<T>)
    requires Distinct(s)
    ensures forall x :: multiset(s)[x] == if x in s then 1 else 0
  {
    if s != [] {
      assert s == [s[0]] + s[1..];
      assert Distinct(s[1..]);
      DistinctCounts(s[1..]);
      assert s[0] !in s[1..];
    }
  }

  lemma CountsDistinct<T(!new)>(s: seq<T>)
    requires forall x :: multiset(s)[x] <= 1
    ensures Distinct(s)
  {
    forall i, j | 0 <= i < j < |s|
      ensures s[i] != s[j]
    {
      assert s == s[..j] + s[j..];
      assert multiset(s)[s[j]] == multiset(s[..j])[s[j]] + multiset(s[j..])[s[j]];
      assert s[j] in multiset(s[j..]);
      assert s[..j][i] == s[i];
    }
  }

  /** Two duplicate-free sequences with the same members are permutations of each other. */
  lemma SameMembersPermutation<T(!new)>(a: seq<T>, b: seq<T>)
    requires Distinct(a) && Distinct(b)
    requires forall x :: x in a <==> x in b
    ensures multiset(a) == multiset(b)
  {
    DistinctCounts(a);
    DistinctCounts(b);
    assert forall x :: multiset(a)[x] == multiset(b)[x];
  }

  /** A permutation of a duplicate-free sequence is duplicate-free. */
  lemma PermutationDistinct<T(!new)>(a: seq<T>, b: seq<T>)
    requires Distinct(b) && multiset(a) == multiset(b)
    ensures Distinct(a)
  {
    DistinctCounts(b);
    CountsDistinct(a);
  }

  /** Joining joined groups of parts with the same separator joins all the parts. */
  lemma {:induction false} JoinConcat<T>(groups: seq<seq<seq<T>>>, sep: seq<T>)
    requires forall i :: 0 <= i < |groups| ==> |groups[i]| > 0
    ensures Join(Map((g: seq<seq<T>>) => Join(g, sep), groups), sep) == Join(Concat(groups), sep)
  {
    var f := (g: seq<seq<T>>) => Join(g, sep);
    if |groups| > 1 {
      JoinConcat(groups[1..], sep);
      assert forall i :: 0 <= i < |groups| - 1 ==> groups[1..][i] == groups[i + 1];
      ConcatNonEmpty(groups[1..]);
      JoinAppend(groups[0], Concat(groups[1..]), sep);
      assert Map(f, groups)[1..] == Map(f, groups[1..]);
    } else if |groups| == 1 {
      assert Concat(groups) == groups[0] + [];
      assert groups[0] + [] == groups[0];
    }
  }

  lemma {:induction false} ConcatNonEmpty<T>(groups: seq<seq<seq<T>>>)
    requires |groups| > 0 && forall i :: 0 <= i < |groups| ==> |groups[i]| > 0
    ensures |Concat(groups)| > 0
  {
  }

  /** The pieces of a five-part concatenation are recovered by slicing at their lengths. */
  lemma SlicePieces<T>(a: seq<T>, b: seq<T>, c: seq<T>, d: seq<T>, e: seq<T>)
    ensures var t := a + (b + c + d) + e;
      var i, j, k := |a| + |b|, |a| + |b| + |c|, |a| + |b| + |c| + |d|;
      && t[..|a|] == a && t[|a|..i] == b && t[i..j] == c && t[j..k] == d && t[k..] == e
  {
  }

  /** Filtering keeps exactly the elements that pass. */
  lemma {:induction false} FilterMembers<T(!new)>(s: seq<T>, p: T -> bool)
    ensures forall x :: x in Filter(s, p) <==> x in s && p(x)
  {
    if s != [] {
      FilterMembers(s[1..], p);
      assert forall x :: x in s <==> x == s[0] || x in s[1..];
    }
  }

  /** Filtering a duplicate-free sequence gives a duplicate-free sequence. */
  lemma {:induction false} FilterDistinct<T(!new)>(s: seq<T>, p: T -> bool)
    requires Distinct(s)
    ensures Distinct(Filter(s, p))
  {
    if s != [] {
      assert Distinct(s[1..]);
      FilterDistinct(s[1..], p);
      FilterMembers(s[1..], p);
      var rest := Filter(s[1..], p);
      assert s[0] !in s[1..];
      assert s[0] !in rest;
      var h := if p(s[0]) then [s[0]] else [];
      assert Filter(s, p) == h + rest;
      assert forall i :: 0 <= i < |rest| ==> (h + rest)[i + |h|] == rest[i];
    }
  }

  /** In a duplicate-free sequence an element's first position is its position. */
  lemma IndexOfDistinct<T>(s: seq<T>, i: nat)
    requires Distinct(s) && i < |s|
    ensures IndexOf(s, s[i]) == i
  {
    assert s[i] in s;
  }

  /** Filtering distributes over concatenation. */
  lemma {:induction false} FilterAppend<T>(a: seq<T>, b: seq<T>, p: T -> bool)
    ensures Filter(a + b, p) == Filter(a, p) + Filter(b, p)
  {
    if a != [] {
      var h := if p(a[0]) then [a[0]] else [];
      assert (a + b)[0] == a[0] && (a + b)[1..] == a[1..] + b;
      assert Filter(a + b, p) == h + Filter(a[1..] + b, p);
      assert Filter(a, p) == h + Filter(a[1..], p);
      FilterAppend(a[1..], b, p);
    } else {
      assert a + b == b;
    }
  }

  /** Two tests that agree on every element keep the same elements. */
  lemma {:induction false} FilterSame<T>(s: seq<T>, p: T -> bool, q: T -> bool)
    requires forall i :: 0 <= i < |s| ==> p(s[i]) == q(s[i])
    ensures Filter(s, p) == Filter(s, q)
  {
    if s != [] {
      assert forall i :: 0 <= i < |s| - 1 ==> s[1..][i] == s[i + 1];
      FilterSame(s[1..], p, q);
    }
  }

  /** Two duplicate-free sequences with no common element concatenate to a duplicate-free one. */
  lemma DistinctAppend<T>(a: seq<T>, b: seq<T>)
    requires Distinct(a) && Distinct(b)
    requires forall x :: x in a ==> x !in b
    ensures Distinct(a + b)
  {
    var r := a + b;
    forall i, j | 0 <= i < j < |r|
      ensures r[i] != r[j]
    {
      if j < |a| {
        assert r[i] == a[i] && r[j] == a[j];
      } else if i >= |a| {
        assert r[i] == b[i - |a|] && r[j] == b[j - |a|];
      } else {
        assert r[i] == a[i] && r[i] in a;
        assert r[j] == b[j - |a|] && r[j] in b;
      }
    }
  }

  /** A property of the head and of every element of the tail holds of every element. */
  lemma AllCons<T(!new)>(h: T, rest: seq<T>, p: T -> bool)
    requires p(h) && forall x :: x in rest ==> p(x)
    ensures forall x :: x in [h] + rest ==> p(x)
  {
    assert forall x :: x in [h] + rest ==> x == h || x in rest;
  }

  lemma PrefixSameHead<T>(h: seq<T>, x: seq<T>, y: seq<T>)
    requires x <= y
    ensures h + x <= h + y
  {
    assert (h + y)[..|h + x|] == h + y[..|x|];
  }

  /** A pointwise relation between two sequences survives putting a related pair in front. */
  lemma PairwiseCons<A, B>(x: A, y: B, xs: seq<A>, ys: seq<B>, r: (A, B) -> bool)
    requires |xs| == |ys| && r(x, y)
    requires forall k :: 0 <= k < |xs| ==> r(xs[k], ys[k])
    ensures forall k :: 0 <= k < |xs| + 1 ==> r(([x] + xs)[k], ([y] + ys)[k])
  {
    forall k | 0 <= k < |xs| + 1
      ensures r(([x] + xs)[k], ([y] + ys)[k])
    {
      if k > 0 {
        assert ([x] + xs)[k] == xs[k - 1] && ([y] + ys)[k] == ys[k - 1];
      }
    }
  }
}
