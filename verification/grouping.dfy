/**
 * Grouping records by a string key, as JavaScript's `Map` filled in a loop and
 * Ruby's `group_by` both do: keys in order of first appearance, each group
 * holding the records with that key.
 */
module Grouping {
  import opened Seqs

  /** The distinct keys of `xs`, in order of first appearance. */
  function Keys<T>(xs: seq<T>, key: T -> string): (ks: seq<string>)
    ensures Distinct(ks)
    ensures forall i :: 0 <= i < |xs| ==> key(xs[i]) in ks
    ensures forall k :: k in ks ==> exists i :: 0 <= i < |xs| && key(xs[i]) == k
  {
    if xs == [] then []
    else
      var init := xs[..|xs| - 1];
      var ks := Keys(init, key);
      var k := key(xs[|xs| - 1]);
      assert forall i :: 0 <= i < |init| ==> init[i] == xs[i];
      if k in ks then ks else ks + [k]
  }

  /** The records whose key is `k`, in their original order. */
  function Group<T(!new)>(xs: seq<T>, key: T -> string, k: string): (g: seq<T>)
    ensures forall x :: multiset(g)[x] == if key(x) == k then multiset(xs)[x] else 0
  {
    FilterCounts(xs, x => key(x) == k);
    Filter(xs, x => key(x) == k)
  }

  /** Every key that occurs has a non-empty group. */
  lemma GroupOfKeyNonEmpty<T(!new)>(xs: seq<T>, key: T -> string, k: string)
    requires k in Keys(xs, key)
    ensures |Group(xs, key, k)| > 0
  {
    var i :| 0 <= i < |xs| && key(xs[i]) == k;
    assert xs[i] in multiset(xs);
    assert multiset(Group(xs, key, k))[xs[i]] > 0;
  }

  /** The groups of `ks`, one after the other. */
  function Collect<T(!new)>(xs: seq<T>, key: T -> string, ks: seq<string>): seq<T> {
    if ks == [] then [] else Group(xs, key, ks[0]) + Collect(xs, key, ks[1..])
  }

  lemma {:induction false} CollectCounts<T(!new)>(xs: seq<T>, key: T -> string, ks: seq<string>)
    requires Distinct(ks)
    ensures forall x :: multiset(Collect(xs, key, ks))[x] == if key(x) in ks then multiset(xs)[x] else 0
  {
    if ks != [] {
      assert Distinct(ks[1..]);
      CollectCounts(xs, key, ks[1..]);
      assert ks[0] !in ks[1..];
      assert forall k :: k in ks <==> k == ks[0] || k in ks[1..];
    }
  }

  /** Grouping by every key that occurs loses and duplicates nothing. */
  lemma CollectPartition<T(!new)>(xs: seq<T>, key: T -> string, ks: seq<string>)
    requires Distinct(ks)
    requires forall i :: 0 <= i < |xs| ==> key(xs[i]) in ks
    ensures multiset(Collect(xs, key, ks)) == multiset(xs)
  {
    CollectCounts(xs, key, ks);
    forall x
      ensures multiset(Collect(xs, key, ks))[x] == multiset(xs)[x]
    {
      if x in multiset(xs) {
        var i :| 0 <= i < |xs| && xs[i] == x;
      }
    }
  }
}
