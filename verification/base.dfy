/** Failure-carrying result types shared by both pipelines. */
module Base {

  /** A value that may be absent. */
  datatype Option<+T> = None | Some(value: T)

  /** Either a computed value or the error the source raises or reports. */
  datatype Result<+R, +E> = Success(value: R) | Failure(error: E)

  /** The present values among `xs`, in order. */
  function Somes<T(==)>(xs: seq<Option<T>>): (r: seq<T>)
    ensures |r| <= |xs|
    ensures r == [] <==> forall i :: 0 <= i < |xs| ==> xs[i].None?
    ensures forall i :: 0 <= i < |xs| && xs[i].Some? ==> xs[i].value in r
    ensures forall e :: e in r ==> exists i :: 0 <= i < |xs| && xs[i] == Some(e)
  {
    if xs == [] then []
    else
      var init := xs[..|xs| - 1];
      assert forall i :: 0 <= i < |init| ==> init[i] == xs[i];
      Somes(init) + OptionToSeq(xs[|xs| - 1])
  }

  /** Zero or one element. */
  function OptionToSeq<T>(o: Option<T>): (r: seq<T>)
    ensures o.None? <==> r == []
    ensures o.Some? ==> r == [o.value]
  {
    match o
    case None => []
    case Some(v) => [v]
  }

  /** Collecting one more option appends its value, if any. */
  lemma SomesSnoc<T>(xs: seq<Option<T>>, x: Option<T>)
    ensures Somes(xs + [x]) == Somes(xs) + OptionToSeq(x)
  {
    assert (xs + [x])[..|xs|] == xs;
  }
}
