/** Go loops that walk a collection and keep what a test accepts, converted. */
module Filtering {
  import opened Outcomes

  /** The results `f` gives, in order, leaving out the elements it rejects
      (`None`). */
  function FilterMap<A, B>(xs: seq<A>, f: A -> Option<B>): (r: seq<B>)
    ensures |r| <= |xs|
    ensures forall i :: 0 <= i < |r| ==> exists j :: 0 <= j < |xs| && f(xs[j]) == Some(r[i])
    ensures forall j :: 0 <= j < |xs| && f(xs[j]).Some? ==> f(xs[j]).value in r
    decreases |xs|
  {
    if |xs| == 0 then []
    else
      var init := xs[..|xs| - 1];
      var r := FilterMap(init, f);
      assert forall j :: 0 <= j < |init| ==> init[j] == xs[j];
      match f(xs[|xs| - 1])
      case None => r
      case Some(y) => r + [y]
  }

  /** One more element: appended when accepted, otherwise nothing changes. */
  lemma FilterMapSnoc<A, B>(xs: seq<A>, x: A, f: A -> Option<B>)
    ensures FilterMap(xs + [x], f) == FilterMap(xs, f) + (if f(x).Some? then [f(x).value] else [])
  {
    assert (xs + [x])[..|xs|] == xs;
  }

  /** A rejected element contributes nothing, wherever it is inserted. */
  lemma {:induction false} FilterMapSkipsRejected<A, B>(xs: seq<A>, i: nat, x: A, f: A -> Option<B>)
    requires i <= |xs| && f(x).None?
    ensures FilterMap(xs[..i] + [x] + xs[i..], f) == FilterMap(xs, f)
    decreases |xs|
  {
    var zs := xs[..i] + [x] + xs[i..];
    if i == |xs| {
      assert zs == xs + [x];
      FilterMapSnoc(xs, x, f);
    } else {
      var init := xs[..|xs| - 1];
      assert zs[..|zs| - 1] == init[..i] + [x] + init[i..];
      assert zs[|zs| - 1] == xs[|xs| - 1];
      FilterMapSkipsRejected(init, i, x, f);
    }
  }
}
