/** The largest of a list of counts, as a running maximum finds it. */
module Maxima {

  function Max(a: nat, b: nat): nat {
    if a < b then b else a
  }

  /** Zero when there is nothing to compare. */
  function Maximum(xs: seq<nat>): (m: nat)
    ensures forall i :: 0 <= i < |xs| ==> xs[i] <= m
    ensures if xs == [] then m == 0 else m in xs
  {
    if xs == [] then 0 else Max(Maximum(xs[..|xs| - 1]), xs[|xs| - 1])
  }

  lemma MaximumSnoc(xs: seq<nat>, x: nat)
    ensures Maximum(xs + [x]) == Max(Maximum(xs), x)
  {
    assert (xs + [x])[..|xs|] == xs;
  }

  lemma MaximumOfParts(xs: seq<nat>, ys: seq<nat>)
    ensures Maximum(xs + ys) == Max(Maximum(xs), Maximum(ys))
  {
    hide Maximum;
    var zs, m := xs + ys, Maximum(xs + ys);
    assert forall i :: 0 <= i < |xs| ==> zs[i] == xs[i];
    assert forall i :: 0 <= i < |ys| ==> zs[|xs| + i] == ys[i];
  }
}
