/** Boolean-mask selection, as NumPy's `xs[mask]`: the elements whose mask
    entry is true, in their original order. */
module Selection {

  /** The positions a mask keeps, in increasing order. */
  function Kept(mask: seq<bool>): (r: seq<nat>)
    ensures forall k :: 0 <= k < |r| ==> r[k] < |mask| && mask[r[k]]
    ensures forall k, l :: 0 <= k < l < |r| ==> r[k] < r[l]
    decreases |mask|
  {
    if |mask| == 0 then []
    else
      var last := |mask| - 1;
      Kept(mask[..last]) + (if mask[last] then [last] else [])
  }

  /** Every position the mask sets is kept. */
  lemma {:induction false} KeptAll(mask: seq<bool>, i: nat)
    requires i < |mask| && mask[i]
    ensures i in Kept(mask)
    decreases |mask|
  {
    if i < |mask| - 1 {
      KeptAll(mask[..|mask| - 1], i);
    }
  }

  /** `xs[mask]`: the elements of `xs` at the kept positions. */
  function Select<T>(xs: seq<T>, mask: seq<bool>): (r: seq<T>)
    requires |xs| == |mask|
    ensures |r| == |Kept(mask)|
    ensures forall k :: 0 <= k < |r| ==> r[k] == xs[Kept(mask)[k]]
    decreases |xs|
  {
    if |xs| == 0 then []
    else
      var last := |xs| - 1;
      Select(xs[..last], mask[..last]) + (if mask[last] then [xs[last]] else [])
  }
}
