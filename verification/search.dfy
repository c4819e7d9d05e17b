/** The two list primitives the engine leans on: `min(xs)` and
    `xs.index(x)` (the first position holding `x`). */
module Search {

  /** `min(ds)` on a non-empty list of reals. */
  function MinOf(ds: seq<real>): (m: real)
    requires |ds| > 0
    ensures m in ds
    ensures forall i :: 0 <= i < |ds| ==> m <= ds[i]
  {
    if |ds| == 1 then ds[0]
    else
      var m := MinOf(ds[..|ds| - 1]);
      assert forall i :: 0 <= i < |ds| - 1 ==> ds[..|ds| - 1][i] == ds[i];
      if ds[|ds| - 1] < m then ds[|ds| - 1] else m
  }

  /** `xs.index(x)`: the first position holding `x`.  Python raises
      `ValueError` when `x` is absent, so callers must show it is present. */
  function FirstIndex<T(==)>(xs: seq<T>, x: T): (k: nat)
    requires x in xs
    ensures k < |xs| && xs[k] == x
    ensures forall j :: 0 <= j < k ==> xs[j] != x
  {
    if xs[0] == x then 0 else 1 + FirstIndex(xs[1..], x)
  }
}
