/** The lane-interleaving combinations `subadd` and `addsub`, built on a
    lane-wise sum, a lane-wise difference, and a repeating-pattern `blend`. */
module Lanes {

  function LaneAdd(a: seq<real>, b: seq<real>): (r: seq<real>)
    requires |a| == |b|
    ensures |r| == |a|
  {
    seq(|a|, i requires 0 <= i < |a| => a[i] + b[i])
  }

  function LaneSub(a: seq<real>, b: seq<real>): (r: seq<real>)
    requires |a| == |b|
    ensures |r| == |a|
  {
    seq(|a|, i requires 0 <= i < |a| => a[i] - b[i])
  }

  function LaneNeg(a: seq<real>): (r: seq<real>)
    ensures |r| == |a|
  {
    seq(|a|, i requires 0 <= i < |a| => -a[i])
  }

  /** `blend<m0, m1, ...>(x, y)`: lane `i` comes from `y` where the mask
      pattern, repeated over all lanes, holds a 1 and from `x` where it
      holds a 0. */
  function Blend(pattern: seq<bool>, x: seq<real>, y: seq<real>): (r: seq<real>)
    requires |pattern| >= 1 && |x| == |y|
    ensures |r| == |x|
  {
    seq(|x|, i requires 0 <= i < |x| => if pattern[i % |pattern|] then y[i] else x[i])
  }

  /** `subadd(a, b)`: `blend<1, 0>(a + b, a - b)`, so even lanes hold the
      difference and odd lanes the sum. Only defined for two or more lanes. */
  function SubAdd(a: seq<real>, b: seq<real>): (r: seq<real>)
    requires |a| == |b| && |a| >= 2
    ensures |r| == |a|
    ensures forall i :: 0 <= i < |a| ==> r[i] == if i % 2 == 0 then a[i] - b[i] else a[i] + b[i]
  {
    Blend([true, false], LaneAdd(a, b), LaneSub(a, b))
  }

  /** `addsub(a, b)`: `blend<0, 1>(a + b, a - b)`, so even lanes hold the
      sum and odd lanes the difference. Only defined for two or more lanes. */
  function AddSub(a: seq<real>, b: seq<real>): (r: seq<real>)
    requires |a| == |b| && |a| >= 2
    ensures |r| == |a|
    ensures forall i :: 0 <= i < |a| ==> r[i] == if i % 2 == 0 then a[i] + b[i] else a[i] - b[i]
  {
    Blend([false, true], LaneAdd(a, b), LaneSub(a, b))
  }

  /** The two make the opposite choice on every lane: their lanes sum to
      `2a`, they agree on a lane exactly where `b` is zero there, and
      `subadd(a, b)` is `addsub(a, -b)`. */
  lemma SubAddAddSubOpposite(a: seq<real>, b: seq<real>)
    requires |a| == |b| && |a| >= 2
    ensures forall i :: 0 <= i < |a| ==> SubAdd(a, b)[i] + AddSub(a, b)[i] == 2.0 * a[i]
    ensures forall i :: 0 <= i < |a| ==> (SubAdd(a, b)[i] == AddSub(a, b)[i] <==> b[i] == 0.0)
    ensures SubAdd(a, b) == AddSub(a, LaneNeg(b))
  {
    assert SubAdd(a, b) == AddSub(a, LaneNeg(b));
  }
}
