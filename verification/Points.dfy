/** Vectors of exact reals. */
module Points {

  type Point = seq<real>

  ghost function Scaled(v: Point, f: real): (r: Point)
    ensures |r| == |v| && forall i :: 0 <= i < |v| ==> r[i] == v[i] * f
  {
    seq(|v|, i requires 0 <= i < |v| => v[i] * f)
  }

  function Square(x: real): (y: real)
    ensures y >= 0.0
  {
    x * x
  }

  /** Squared distance over the first `d` coordinates. */
  ghost function Distance(a: Point, b: Point, d: nat): (s: real)
    requires d <= |a| && d <= |b|
  {
    if d == 0 then 0.0 else Distance(a, b, d - 1) + Square(a[d - 1] - b[d - 1])
  }

  ghost function RealSum(s: seq<real>): real {
    if s == [] then 0.0 else RealSum(s[..|s| - 1]) + s[|s| - 1]
  }

  lemma {:induction false} RealSumZeros(s: seq<real>)
    requires forall i :: 0 <= i < |s| ==> s[i] == 0.0
    ensures RealSum(s) == 0.0
  {
    if s != [] { RealSumZeros(s[..|s| - 1]); }
  }

  /** Every term counts once. */
  lemma {:induction false} RealSumUpdate(s: seq<real>, i: nat, x: real)
    requires i < |s|
    ensures RealSum(s[i := x]) == RealSum(s) - s[i] + x
  {
    var last := |s| - 1;
    if i == last {
      assert s[i := x][..last] == s[..last];
    } else {
      assert s[i := x][..last] == s[..last][i := x];
      RealSumUpdate(s[..last], i, x);
    }
  }

  /** The distance is the sum of the squared differences. */
  lemma {:induction false} DistanceIsSum(a: Point, b: Point, terms: seq<real>)
    requires |terms| <= |a| && |terms| <= |b| && forall i :: 0 <= i < |terms| ==> terms[i] == (a[i] - b[i]) * (a[i] - b[i])
    ensures Distance(a, b, |terms|) == RealSum(terms)
  {
    if terms != [] { DistanceIsSum(a, b, terms[..|terms| - 1]); }
  }

  /** Only the coordinates counted matter. */
  lemma {:induction false} DistancePrefix(a: Point, b: Point, k: nat, d: nat)
    requires d <= k <= |a| && k <= |b|
    ensures Distance(a[..k], b[..k], d) == Distance(a, b, d)
  {
    if d > 0 { DistancePrefix(a, b, k, d - 1); }
  }
}
