/** fda/src/metric.hpp over exact reals: the input transforms that turn inner-product and
    cosine search into search by Euclidean distance. The square root is a parameter. */
module InnerProduct {
  import opened Points

  ghost function Norm2(v: Point): (s: real) {
    if v == [] then 0.0 else Norm2(v[..|v| - 1]) + v[|v| - 1] * v[|v| - 1]
  }

  ghost function Dot(a: Point, b: Point): real
    requires |a| == |b|
  {
    if a == [] then 0.0 else Dot(a[..|a| - 1], b[..|b| - 1]) + a[|a| - 1] * b[|b| - 1]
  }

  ghost function Dist2(a: Point, b: Point): real
    requires |a| == |b|
  {
    Distance(a, b, |a|)
  }

  ghost predicate IsSqrt(sqrt: real -> real) {
    forall x: real :: x >= 0.0 ==> sqrt(x) >= 0.0 && sqrt(x) * sqrt(x) == x
  }

  function Positive(x: real): (y: real)
    ensures y >= 0.0 && y >= x
  {
    if x < 0.0 then 0.0 else x
  }

  /** A database vector with its extra coordinate. */
  ghost predicate AugmentedRow(x: Point, m: real, out: Point) {
    && |out| == |x| + 1 && out[..|x|] == x
    && out[|x|] >= 0.0 && out[|x|] * out[|x|] == Positive(m * m - Norm2(x))
  }

  ghost function AugmentedQuery(q: Point): Point {
    q + [0.0]
  }

  // --- the loops ---

  method SquaredNorm(v: Point) returns (s: real)
    ensures s == Norm2(v)
  {
    s := 0.0;
    for i := 0 to |v|
      invariant s == Norm2(v[..i])
    {
      assert v[..i + 1][..i] == v[..i];
      s := s + v[i] * v[i];
    }
    assert v[..|v|] == v;
  }

  method AugmentDB(x: Point, maxNorm: real, sqrt: real -> real, out: array<real>)
    requires IsSqrt(sqrt) && out.Length > |x|
    modifies out
    ensures AugmentedRow(x, maxNorm, out[..|x| + 1]) && out[|x| + 1..] == old(out[|x| + 1..])
  {
    var s := 0.0;
    for i := 0 to |x|
      invariant s == Norm2(x[..i]) && out[..i] == x[..i] && out[|x|..] == old(out[|x|..])
    {
      assert x[..i + 1][..i] == x[..i];
      out[i] := x[i];
      s := s + x[i] * x[i];
    }
    assert x[..|x|] == x;
    var extra := maxNorm * maxNorm - s;
    if extra < 0.0 { extra := 0.0; }
    out[|x|] := sqrt(extra);
    assert out[..|x| + 1][..|x|] == out[..|x|];
  }

  method AugmentQuery(q: Point, out: array<real>)
    requires out.Length > |q|
    modifies out
    ensures out[..|q| + 1] == AugmentedQuery(q) && out[|q| + 1..] == old(out[|q| + 1..])
  {
    for i := 0 to |q|
      invariant out[..i] == q[..i] && out[|q|..] == old(out[|q|..])
    {
      out[i] := q[i];
    }
    out[|q|] := 0.0;
  }

  // --- what the reduction promises ---

  /** The inner product is the sum of the products, the squared norm that of the squares. */
  lemma {:induction false} DotIsSum(a: Point, b: Point, terms: seq<real>)
    requires |a| == |b| == |terms| && forall i :: 0 <= i < |a| ==> terms[i] == a[i] * b[i]
    ensures Dot(a, b) == RealSum(terms) && (a == b ==> Norm2(a) == RealSum(terms))
  {
    if a != [] {
      var k := |a| - 1;
      DotIsSum(a[..k], b[..k], terms[..k]);
    }
  }

  lemma {:induction false} DistanceExpands(a: Point, b: Point)
    requires |a| == |b|
    ensures Dist2(a, b) == Norm2(a) + Norm2(b) - 2.0 * Dot(a, b)
  {
    if a != [] {
      var k := |a| - 1;
      DistanceExpands(a[..k], b[..k]);
      DistancePrefix(a, b, k, k);
    }
  }

  /** What the extra coordinate adds to every squared distance: nothing but the square of
      the bound, or of the vector's own norm where that is larger. */
  ghost function Cap(x: Point, m: real): real {
    if Norm2(x) <= m * m then m * m else Norm2(x)
  }

  lemma AugmentedDistance(q: Point, row: Point)
    requires |row| == |q| + 1
    ensures Dist2(AugmentedQuery(q), row) == Dist2(q, row[..|q|]) + row[|q|] * row[|q|]
  {
    var last := row[|q|];
    assert AugmentedQuery(q)[..|q|] == q;
    assert (0.0 - last) * (0.0 - last) == last * last;
    DistancePrefix(AugmentedQuery(q), row, |q|, |q|);
  }

  lemma Reduction(q: Point, x: Point, m: real, row: Point)
    requires |q| == |x| && AugmentedRow(x, m, row)
    ensures Dist2(AugmentedQuery(q), row) == Norm2(q) + Cap(x, m) - 2.0 * Dot(q, x)
  {
    hide Dist2, Norm2, Dot, AugmentedQuery;
    AugmentedDistance(q, row);
    DistanceExpands(q, x);
  }

  /** The form the reduction is stated in: the bound `m` covers the norm of `x`. */
  lemma ReductionUnderBound(q: Point, x: Point, m: real, row: Point)
    requires |q| == |x| && AugmentedRow(x, m, row) && Norm2(x) <= m * m
    ensures Dist2(AugmentedQuery(q), row) == Norm2(q) + m * m - 2.0 * Dot(q, x)
  {
    Reduction(q, x, m, row);
  }

  /** A database: vectors of one dimension, and their augmented rows. */
  ghost predicate Augmented(xs: seq<Point>, d: nat, m: real, rows: seq<Point>) {
    |rows| == |xs| && forall i :: 0 <= i < |xs| ==> |xs[i]| == d && AugmentedRow(xs[i], m, rows[i])
  }

  /** For this query, nearer by augmented distance is exactly larger by inner product. */
  ghost predicate RanksAlike(xs: seq<Point>, d: nat, rows: seq<Point>, q: Point)
    requires |rows| == |xs| && |q| == d && forall i :: 0 <= i < |xs| ==> |xs[i]| == d && |rows[i]| == d + 1
  {
    forall i, j :: 0 <= i < |xs| && 0 <= j < |xs| ==>
      (Dist2(AugmentedQuery(q), rows[i]) <= Dist2(AugmentedQuery(q), rows[j]) <==> Dot(q, xs[i]) >= Dot(q, xs[j]))
  }

  ghost predicate AlwaysRanksAlike(xs: seq<Point>, d: nat, m: real, rows: seq<Point>)
    requires Augmented(xs, d, m, rows)
  {
    forall q: Point :: |q| == d ==> RanksAlike(xs, d, rows, q)
  }

  ghost predicate EqualCaps(xs: seq<Point>, m: real) {
    forall i, j :: 0 <= i < |xs| && 0 <= j < |xs| ==> Cap(xs[i], m) == Cap(xs[j], m)
  }

  lemma {:induction false} ZeroDot(q: Point, x: Point)
    requires |q| == |x| && forall i :: 0 <= i < |q| ==> q[i] == 0.0
    ensures Dot(q, x) == 0.0
  {
    if q != [] { ZeroDot(q[..|q| - 1], x[..|x| - 1]); }
  }

  lemma RowShape(x: Point, m: real, row: Point)
    requires AugmentedRow(x, m, row)
    ensures |row| == |x| + 1
  {
  }

  lemma EqualCapsRankAlike(xs: seq<Point>, d: nat, m: real, rows: seq<Point>, q: Point)
    requires Augmented(xs, d, m, rows) && EqualCaps(xs, m) && |q| == d
    ensures RanksAlike(xs, d, rows, q)
  {
    hide Cap, Norm2, Dot, Dist2;
    forall i | 0 <= i < |xs|
      ensures Dist2(AugmentedQuery(q), rows[i]) == Norm2(q) + Cap(xs[i], m) - 2.0 * Dot(q, xs[i])
    {
      Reduction(q, xs[i], m, rows[i]);
    }
  }

  /** The zero query sees nothing but the caps. */
  lemma RankingAlikeMeansEqualCaps(xs: seq<Point>, d: nat, m: real, rows: seq<Point>, q: Point)
    requires Augmented(xs, d, m, rows) && |q| == d && (forall i :: 0 <= i < d ==> q[i] == 0.0)
    requires RanksAlike(xs, d, rows, q)
    ensures EqualCaps(xs, m)
  {
    hide Cap, Norm2, Dot, Dist2;
    forall i | 0 <= i < |xs|
      ensures Dist2(AugmentedQuery(q), rows[i]) == Norm2(q) + Cap(xs[i], m) && Dot(q, xs[i]) == 0.0
    {
      Reduction(q, xs[i], m, rows[i]);
      ZeroDot(q, xs[i]);
    }
  }

  /** The ranking is right for every query exactly when the bound covers all vectors, or
      the vectors it does not cover leave all caps equal. */
  lemma RankingExactly(xs: seq<Point>, d: nat, m: real, rows: seq<Point>)
    requires Augmented(xs, d, m, rows)
    ensures AlwaysRanksAlike(xs, d, m, rows) <==> EqualCaps(xs, m)
  {
    hide AugmentedRow, Cap, Dot, Dist2;
    forall i | 0 <= i < |xs| ensures |rows[i]| == d + 1 { RowShape(xs[i], m, rows[i]); }
    if EqualCaps(xs, m) {
      forall q: Point | |q| == d ensures RanksAlike(xs, d, rows, q) {
        EqualCapsRankAlike(xs, d, m, rows, q);
      }
    }
    if AlwaysRanksAlike(xs, d, m, rows) {
      RankingAlikeMeansEqualCaps(xs, d, m, rows, seq(d, _ => 0.0));
    }
  }

  /** A bound on all norms is enough. */
  lemma RankingUnderBound(xs: seq<Point>, d: nat, m: real, rows: seq<Point>)
    requires Augmented(xs, d, m, rows) && forall i :: 0 <= i < |xs| ==> Norm2(xs[i]) <= m * m
    ensures AlwaysRanksAlike(xs, d, m, rows)
  {
    RankingExactly(xs, d, m, rows);
  }

  /** Where the guard against a too-small bound takes effect, ranking can go wrong. */
  lemma BoundTooSmall(rows: seq<Point>)
    requires Augmented([[1.0], [2.0]], 1, 1.0, rows)
    ensures !AlwaysRanksAlike([[1.0], [2.0]], 1, 1.0, rows)
  {
    var xs: seq<Point> := [[1.0], [2.0]];
    RankingExactly(xs, 1, 1.0, rows);
    assert Norm2([1.0]) == 1.0 && Norm2([2.0]) == 4.0;
    assert Cap(xs[0], 1.0) != Cap(xs[1], 1.0);
  }

  // --- cosine ---

  lemma RootIsPositive(s: real, sqrt: real -> real)
    requires IsSqrt(sqrt) && s > 0.0
    ensures sqrt(s) > 0.0
  {
    assert sqrt(s) * sqrt(s) == s;
  }

  /** The vector at unit length; a zero vector stays. */
  ghost function Unit(v: Point, sqrt: real -> real): Point
    requires IsSqrt(sqrt)
  {
    if Norm2(v) > 0.0 then
      RootIsPositive(Norm2(v), sqrt);
      Scaled(v, 1.0 / sqrt(Norm2(v)))
    else v
  }

  method ScaleInPlace(v: array<real>, f: real)
    modifies v
    ensures v[..] == Scaled(old(v[..]), f)
  {
    ghost var before := v[..];
    ghost var after := Scaled(before, f);
    for i := 0 to v.Length
      invariant forall j :: 0 <= j < i ==> v[j] == after[j]
      invariant forall j :: i <= j < v.Length ==> v[j] == before[j]
    {
      v[i] := v[i] * f;
    }
    assert v[..] == after;
  }

  method Normalize(v: array<real>, sqrt: real -> real)
    requires IsSqrt(sqrt)
    modifies v
    ensures v[..] == Unit(old(v[..]), sqrt)
  {
    var s := SquaredNorm(v[..]);
    if s > 0.0 {
      RootIsPositive(s, sqrt);
      var inv := 1.0 / sqrt(s);
      ScaleInPlace(v, inv);
    }
  }

  /** The direction stays: every coordinate is that of the unit vector times the norm. */
  lemma UnitKeepsDirection(v: Point, sqrt: real -> real)
    requires IsSqrt(sqrt)
    ensures |Unit(v, sqrt)| == |v|
    ensures Norm2(v) > 0.0 ==> forall i :: 0 <= i < |v| ==> Unit(v, sqrt)[i] * sqrt(Norm2(v)) == v[i]
    ensures Norm2(v) <= 0.0 ==> Unit(v, sqrt) == v
  {
    hide Norm2;
    if Norm2(v) > 0.0 {
      RootIsPositive(Norm2(v), sqrt);
      var root, w := sqrt(Norm2(v)), Unit(v, sqrt);
      forall i | 0 <= i < |v| ensures w[i] * root == v[i] {
        assert w[i] == v[i] * (1.0 / root);
        assert 1.0 / root * root == 1.0;
        assert v[i] * (1.0 / root) * root == v[i] * (1.0 / root * root);
      }
    }
  }

  lemma Regroup(a: real, b: real, f: real, g: real)
    ensures (a * f) * (b * g) == (f * g) * (a * b)
  {
  }

  lemma ScaledPrefix(v: Point, f: real, k: nat)
    requires k <= |v|
    ensures Scaled(v, f)[..k] == Scaled(v[..k], f)
  {
    forall i | 0 <= i < k ensures Scaled(v, f)[i] == Scaled(v[..k], f)[i] {
      assert v[..k][i] == v[i];
    }
  }

  lemma Spread(c: real, x: real, y: real)
    ensures c * (x + y) == c * x + c * y
  {
  }

  lemma {:induction false} DotScales(a: Point, b: Point, f: real, g: real)
    requires |a| == |b|
    ensures Dot(Scaled(a, f), Scaled(b, g)) == f * g * Dot(a, b)
  {
    if a != [] {
      var k := |a| - 1;
      ScaledPrefix(a, f, k);
      ScaledPrefix(b, g, k);
      DotScales(a[..k], b[..k], f, g);
      Regroup(a[k], b[k], f, g);
      Spread(f * g, Dot(a[..k], b[..k]), a[k] * b[k]);
    }
  }

  lemma {:induction false} DotSelf(a: Point)
    ensures Dot(a, a) == Norm2(a)
  {
    if a != [] { DotSelf(a[..|a| - 1]); }
  }

  lemma InverseSquare(s: real, r: real)
    requires s > 0.0 && r > 0.0 && r * r == s
    ensures (1.0 / r) * (1.0 / r) * s == 1.0
  {
    var f := 1.0 / r;
    assert f * r == 1.0;
    assert (f * f) * (r * r) == (f * r) * (f * r) by { Regroup(f, f, r, r); }
  }

  /** A normalized vector has length one. */
  lemma UnitHasNormOne(v: Point, sqrt: real -> real)
    requires IsSqrt(sqrt) && Norm2(v) > 0.0
    ensures |Unit(v, sqrt)| == |v| && Norm2(Unit(v, sqrt)) == 1.0
  {
    var s := Norm2(v);
    RootIsPositive(s, sqrt);
    var f := 1.0 / sqrt(s);
    DotScales(v, v, f, f);
    DotSelf(v);
    DotSelf(Scaled(v, f));
    InverseSquare(s, sqrt(s));
  }

  /** Between normalized vectors, squared distance is two minus twice the cosine. */
  lemma CosineReduction(a: Point, b: Point, sqrt: real -> real)
    requires IsSqrt(sqrt) && |a| == |b| && Norm2(a) > 0.0 && Norm2(b) > 0.0
    ensures sqrt(Norm2(a)) > 0.0 && sqrt(Norm2(b)) > 0.0 && |Unit(a, sqrt)| == |Unit(b, sqrt)|
    ensures Dist2(Unit(a, sqrt), Unit(b, sqrt)) ==
      2.0 - 2.0 * ((1.0 / sqrt(Norm2(a))) * (1.0 / sqrt(Norm2(b))) * Dot(a, b))
  {
    hide Norm2, Dot, Dist2, Scaled;
    RootIsPositive(Norm2(a), sqrt);
    RootIsPositive(Norm2(b), sqrt);
    UnitHasNormOne(a, sqrt);
    UnitHasNormOne(b, sqrt);
    DistanceExpands(Unit(a, sqrt), Unit(b, sqrt));
    DotScales(a, b, 1.0 / sqrt(Norm2(a)), 1.0 / sqrt(Norm2(b)));
  }

  // --- bench_harness/aug_prefix.py ---

  /** `m2` is the largest squared norm among the first `n` rows, or 0. */
  ghost predicate LargestNorm(xs: seq<Point>, n: nat, m2: real) {
    && n <= |xs| && m2 >= 0.0 && (forall i :: 0 <= i < n ==> Norm2(xs[i]) <= m2)
    && (m2 == 0.0 || exists i :: 0 <= i < n && Norm2(xs[i]) == m2)
  }

  /** The chunked scan: whatever the chunk size, the largest squared norm of the prefix. */
  method ScanNorms(xs: seq<Point>, prefix: int, chunk: nat) returns (m2: real, scanned: nat)
    requires chunk > 0
    ensures scanned == (if prefix < 0 then 0 else if prefix < |xs| then prefix else |xs|)
    ensures LargestNorm(xs, scanned, m2)
  {
    var limit := if prefix < |xs| then prefix else |xs|;
    m2 := 0.0;
    var rd := 0;
    while rd < limit
      invariant 0 <= rd <= |xs| && (limit >= 0 ==> rd <= limit) && (limit < 0 ==> rd == 0) && LargestNorm(xs, rd, m2)
    {
      var k := if chunk < limit - rd then chunk else limit - rd;
      var i := 0;
      while i < k
        invariant 0 <= i <= k && LargestNorm(xs, rd + i, m2)
      {
        var s := SquaredNorm(xs[rd + i]);
        if s > m2 { m2 := s; }
        i := i + 1;
      }
      rd := rd + k;
    }
    scanned := rd;
  }

  lemma AppendedRow(x: Point, m: real, sqrt: real -> real)
    requires IsSqrt(sqrt)
    ensures AugmentedRow(x, m, x + [sqrt(Positive(m * m - Norm2(x)))])
  {
  }

  /** The chunked augmentation of the first rows; numpy's `maximum` is the same guard. */
  method AugmentPrefix(xs: seq<Point>, m: real, seed: int, chunk: nat, sqrt: real -> real) returns (rows: seq<Point>)
    requires chunk > 0 && IsSqrt(sqrt)
    ensures |rows| == if seed < 0 then 0 else if seed < |xs| then seed else |xs|
    ensures forall i :: 0 <= i < |rows| ==> AugmentedRow(xs[i], m, rows[i])
  {
    hide AugmentedRow, IsSqrt, Norm2;
    var limit := if seed < |xs| then seed else |xs|;
    rows := [];
    var rd := 0;
    while rd < limit
      invariant rd == |rows| && (limit >= 0 ==> rd <= limit) && (limit < 0 ==> rd == 0)
      invariant forall i :: 0 <= i < |rows| ==> AugmentedRow(xs[i], m, rows[i])
    {
      var k := if chunk < limit - rd then chunk else limit - rd;
      var i := 0;
      while i < k
        invariant 0 <= i <= k && |rows| == rd + i
        invariant forall j :: 0 <= j < |rows| ==> AugmentedRow(xs[j], m, rows[j])
      {
        var s := SquaredNorm(xs[rd + i]);
        var row := xs[rd + i] + [sqrt(Positive(m * m - s))];
        AppendedRow(xs[rd + i], m, sqrt);
        rows := rows + [row];
        i := i + 1;
      }
      rd := rd + k;
    }
  }

  /** With the bound from the scan, every row that was scanned ranks alike. */
  lemma ScannedRowsRankAlike(xs: seq<Point>, d: nat, scanned: nat, m2: real, sqrt: real -> real, rows: seq<Point>)
    requires IsSqrt(sqrt) && LargestNorm(xs, scanned, m2) && |rows| <= scanned
    requires Augmented(xs[..|rows|], d, sqrt(m2), rows)
    ensures AlwaysRanksAlike(xs[..|rows|], d, sqrt(m2), rows)
  {
    forall i | 0 <= i < |rows| ensures Norm2(xs[..|rows|][i]) <= sqrt(m2) * sqrt(m2) {
      assert xs[..|rows|][i] == xs[i];
    }
    RankingUnderBound(xs[..|rows|], d, sqrt(m2), rows);
  }
}
