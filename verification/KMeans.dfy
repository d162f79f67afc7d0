/** What Lloyd's iteration promises, over exact reals: the cost of a clustering, and why
    neither half of a round can raise it. */
module KMeans {
  import opened Points
  import opened Products

  /** All vectors of a run have the same number `d` of coordinates. */
  ghost predicate Shaped(ps: seq<Point>, d: nat) {
    forall i :: 0 <= i < |ps| ==> |ps[i]| == d
  }

  datatype Clustering = Clustering(assignment: seq<nat>, centroids: seq<Point>)

  ghost predicate Fits(ps: seq<Point>, d: nat, k: nat, s: Clustering) {
    && Shaped(ps, d) && Shaped(s.centroids, d) && |s.centroids| == k
    && |s.assignment| == |ps| && forall i :: 0 <= i < |ps| ==> s.assignment[i] < k
  }

  /** The objective: squared distances of the first `n` points to their centroids. */
  ghost function Cost(ps: seq<Point>, d: nat, k: nat, s: Clustering, n: nat): real
    requires Fits(ps, d, k, s) && n <= |ps|
  {
    if n == 0 then 0.0
    else Cost(ps, d, k, s, n - 1) + Distance(ps[n - 1], s.centroids[s.assignment[n - 1]], d)
  }

  // --- the two halves of a round ---

  /** `a` picks, for point `x`, the first of the closest centroids. */
  ghost predicate FirstClosest(x: Point, cs: seq<Point>, d: nat, a: nat)
    requires |x| == d && Shaped(cs, d)
  {
    && a < |cs|
    && (forall c :: 0 <= c < |cs| ==> Distance(x, cs[a], d) <= Distance(x, cs[c], d))
    && (forall c :: 0 <= c < a ==> Distance(x, cs[a], d) < Distance(x, cs[c], d))
  }

  ghost predicate Assigned(ps: seq<Point>, d: nat, cs: seq<Point>, asg: seq<nat>) {
    && Shaped(ps, d) && Shaped(cs, d) && |asg| == |ps|
    && forall i :: 0 <= i < |ps| ==> FirstClosest(ps[i], cs, d, asg[i])
  }

  /** How many of the first `n` points are in cluster `c`. */
  ghost function Count(asg: seq<nat>, c: nat, n: nat): nat
    requires n <= |asg|
  {
    if n == 0 then 0 else Count(asg, c, n - 1) + if asg[n - 1] == c then 1 else 0
  }

  /** The sum of coordinate `j` over the first `n` points that are in cluster `c`. */
  ghost function SumAt(ps: seq<Point>, d: nat, asg: seq<nat>, c: nat, j: nat, n: nat): real
    requires Shaped(ps, d) && j < d && |asg| == |ps| && n <= |ps|
  {
    if n == 0 then 0.0 else SumAt(ps, d, asg, c, j, n - 1) + if asg[n - 1] == c then ps[n - 1][j] else 0.0
  }

  /** `m` is the mean of cluster `c`; every point is a mean of an empty cluster. */
  ghost predicate IsMean(ps: seq<Point>, d: nat, asg: seq<nat>, c: nat, m: Point)
    requires Shaped(ps, d) && |asg| == |ps|
  {
    |m| == d && forall j :: 0 <= j < d ==> Count(asg, c, |ps|) as real * m[j] == SumAt(ps, d, asg, c, j, |ps|)
  }

  /** What becomes of the centroid of an empty cluster: the cuVS tool puts its seed
      point back, the fda2 tool leaves it where it was. */
  datatype EmptyCluster = Reseed | Keep

  /** The row a cluster is seeded from. */
  function SeedRow(n: nat, k: nat, c: nat): (row: nat)
    requires n > 0 && c < k
    ensures row < n
  {
    var row := c * n / k;
    if n - 1 < row then n - 1 else row
  }

  lemma Quotient(a: nat, k: nat)
    requires k > 0
    ensures a / k * k <= a < (a / k + 1) * k
  {
    assert a == k * (a / k) + a % k;
  }

  lemma Less(a: nat, b: nat, k: nat)
    requires a * k < b * k
    ensures a < b
  {
    if b <= a { TimesMono(b, a, k); }
  }

  /** The seed row of cluster `c` is the row at the fraction `c / k` of all rows. */
  lemma SeedRowExactly(n: nat, k: nat, c: nat)
    requires n > 0 && c < k
    ensures SeedRow(n, k, c) * k <= c * n < (SeedRow(n, k, c) + 1) * k
  {
    Quotient(c * n, k);
    assert c * n < n * k by { TimesLess(c, k, n); }
    Less(c * n / k, n, k);
  }

  /** Clusters are seeded from row 0 on, and from different rows if there are no more
      clusters than rows. */
  lemma SeedsIncrease(n: nat, k: nat, b: nat, c: nat)
    requires n > 0 && b < c < k
    ensures SeedRow(n, k, 0) == 0 && SeedRow(n, k, b) <= SeedRow(n, k, c)
    ensures k <= n ==> SeedRow(n, k, b) < SeedRow(n, k, c)
  {
    SeedRowExactly(n, k, 0);
    SeedRowExactly(n, k, b);
    SeedRowExactly(n, k, c);
    Less(SeedRow(n, k, 0), 1, k);
    TimesMono(b + 1, c, n);
    assert (b + 1) * n == b * n + n;
    var x, y := SeedRow(n, k, b), SeedRow(n, k, c);
    assert (x + 1) * k == x * k + k;
    Less(x, y + 1, k);
    if k <= n { Less(x + 1, y + 1, k); }
  }

  ghost function Replacement(ps: seq<Point>, before: seq<Point>, c: nat, policy: EmptyCluster): Point
    requires |ps| > 0 && c < |before|
  {
    match policy
    case Reseed => ps[SeedRow(|ps|, |before|, c)]
    case Keep => before[c]
  }

  /** The centroids after the second half of a round. */
  ghost predicate Recentred(ps: seq<Point>, d: nat, asg: seq<nat>, before: seq<Point>, after: seq<Point>,
      policy: EmptyCluster)
    requires |ps| > 0 && Shaped(ps, d) && |asg| == |ps|
  {
    && |after| == |before|
    && (forall c :: 0 <= c < |after| && Count(asg, c, |ps|) > 0 ==> IsMean(ps, d, asg, c, after[c]))
    && (forall c :: 0 <= c < |after| && Count(asg, c, |ps|) == 0 ==> after[c] == Replacement(ps, before, c, policy))
  }

  ghost predicate Round(ps: seq<Point>, d: nat, k: nat, policy: EmptyCluster, s: Clustering, t: Clustering)
    requires |ps| > 0
  {
    && Fits(ps, d, k, s) && Fits(ps, d, k, t)
    && Assigned(ps, d, s.centroids, t.assignment)
    && Recentred(ps, d, t.assignment, s.centroids, t.centroids, policy)
  }

  /** The state before the first round. */
  ghost predicate Seeded(ps: seq<Point>, d: nat, k: nat, s: Clustering)
    requires |ps| > 0
  {
    && Fits(ps, d, k, s)
    && (forall i :: 0 <= i < |ps| ==> s.assignment[i] == 0)
    && (forall c :: 0 <= c < k ==> s.centroids[c] == ps[SeedRow(|ps|, k, c)])
  }

  /** All states of a run, the seeded one first. */
  ghost predicate Run(ps: seq<Point>, d: nat, k: nat, policy: EmptyCluster, trace: seq<Clustering>) {
    && |ps| > 0 && |trace| > 0 && Seeded(ps, d, k, trace[0])
    && (forall i :: 0 <= i < |trace| ==> Fits(ps, d, k, trace[i]))
    && (forall i :: 0 < i < |trace| ==> Round(ps, d, k, policy, trace[i - 1], trace[i]))
  }

  // --- the assignment half ---

  /** With the centroids fixed, no assignment is cheaper than the one picked. */
  lemma {:induction false} AssignmentIsBest(ps: seq<Point>, d: nat, k: nat, s: Clustering, asg: seq<nat>, n: nat)
    requires Fits(ps, d, k, s) && Assigned(ps, d, s.centroids, asg) && n <= |ps|
    ensures Fits(ps, d, k, s.(assignment := asg))
    ensures Cost(ps, d, k, s.(assignment := asg), n) <= Cost(ps, d, k, s, n)
  {
    if n > 0 {
      AssignmentIsBest(ps, d, k, s, asg, n - 1);
    }
  }

  // --- the mean half ---

  /** The cost of coordinate `j` within cluster `c` when its centroid has value `v` there. */
  ghost function CoordinateCost(ps: seq<Point>, d: nat, asg: seq<nat>, c: nat, j: nat, v: real, n: nat): real
    requires Shaped(ps, d) && j < d && |asg| == |ps| && n <= |ps|
  {
    if n == 0 then 0.0
    else CoordinateCost(ps, d, asg, c, j, v, n - 1) + if asg[n - 1] == c then Square(ps[n - 1][j] - v) else 0.0
  }

  /** The cost of cluster `c` around `y`, over the first `e` coordinates. */
  ghost function ClusterCost(ps: seq<Point>, d: nat, asg: seq<nat>, c: nat, y: Point, e: nat, n: nat): real
    requires Shaped(ps, d) && e <= d == |y| && |asg| == |ps| && n <= |ps|
  {
    if n == 0 then 0.0
    else ClusterCost(ps, d, asg, c, y, e, n - 1) + if asg[n - 1] == c then Distance(ps[n - 1], y, e) else 0.0
  }

  lemma Expand(x: real, v: real, m: real)
    ensures Square(x - v) == Square(x - m) + Square(m - v) + 2.0 * (m - v) * (x - m)
  {
  }

  lemma Distribute(a: real, b: real, c: real)
    ensures a * (b + c) == a * b + a * c
  {
  }

  lemma Collect(w: real, s: real, x: real, m: real, q: real, cnt: real)
    ensures cnt * q + 2.0 * w * (s - cnt * m) + q + 2.0 * w * (x - m) == (cnt + 1.0) * q + 2.0 * w * (s + x - (cnt + 1.0) * m)
  {
    assert (cnt + 1.0) * m == cnt * m + m;
    assert (cnt + 1.0) * q == cnt * q + q;
    Distribute(2.0 * w, s - cnt * m, x - m);
  }

  /** Moving the centre from `m` to `v` changes the cost of a coordinate by a square
      and by a multiple of how far `m` is from being the mean. */
  lemma {:induction false} ShiftCentre(ps: seq<Point>, d: nat, asg: seq<nat>, c: nat, j: nat, v: real, m: real, n: nat)
    requires Shaped(ps, d) && j < d && |asg| == |ps| && n <= |ps|
    ensures var cnt, s := Count(asg, c, n) as real, SumAt(ps, d, asg, c, j, n);
            CoordinateCost(ps, d, asg, c, j, v, n) ==
              CoordinateCost(ps, d, asg, c, j, m, n) + (cnt * Square(m - v) + 2.0 * (m - v) * (s - cnt * m))
  {
    hide Square;
    if n > 0 {
      ShiftCentre(ps, d, asg, c, j, v, m, n - 1);
      if asg[n - 1] == c {
        var x := ps[n - 1][j];
        Expand(x, v, m);
        Collect(m - v, SumAt(ps, d, asg, c, j, n - 1), x, m, Square(m - v), Count(asg, c, n - 1) as real);
      }
    }
  }

  lemma {:induction false} PeelCoordinate(ps: seq<Point>, d: nat, asg: seq<nat>, c: nat, y: Point, e: nat, n: nat)
    requires Shaped(ps, d) && e < d == |y| && |asg| == |ps| && n <= |ps|
    ensures ClusterCost(ps, d, asg, c, y, e + 1, n) == ClusterCost(ps, d, asg, c, y, e, n) + CoordinateCost(ps, d, asg, c, e, y[e], n)
  {
    if n > 0 { PeelCoordinate(ps, d, asg, c, y, e, n - 1); }
  }

  lemma {:induction false} NothingToPay(ps: seq<Point>, d: nat, asg: seq<nat>, c: nat, y: Point, n: nat)
    requires Shaped(ps, d) && |y| == d && |asg| == |ps| && n <= |ps|
    ensures ClusterCost(ps, d, asg, c, y, 0, n) == 0.0
  {
    if n > 0 { NothingToPay(ps, d, asg, c, y, n - 1); }
  }

  lemma Times(a: real, b: real)
    requires a >= 0.0 && b >= 0.0
    ensures a * b >= 0.0
  {
  }

  lemma NoSlack(a: real, b: real)
    requires b == 0.0
    ensures a * b == 0.0
  {
  }

  lemma MeanIsBestAt(ps: seq<Point>, d: nat, asg: seq<nat>, c: nat, j: nat, v: real, m: real)
    requires Shaped(ps, d) && j < d && |asg| == |ps|
    requires Count(asg, c, |ps|) as real * m == SumAt(ps, d, asg, c, j, |ps|)
    ensures CoordinateCost(ps, d, asg, c, j, m, |ps|) <= CoordinateCost(ps, d, asg, c, j, v, |ps|)
  {
    hide Square;
    var cnt, s := Count(asg, c, |ps|) as real, SumAt(ps, d, asg, c, j, |ps|);
    ShiftCentre(ps, d, asg, c, j, v, m, |ps|);
    Times(cnt, Square(m - v));
    NoSlack(2.0 * (m - v), s - cnt * m);
  }

  /** The mean is the best centre a cluster can have. */
  lemma {:induction false} MeanIsBest(ps: seq<Point>, d: nat, asg: seq<nat>, c: nat, m: Point, y: Point, e: nat)
    requires Shaped(ps, d) && e <= d == |y| && |asg| == |ps| && IsMean(ps, d, asg, c, m)
    ensures ClusterCost(ps, d, asg, c, m, e, |ps|) <= ClusterCost(ps, d, asg, c, y, e, |ps|)
  {
    hide Square;
    if e == 0 {
      NothingToPay(ps, d, asg, c, m, |ps|);
      NothingToPay(ps, d, asg, c, y, |ps|);
    } else {
      var j := e - 1;
      MeanIsBest(ps, d, asg, c, m, y, j);
      PeelCoordinate(ps, d, asg, c, m, j, |ps|);
      PeelCoordinate(ps, d, asg, c, y, j, |ps|);
      MeanIsBestAt(ps, d, asg, c, j, y[j], m[j]);
    }
  }

  /** The objective is the sum of the squared distances. */
  lemma {:induction false} CostIsSum(ps: seq<Point>, d: nat, k: nat, s: Clustering, n: nat)
    requires Fits(ps, d, k, s) && n <= |ps|
    ensures Cost(ps, d, k, s, n) ==
      RealSum(seq(n, i requires 0 <= i < n => Distance(ps[i], s.centroids[s.assignment[i]], d)))
  {
    if n > 0 {
      CostIsSum(ps, d, k, s, n - 1);
      var all := seq(n, i requires 0 <= i < n => Distance(ps[i], s.centroids[s.assignment[i]], d));
      assert all[..n - 1] == seq(n - 1, i requires 0 <= i < n - 1 => Distance(ps[i], s.centroids[s.assignment[i]], d));
    }
  }

  ghost function InCluster(asg: seq<nat>, c: nat, n: nat): set<nat>
    requires n <= |asg|
  {
    set i: nat | i < n && asg[i] == c
  }

  /** `Count` counts the points of the cluster. */
  lemma {:induction false} CountIsSize(asg: seq<nat>, c: nat, n: nat)
    requires n <= |asg|
    ensures Count(asg, c, n) == |InCluster(asg, c, n)|
  {
    if n == 0 {
      assert InCluster(asg, c, 0) == {};
    } else {
      CountIsSize(asg, c, n - 1);
      var i: nat := n - 1;
      assert InCluster(asg, c, n) == InCluster(asg, c, n - 1) + if asg[i] == c then {i} else {};
    }
  }

  /** Moving one centroid only changes the cost of its own cluster. */
  lemma {:induction false} MoveOne(ps: seq<Point>, d: nat, k: nat, s: Clustering, c: nat, y: Point, n: nat)
    requires Fits(ps, d, k, s) && c < k && |y| == d && n <= |ps|
    ensures Fits(ps, d, k, s.(centroids := s.centroids[c := y]))
    ensures Cost(ps, d, k, s.(centroids := s.centroids[c := y]), n) - ClusterCost(ps, d, s.assignment, c, y, d, n)
         == Cost(ps, d, k, s, n) - ClusterCost(ps, d, s.assignment, c, s.centroids[c], d, n)
  {
    if n > 0 { MoveOne(ps, d, k, s, c, y, n - 1); }
  }

  lemma MeanShape(ps: seq<Point>, d: nat, asg: seq<nat>, c: nat, m: Point)
    requires Shaped(ps, d) && |asg| == |ps| && IsMean(ps, d, asg, c, m)
    ensures |m| == d
  {
  }

  /** With the assignment fixed, no centroids are cheaper than means. */
  lemma {:induction false} MeansAreBest(ps: seq<Point>, d: nat, k: nat, s: Clustering, after: seq<Point>, c: nat)
    requires Fits(ps, d, k, s) && |after| == k && c <= k
    requires forall b :: 0 <= b < k ==> IsMean(ps, d, s.assignment, b, after[b])
    ensures var t := s.(centroids := after[..c] + s.centroids[c..]);
            Fits(ps, d, k, t) && Cost(ps, d, k, t, |ps|) <= Cost(ps, d, k, s, |ps|)
  {
    hide IsMean;
    if c == 0 {
      assert after[..0] + s.centroids[0..] == s.centroids;
    } else {
      var b := c - 1;
      MeansAreBest(ps, d, k, s, after, b);
      var t := s.(centroids := after[..b] + s.centroids[b..]);
      MeanShape(ps, d, s.assignment, b, after[b]);
      MoveOne(ps, d, k, t, b, after[b], |ps|);
      assert after[..c] + s.centroids[c..] == t.centroids[b := after[b]];
      MeanIsBest(ps, d, s.assignment, b, after[b], t.centroids[b], d);
    }
  }

  lemma {:induction false} EmptySum(ps: seq<Point>, d: nat, asg: seq<nat>, c: nat, j: nat, n: nat)
    requires Shaped(ps, d) && j < d && |asg| == |ps| && n <= |ps| && Count(asg, c, n) == 0
    ensures SumAt(ps, d, asg, c, j, n) == 0.0
  {
    if n > 0 { EmptySum(ps, d, asg, c, j, n - 1); }
  }

  /** An empty cluster pays nothing, so its centroid may be re-seeded or kept. */
  lemma AnyMeanWhenEmpty(ps: seq<Point>, d: nat, asg: seq<nat>, c: nat, m: Point)
    requires Shaped(ps, d) && |asg| == |ps| && |m| == d && Count(asg, c, |ps|) == 0
    ensures IsMean(ps, d, asg, c, m)
  {
    forall j | 0 <= j < d ensures SumAt(ps, d, asg, c, j, |ps|) == 0.0 {
      EmptySum(ps, d, asg, c, j, |ps|);
    }
  }

  // --- rounds and runs ---

  /** After a round, the centroids are the best possible for the assignment. */
  lemma RoundIsBest(ps: seq<Point>, d: nat, k: nat, policy: EmptyCluster, s: Clustering, t: Clustering,
      other: seq<Point>)
    requires |ps| > 0 && Round(ps, d, k, policy, s, t) && |other| == k && Shaped(other, d)
    ensures Cost(ps, d, k, t, |ps|) <= Cost(ps, d, k, t.(centroids := other), |ps|)
  {
    hide IsMean;
    forall c | 0 <= c < k ensures IsMean(ps, d, t.assignment, c, t.centroids[c]) {
      if Count(t.assignment, c, |ps|) == 0 { AnyMeanWhenEmpty(ps, d, t.assignment, c, t.centroids[c]); }
    }
    MeansAreBest(ps, d, k, t.(centroids := other), t.centroids, k);
    assert t.centroids[..k] + other[k..] == t.centroids;
  }

  /** Under `Reseed` the centroid of a cluster without points is the one it was seeded with,
      under `Keep` the one it had before the round. */
  lemma EmptyClusterFate(ps: seq<Point>, d: nat, k: nat, policy: EmptyCluster, trace: seq<Clustering>, i: nat, c: nat)
    requires Run(ps, d, k, policy, trace) && 0 < i < |trace| && c < k
    requires forall j :: 0 <= j < |ps| ==> trace[i].assignment[j] != c
    ensures trace[i].centroids[c] == trace[if policy == Reseed then 0 else i - 1].centroids[c]
  {
    hide IsMean;
    assert Round(ps, d, k, policy, trace[i - 1], trace[i]);
    CountIsSize(trace[i].assignment, c, |ps|);
    assert InCluster(trace[i].assignment, c, |ps|) == {};
  }

  /** A round never raises the cost. */
  lemma RoundDescends(ps: seq<Point>, d: nat, k: nat, policy: EmptyCluster, s: Clustering, t: Clustering)
    requires |ps| > 0 && Round(ps, d, k, policy, s, t)
    ensures Cost(ps, d, k, t, |ps|) <= Cost(ps, d, k, s, |ps|)
  {
    AssignmentIsBest(ps, d, k, s, t.assignment, |ps|);
    RoundIsBest(ps, d, k, policy, s, t, s.centroids);
    assert t.(centroids := s.centroids) == s.(assignment := t.assignment);
  }

  /** The cost never rises in a run, whatever is done with empty clusters. */
  lemma {:induction false} Descent(ps: seq<Point>, d: nat, k: nat, policy: EmptyCluster, trace: seq<Clustering>,
      i: nat, j: nat)
    requires Run(ps, d, k, policy, trace) && i <= j < |trace|
    ensures Cost(ps, d, k, trace[j], |ps|) <= Cost(ps, d, k, trace[i], |ps|)
    decreases j
  {
    hide Round;
    if i < j {
      Descent(ps, d, k, policy, trace, i, j - 1);
      RoundDescends(ps, d, k, policy, trace[j - 1], trace[j]);
    }
  }

  lemma SameQuotient(cnt: real, a: real, b: real, sum: real)
    requires cnt > 0.0 && cnt * a == sum && cnt * b == sum
    ensures a == b
  {
  }

  lemma MeanIsUnique(ps: seq<Point>, d: nat, asg: seq<nat>, c: nat, m: Point, m': Point)
    requires Shaped(ps, d) && |asg| == |ps| && Count(asg, c, |ps|) > 0
    requires IsMean(ps, d, asg, c, m) && IsMean(ps, d, asg, c, m')
    ensures m == m'
  {
    hide SumAt, Count;
    forall j | 0 <= j < d ensures m[j] == m'[j] {
      SameQuotient(Count(asg, c, |ps|) as real, m[j], m'[j], SumAt(ps, d, asg, c, j, |ps|));
    }
  }

  lemma OneFirstClosest(x: Point, cs: seq<Point>, d: nat, a: nat, b: nat)
    requires |x| == d && Shaped(cs, d) && FirstClosest(x, cs, d, a) && FirstClosest(x, cs, d, b)
    ensures a == b
  {
    assert Distance(x, cs[a], d) == Distance(x, cs[b], d);
  }

  /** A round has one outcome. */
  lemma RoundIsDeterministic(ps: seq<Point>, d: nat, k: nat, policy: EmptyCluster, s: Clustering, t: Clustering,
      t': Clustering)
    requires |ps| > 0 && Round(ps, d, k, policy, s, t) && Round(ps, d, k, policy, s, t')
    ensures t == t'
  {
    hide IsMean, Distance;
    forall i | 0 <= i < |ps| ensures t.assignment[i] == t'.assignment[i] {
      OneFirstClosest(ps[i], s.centroids, d, t.assignment[i], t'.assignment[i]);
    }
    assert t.assignment == t'.assignment;
    forall c | 0 <= c < k ensures t.centroids[c] == t'.centroids[c] {
      if Count(t.assignment, c, |ps|) > 0 {
        MeanIsUnique(ps, d, t.assignment, c, t.centroids[c], t'.centroids[c]);
      }
    }
  }

  /** The run is determined by the points, `k` and the policy. */
  lemma {:induction false} RunIsDeterministic(ps: seq<Point>, d: nat, k: nat, policy: EmptyCluster,
      a: seq<Clustering>, b: seq<Clustering>, i: nat)
    requires Run(ps, d, k, policy, a) && Run(ps, d, k, policy, b) && i < |a| && i < |b|
    ensures a[i] == b[i]
  {
    hide Round;
    if i > 0 {
      RunIsDeterministic(ps, d, k, policy, a, b, i - 1);
      RoundIsDeterministic(ps, d, k, policy, a[i - 1], a[i], b[i]);
    } else {
      assert a[0].assignment == b[0].assignment;
      assert a[0].centroids == b[0].centroids;
    }
  }
}
