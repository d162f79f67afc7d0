/** The k-means loops of the two cluster-quality tools, proved to run rounds of Lloyd's
    iteration. Rows of the flat buffers are points. */
module Lloyd {
  import opened KMeans
  import opened Points

  /** `l2`. */
  method SquaredDistance(a: Point, b: Point, d: nat) returns (s: real)
    requires |a| == d == |b|
    ensures s == Distance(a, b, d)
  {
    s := 0.0;
    for i := 0 to d
      invariant s == Distance(a, b, i)
    {
      var z := a[i] - b[i];
      s := s + z * z;
    }
  }

  method Closest(x: Point, centroids: array<Point>, d: nat) returns (best: nat)
    requires |x| == d && Shaped(centroids[..], d) && centroids.Length > 0
    ensures FirstClosest(x, centroids[..], d, best)
  {
    hide Distance;
    ghost var cs := centroids[..];
    best := 0;
    var bestDist := SquaredDistance(x, centroids[0], d);
    for c := 0 to centroids.Length
      invariant best < |cs| && bestDist == Distance(x, cs[best], d)
      invariant forall b :: 0 <= b < c ==> bestDist <= Distance(x, cs[b], d)
      invariant forall b :: 0 <= b < best ==> bestDist < Distance(x, cs[b], d)
    {
      var dist := SquaredDistance(x, centroids[c], d);
      if dist < bestDist {
        bestDist := dist;
        best := c;
      }
    }
  }

  /** The first half of a round; the source gives every point to some thread. */
  method Assign(ps: seq<Point>, d: nat, centroids: array<Point>, assignment: array<nat>)
    requires Shaped(ps, d) && Shaped(centroids[..], d) && centroids.Length > 0 && assignment.Length == |ps|
    modifies assignment
    ensures Assigned(ps, d, centroids[..], assignment[..])
  {
    hide FirstClosest;
    for i := 0 to |ps|
      invariant forall u :: 0 <= u < i ==> FirstClosest(ps[u], centroids[..], d, assignment[u])
    {
      var best := Closest(ps[i], centroids, d);
      assignment[i] := best;
    }
  }

  ghost function Plus(a: Point, x: Point): (r: Point)
    requires |a| == |x|
    ensures |r| == |a| && forall j :: 0 <= j < |r| ==> r[j] == a[j] + x[j]
  {
    seq(|a|, j requires 0 <= j < |a| => a[j] + x[j])
  }

  method AddTo(next: array<Point>, c: nat, x: Point, d: nat)
    requires c < next.Length && |x| == d == |next[c]|
    modifies next
    ensures next[..] == old(next[..])[c := Plus(old(next[c]), x)]
  {
    ghost var before := next[..];
    for j := 0 to d
      invariant |next[c]| == d && next[..] == before[c := next[c]]
      invariant forall t :: 0 <= t < d ==> next[c][t] == before[c][t] + if t < j then x[t] else 0.0
    {
      next[c] := next[c][j := next[c][j] + x[j]];
    }
    assert next[c] == Plus(before[c], x);
  }

  method ScaleInto(centroids: array<Point>, c: nat, src: Point, inv: real, d: nat)
    requires c < centroids.Length && |src| == d == |centroids[c]|
    modifies centroids
    ensures centroids[..] == old(centroids[..])[c := Scaled(src, inv)]
  {
    ghost var before := centroids[..];
    for j := 0 to d
      invariant |centroids[c]| == d && centroids[..] == before[c := centroids[c]]
      invariant forall t :: 0 <= t < j ==> centroids[c][t] == src[t] * inv
    {
      centroids[c] := centroids[c][j := src[j] * inv];
    }
    assert centroids[c] == Scaled(src, inv);
  }

  /** `next` and `counts` hold the sums and sizes over the first `n` points. */
  ghost predicate Summed(ps: seq<Point>, d: nat, asg: seq<nat>, next: seq<Point>, counts: seq<nat>, n: nat) {
    && Shaped(ps, d) && Shaped(next, d) && |asg| == |ps| && n <= |ps| && |counts| == |next|
    && (forall c :: 0 <= c < |next| ==> counts[c] == Count(asg, c, n))
    && (forall c, j :: 0 <= c < |next| && 0 <= j < d ==> next[c][j] == SumAt(ps, d, asg, c, j, n))
  }

  lemma SummedStart(ps: seq<Point>, d: nat, asg: seq<nat>, next: seq<Point>, counts: seq<nat>)
    requires Shaped(ps, d) && Shaped(next, d) && |asg| == |ps| && |counts| == |next|
    requires forall c :: 0 <= c < |counts| ==> counts[c] == 0
    requires forall c, j :: 0 <= c < |next| && 0 <= j < d ==> next[c][j] == 0.0
    ensures Summed(ps, d, asg, next, counts, 0)
  {
  }

  lemma SummedStep(ps: seq<Point>, d: nat, asg: seq<nat>, next: seq<Point>, counts: seq<nat>, n: nat)
    requires Summed(ps, d, asg, next, counts, n) && n < |ps| && asg[n] < |next|
    ensures var c := asg[n]; Summed(ps, d, asg, next[c := Plus(next[c], ps[n])], counts[c := counts[c] + 1], n + 1)
  {
  }

  /** What `Accumulate` needs to know of a state that satisfies `Summed`. */
  lemma SummedShape(ps: seq<Point>, d: nat, asg: seq<nat>, next: seq<Point>, counts: seq<nat>, n: nat, c: nat)
    requires Summed(ps, d, asg, next, counts, n) && c < |next|
    ensures |next[c]| == d
  {
  }

  method Accumulate(ps: seq<Point>, d: nat, assignment: array<nat>, next: array<Point>, counts: array<nat>)
    requires Shaped(ps, d) && assignment.Length == |ps| && counts.Length == next.Length && assignment != counts
    requires forall i :: 0 <= i < |ps| ==> assignment[i] < next.Length
    modifies next, counts
    ensures Summed(ps, d, assignment[..], next[..], counts[..], |ps|)
  {
    hide Summed;
    ghost var asg := assignment[..];
    forall c | 0 <= c < next.Length { next[c] := seq(d, _ => 0.0); }
    forall c | 0 <= c < counts.Length { counts[c] := 0; }
    SummedStart(ps, d, asg, next[..], counts[..]);
    for i := 0 to |ps|
      invariant assignment[..] == asg && Summed(ps, d, asg, next[..], counts[..], i)
    {
      ghost var sums, sizes := next[..], counts[..];
      var c := assignment[i];
      assert c == asg[i];
      SummedShape(ps, d, asg, sums, sizes, i, c);
      SummedStep(ps, d, asg, sums, sizes, i);
      counts[c] := counts[c] + 1;
      AddTo(next, c, ps[i], d);
      assert next[..] == sums[c := Plus(sums[c], ps[i])];
      assert counts[..] == sizes[c := sizes[c] + 1];
    }
  }

  lemma Divide(s: real, cnt: real)
    requires cnt > 0.0
    ensures cnt * (s * (1.0 / cnt)) == s
  {
  }

  lemma ScaledIsMean(ps: seq<Point>, d: nat, asg: seq<nat>, next: seq<Point>, counts: seq<nat>, c: nat)
    requires Summed(ps, d, asg, next, counts, |ps|) && c < |next| && counts[c] > 0
    ensures IsMean(ps, d, asg, c, Scaled(next[c], 1.0 / counts[c] as real))
    ensures Count(asg, c, |ps|) > 0
  {
    forall j | 0 <= j < d {
      Divide(next[c][j], counts[c] as real);
    }
  }

  /** The first `c` centroids have been recomputed. */
  ghost predicate Updating(ps: seq<Point>, d: nat, asg: seq<nat>, before: seq<Point>, now: seq<Point>,
      policy: EmptyCluster, c: nat)
    requires |ps| > 0 && Shaped(ps, d) && |asg| == |ps|
  {
    && c <= |now| == |before| && Shaped(now, d)
    && (forall b :: 0 <= b < c && Count(asg, b, |ps|) > 0 ==> IsMean(ps, d, asg, b, now[b]))
    && (forall b :: 0 <= b < c && Count(asg, b, |ps|) == 0 ==> now[b] == Replacement(ps, before, b, policy))
    && (forall b :: c <= b < |now| ==> now[b] == before[b])
  }

  lemma UpdateStep(ps: seq<Point>, d: nat, asg: seq<nat>, before: seq<Point>, now: seq<Point>, policy: EmptyCluster,
      c: nat, y: Point)
    requires |ps| > 0 && Shaped(ps, d) && |asg| == |ps| && Updating(ps, d, asg, before, now, policy, c) && c < |now|
    requires if Count(asg, c, |ps|) > 0 then IsMean(ps, d, asg, c, y) else y == Replacement(ps, before, c, policy)
    requires |y| == d
    ensures Updating(ps, d, asg, before, now[c := y], policy, c + 1)
  {
  }

  lemma UpdatingShape(ps: seq<Point>, d: nat, asg: seq<nat>, before: seq<Point>, now: seq<Point>,
      policy: EmptyCluster, c: nat)
    requires |ps| > 0 && Shaped(ps, d) && |asg| == |ps| && Updating(ps, d, asg, before, now, policy, c) && c < |now|
    ensures now[c] == before[c] && |now[c]| == d
  {
  }

  lemma SummedCounts(ps: seq<Point>, d: nat, asg: seq<nat>, next: seq<Point>, counts: seq<nat>)
    requires Summed(ps, d, asg, next, counts, |ps|)
    ensures |counts| == |next| && forall c :: 0 <= c < |counts| ==> counts[c] == Count(asg, c, |ps|)
  {
  }

  lemma UpdatingStart(ps: seq<Point>, d: nat, asg: seq<nat>, before: seq<Point>, policy: EmptyCluster)
    requires |ps| > 0 && Shaped(ps, d) && |asg| == |ps| && Shaped(before, d)
    ensures Updating(ps, d, asg, before, before, policy, 0)
  {
  }

  lemma UpdatingEnd(ps: seq<Point>, d: nat, asg: seq<nat>, before: seq<Point>, now: seq<Point>, policy: EmptyCluster)
    requires |ps| > 0 && Shaped(ps, d) && |asg| == |ps| && Updating(ps, d, asg, before, now, policy, |now|)
    ensures Recentred(ps, d, asg, before, now, policy) && Shaped(now, d)
  {
  }

  /** The second half of a round: means for the clusters in use, `policy` for the others. */
  method Recentre(ps: seq<Point>, d: nat, ghost asg: seq<nat>, centroids: array<Point>, next: array<Point>,
      counts: array<nat>, policy: EmptyCluster)
    requires |ps| > 0 && Shaped(ps, d) && |asg| == |ps| && Shaped(centroids[..], d)
    requires centroids != next && centroids.Length == next.Length
    requires Summed(ps, d, asg, next[..], counts[..], |ps|)
    modifies centroids
    ensures Recentred(ps, d, asg, old(centroids[..]), centroids[..], policy) && Shaped(centroids[..], d)
  {
    hide IsMean, Updating, Summed;
    ghost var before, sums, sizes := centroids[..], next[..], counts[..];
    ghost var now := before;
    UpdatingStart(ps, d, asg, before, policy);
    SummedCounts(ps, d, asg, sums, sizes);
    for c := 0 to centroids.Length
      invariant next[..] == sums && counts[..] == sizes && centroids[..] == now
      invariant Updating(ps, d, asg, before, now, policy, c)
    {
      UpdatingShape(ps, d, asg, before, now, policy, c);
      if counts[c] == 0 {
        match policy
        case Reseed =>
          var src := SeedRow(|ps|, centroids.Length, c);
          UpdateStep(ps, d, asg, before, now, policy, c, ps[src]);
          centroids[c] := ps[src];
          now := now[c := ps[src]];
          assert centroids[..] == now;
        case Keep =>
          UpdateStep(ps, d, asg, before, now, policy, c, now[c]);
          assert now[c := now[c]] == now;
      } else {
        var inv := 1.0 / counts[c] as real;
        ghost var mean := Scaled(sums[c], inv);
        SummedShape(ps, d, asg, sums, sizes, |ps|, c);
        ScaledIsMean(ps, d, asg, sums, sizes, c);
        UpdateStep(ps, d, asg, before, now, policy, c, mean);
        ScaleInto(centroids, c, next[c], inv, d);
        now := now[c := mean];
        assert centroids[..] == now;
      }
    }
    UpdatingEnd(ps, d, asg, before, now, policy);
  }

  /** The points of cluster `c` among the first `n`, in increasing order. */
  ghost function MemberList(asg: seq<nat>, c: nat, n: nat): seq<nat>
    requires n <= |asg|
  {
    if n == 0 then [] else MemberList(asg, c, n - 1) + if asg[n - 1] == c then [n - 1] else []
  }

  /** Every point of the cluster is listed, in increasing order and hence once. */
  lemma {:induction false} MemberListExactly(asg: seq<nat>, c: nat, n: nat)
    requires n <= |asg|
    ensures forall i: nat :: i in MemberList(asg, c, n) <==> i < n && asg[i] == c
    ensures forall a, b :: 0 <= a < b < |MemberList(asg, c, n)| ==> MemberList(asg, c, n)[a] < MemberList(asg, c, n)[b]
  {
    if n > 0 {
      MemberListExactly(asg, c, n - 1);
      var front := MemberList(asg, c, n - 1);
      forall a | 0 <= a < |front| ensures front[a] < n - 1 { assert front[a] in front; }
    }
  }

  ghost predicate Grouped(asg: seq<nat>, members: seq<seq<nat>>, n: nat) {
    n <= |asg| && forall c :: 0 <= c < |members| ==> members[c] == MemberList(asg, c, n)
  }

  method Group(assignment: array<nat>, k: nat) returns (members: seq<seq<nat>>)
    requires forall i :: 0 <= i < assignment.Length ==> assignment[i] < k
    ensures |members| == k && Grouped(assignment[..], members, assignment.Length)
  {
    members := seq(k, _ => []);
    for i := 0 to assignment.Length
      invariant |members| == k && Grouped(assignment[..], members, i)
    {
      var c := assignment[i];
      members := members[c := members[c] + [i]];
    }
  }

  lemma AssignedBelow(ps: seq<Point>, d: nat, cs: seq<Point>, asg: seq<nat>)
    requires Assigned(ps, d, cs, asg)
    ensures |asg| == |ps| && forall i :: 0 <= i < |asg| ==> asg[i] < |cs|
  {
  }

  lemma RunStep(ps: seq<Point>, d: nat, k: nat, policy: EmptyCluster, trace: seq<Clustering>, t: Clustering)
    requires Run(ps, d, k, policy, trace) && Fits(ps, d, k, t)
    requires var s := trace[|trace| - 1];
      Assigned(ps, d, s.centroids, t.assignment) && Recentred(ps, d, t.assignment, s.centroids, t.centroids, policy)
    ensures Run(ps, d, k, policy, trace + [t])
  {
    hide Assigned, Recentred;
  }

  /** `kmeans_cluster`, with every intermediate state in `trace`. */
  method Cluster(ps: seq<Point>, d: nat, k: nat, iterations: int, policy: EmptyCluster)
    returns (assignment: array<nat>, members: seq<seq<nat>>, centroids: array<Point>, ghost trace: seq<Clustering>)
    requires |ps| > 0 && Shaped(ps, d) && k > 0
    ensures Run(ps, d, k, policy, trace) && |trace| == 1 + if iterations > 0 then iterations else 0
    ensures trace[|trace| - 1] == Clustering(assignment[..], centroids[..])
    ensures |members| == k && Grouped(assignment[..], members, |ps|)
  {
    hide Summed, Assigned, Recentred, Round, FirstClosest;
    var n := |ps|;
    assignment := new nat[n](_ => 0);
    centroids := new Point[k](c requires 0 <= c < k => ps[SeedRow(n, k, c)]);
    var next := new Point[k](_ => []);
    var counts := new nat[k](_ => 0);
    ghost var s := Clustering(assignment[..], centroids[..]);
    trace := [s];
    var iter := 0;
    while iter < iterations
      invariant iter <= (if iterations > 0 then iterations else 0) && |trace| == iter + 1
      invariant Run(ps, d, k, policy, trace) && trace[iter] == s
      invariant s == Clustering(assignment[..], centroids[..])
    {
      Assign(ps, d, centroids, assignment);
      ghost var asg := assignment[..];
      AssignedBelow(ps, d, centroids[..], asg);
      Accumulate(ps, d, assignment, next, counts);
      Recentre(ps, d, asg, centroids, next, counts, policy);
      ghost var t := Clustering(assignment[..], centroids[..]);
      RunStep(ps, d, k, policy, trace, t);
      s := t;
      trace := trace + [t];
      iter := iter + 1;
    }
    members := Group(assignment, k);
  }
}
