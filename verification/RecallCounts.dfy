/** The counters of the cluster-quality tools: what they mean, how they bound each other,
    and why the order in which targets are handled does not matter. */
module RecallCounts {
  import opened Adjacency
  import opened FiniteSets
  import opened Transpose

  // --- one target ---

  /** The sources of edges into `v` as the cuVS tool lists them: self-loops stay. */
  ghost function Sources(rows: Rows, v: nat, upto: nat): seq<nat>
    requires upto <= |rows|
  {
    if upto == 0 then [] else Sources(rows, v, upto - 1) + seq(multiset(rows[upto - 1])[v], _ => upto - 1)
  }

  /** `u` is listed under `v` exactly as often as row `u` holds `v`, in increasing order. */
  lemma {:induction false} SourcesCount(rows: Rows, v: nat, upto: nat, u: nat)
    requires upto <= |rows|
    ensures multiset(Sources(rows, v, upto))[u] == if u < upto then multiset(rows[u])[v] else 0
  {
    if upto > 0 {
      SourcesCount(rows, v, upto - 1, u);
      RepeatCount(upto - 1, multiset(rows[upto - 1])[v], u);
    }
  }

  lemma {:induction false} SourcesAscending(rows: Rows, v: nat, upto: nat)
    requires upto <= |rows|
    ensures Ascending(Sources(rows, v, upto)) && forall u :: u in Sources(rows, v, upto) ==> u < upto
  {
    if upto > 0 {
      SourcesAscending(rows, v, upto - 1);
      var front, more := Sources(rows, v, upto - 1), seq(multiset(rows[upto - 1])[v], _ => upto - 1);
      forall i, j | 0 <= i < j < |front + more| ensures (front + more)[i] <= (front + more)[j] {
        if i < |front| <= j { assert front[i] in front; }
      }
    }
  }

  /** `u` is an in-neighbour of `v` in cluster `c`. */
  ghost predicate Feeds(rows: Rows, asg: seq<nat>, c: nat, v: nat, u: nat)
    requires |rows| == |asg|
  {
    u < |rows| && asg[u] == c && v in rows[u]
  }

  /** The distinct in-neighbours of `v` in cluster `c`. */
  ghost function Local(rows: Rows, asg: seq<nat>, c: nat, v: nat, upto: nat): set<nat>
    requires upto <= |rows| == |asg|
  {
    set u: nat | u < upto && Feeds(rows, asg, c, v, u)
  }

  /** Every edge from row `u` to `v` comes from cluster `c` and is not duplicated. */
  ghost predicate LocalOnce(rows: Rows, asg: seq<nat>, c: nat, v: nat, u: nat)
    requires u < |rows| == |asg|
  {
    v in rows[u] ==> asg[u] == c && multiset(rows[u])[v] == 1
  }

  /** The local in-neighbours other than `v` itself. */
  ghost function Others(rows: Rows, asg: seq<nat>, c: nat, v: nat, upto: nat): set<nat>
    requires upto <= |rows| == |asg|
  {
    set u: nat | u < upto && u != v && Feeds(rows, asg, c, v, u)
  }

  lemma LocalStep(rows: Rows, asg: seq<nat>, c: nat, v: nat, u: nat)
    requires u < |rows| == |asg|
    ensures |Local(rows, asg, c, v, u + 1)| == |Local(rows, asg, c, v, u)| + if Feeds(rows, asg, c, v, u) then 1 else 0
  {
    hide Feeds;
    var before, after := Local(rows, asg, c, v, u), Local(rows, asg, c, v, u + 1);
    if Feeds(rows, asg, c, v, u) {
      assert after == before + {u};
    } else {
      assert after == before;
    }
  }

  lemma OthersStep(rows: Rows, asg: seq<nat>, c: nat, v: nat, u: nat)
    requires u < |rows| == |asg|
    ensures |Others(rows, asg, c, v, u + 1)| == |Others(rows, asg, c, v, u)| + if u != v && Feeds(rows, asg, c, v, u) then 1 else 0
  {
    hide Feeds;
    var before, after := Others(rows, asg, c, v, u), Others(rows, asg, c, v, u + 1);
    if u != v && Feeds(rows, asg, c, v, u) {
      assert after == before + {u};
    } else {
      assert after == before;
    }
  }

  /** `LocalOnce` for all rows below `upto`, the target's own row only if `self`. */
  ghost predicate AllOnce(rows: Rows, asg: seq<nat>, c: nat, v: nat, upto: nat, self: bool)
    requires upto <= |rows| == |asg|
  {
    forall u: nat :: u < upto && (self || u != v) ==> LocalOnce(rows, asg, c, v, u)
  }

  lemma AllOnceStep(rows: Rows, asg: seq<nat>, c: nat, v: nat, u: nat, self: bool)
    requires u < |rows| == |asg|
    ensures AllOnce(rows, asg, c, v, u + 1, self)
      <==> AllOnce(rows, asg, c, v, u, self) && (self || u != v ==> LocalOnce(rows, asg, c, v, u))
  {
    hide LocalOnce;
  }

  lemma NoRows(rows: Rows, asg: seq<nat>, c: nat, v: nat, self: bool)
    requires |rows| == |asg|
    ensures AllOnce(rows, asg, c, v, 0, self) && Sources(rows, v, 0) == Incoming(rows, v, 0) == []
    ensures Others(rows, asg, c, v, 0) == {} && Local(rows, asg, c, v, 0) == {}
  {
  }

  lemma ListLengths(rows: Rows, v: nat, u: nat)
    requires u < |rows|
    ensures |Sources(rows, v, u + 1)| == |Sources(rows, v, u)| + multiset(rows[u])[v]
    ensures |Incoming(rows, v, u + 1)| == |Incoming(rows, v, u)| + if u == v then 0 else multiset(rows[u])[v]
  {
  }

  /** One row adds at most as much on the left as on the right. */
  lemma LocalOnceCount(rows: Rows, asg: seq<nat>, c: nat, v: nat, u: nat)
    requires u < |rows| == |asg|
    ensures Feeds(rows, asg, c, v, u) ==> multiset(rows[u])[v] > 0
    ensures LocalOnce(rows, asg, c, v, u) <==> multiset(rows[u])[v] == if Feeds(rows, asg, c, v, u) then 1 else 0
  {
    assert v in rows[u] <==> v in multiset(rows[u]);
  }

  /** Never more recovered than listed; as many exactly when all in-edges come from the
      cluster and none is duplicated. */
  lemma {:induction false} LocalBound(rows: Rows, asg: seq<nat>, c: nat, v: nat, upto: nat)
    requires upto <= |rows| == |asg|
    ensures |Local(rows, asg, c, v, upto)| <= |Sources(rows, v, upto)|
    ensures |Local(rows, asg, c, v, upto)| == |Sources(rows, v, upto)|
      <==> AllOnce(rows, asg, c, v, upto, true)
  {
    hide Local, Feeds, LocalOnce, AllOnce, Sources;
    if upto == 0 {
      NoRows(rows, asg, c, v, true);
    } else {
      var u: nat := upto - 1;
      LocalBound(rows, asg, c, v, u);
      LocalStep(rows, asg, c, v, u);
      LocalOnceCount(rows, asg, c, v, u);
      ListLengths(rows, v, u);
      AllOnceStep(rows, asg, c, v, u, true);
    }
  }

  lemma {:induction false} OthersBound(rows: Rows, asg: seq<nat>, c: nat, v: nat, upto: nat)
    requires upto <= |rows| == |asg|
    ensures |Others(rows, asg, c, v, upto)| <= |Incoming(rows, v, upto)|
    ensures |Others(rows, asg, c, v, upto)| == |Incoming(rows, v, upto)|
      <==> AllOnce(rows, asg, c, v, upto, false)
  {
    hide Others, Local, Feeds, LocalOnce, AllOnce, Incoming;
    if upto == 0 {
      NoRows(rows, asg, c, v, false);
    } else {
      var u: nat := upto - 1;
      OthersBound(rows, asg, c, v, u);
      OthersStep(rows, asg, c, v, u);
      LocalOnceCount(rows, asg, c, v, u);
      ListLengths(rows, v, u);
      AllOnceStep(rows, asg, c, v, u, false);
    }
  }

  /** The fda2 tool counts a self-loop as recovered but does not list it, so there the
      bound fails exactly for a target with a self-loop whose other in-edges all come
      from its cluster and are not duplicated. */
  lemma FdaBoundExactly(rows: Rows, asg: seq<nat>, v: nat)
    requires v < |rows| == |asg|
    ensures |Local(rows, asg, asg[v], v, |rows|)| <= |Incoming(rows, v, |rows|)|
      <==> !(v in rows[v] && AllOnce(rows, asg, asg[v], v, |rows|, false))
  {
    var n, c := |rows|, asg[v];
    OthersBound(rows, asg, c, v, n);
    if Feeds(rows, asg, c, v, v) {
      assert Local(rows, asg, c, v, n) == Others(rows, asg, c, v, n) + {v};
    } else {
      assert Local(rows, asg, c, v, n) == Others(rows, asg, c, v, n);
    }
  }

  /** One row that points at itself recovers more than it lists. */
  lemma OneSelfLoopBreaksTheFdaBound()
    ensures |Local([[0]], [0], 0, 0, 1)| > |Incoming([[0]], 0, 1)|
  {
    var rows: Rows := [[0]];
    FdaBoundExactly(rows, [0], 0);
  }

  // --- totals ---

  datatype NodeStats = NodeStats(cluster: nat, gt: nat, recovered: nat, recall: real)

  datatype Stats = Stats(nodes: nat, gt: nat, recovered: nat, full: nat, zeroGt: nat, recallSum: real) {
    function Plus(s: Stats): Stats {
      Stats(nodes + s.nodes, gt + s.gt, recovered + s.recovered, full + s.full, zeroGt + s.zeroGt, recallSum + s.recallSum)
    }
  }

  const ZERO := Stats(0, 0, 0, 0, 0, 0.0)

  /** What one target adds to the counters of its cluster. */
  function Share(x: NodeStats): Stats {
    Stats(1, x.gt, x.recovered, if x.recovered == x.gt then 1 else 0, if x.gt == 0 then 1 else 0, x.recall)
  }

  ghost predicate Known(all: seq<NodeStats>, ts: seq<nat>) {
    forall i :: 0 <= i < |ts| ==> ts[i] < |all|
  }

  /** What target `t` adds to the counters of cluster `c`. */
  ghost function ShareIn(all: seq<NodeStats>, t: nat, c: nat): Stats
    requires t < |all|
  {
    if all[t].cluster == c then Share(all[t]) else ZERO
  }

  /** The counters of cluster `c` after the targets `ts`. */
  ghost function Tally(all: seq<NodeStats>, ts: seq<nat>, c: nat): Stats
    requires Known(all, ts)
  {
    if ts == [] then ZERO else Tally(all, ts[..|ts| - 1], c).Plus(ShareIn(all, ts[|ts| - 1], c))
  }

  lemma TallyPush(all: seq<NodeStats>, ts: seq<nat>, t: nat, c: nat)
    requires Known(all, ts) && t < |all|
    ensures Known(all, ts + [t]) && Tally(all, ts + [t], c) == Tally(all, ts, c).Plus(ShareIn(all, t, c))
  {
    assert (ts + [t])[..|ts|] == ts;
  }

  lemma {:induction false} TallyConcat(all: seq<NodeStats>, a: seq<nat>, b: seq<nat>, c: nat)
    requires Known(all, a) && Known(all, b)
    ensures Known(all, a + b) && Tally(all, a + b, c) == Tally(all, a, c).Plus(Tally(all, b, c))
  {
    hide ShareIn;
    if b == [] {
      assert a + b == a;
    } else {
      var front, t := b[..|b| - 1], b[|b| - 1];
      assert b == front + [t] && a + b == (a + front) + [t];
      TallyConcat(all, a, front, c);
      TallyPush(all, front, t, c);
      TallyPush(all, a + front, t, c);
    }
  }

  lemma KnownByElements(all: seq<NodeStats>, a: seq<nat>, b: seq<nat>)
    requires Known(all, a) && multiset(a) == multiset(b)
    ensures Known(all, b) && |a| == |b|
  {
    assert |a| == |multiset(a)| == |multiset(b)| == |b|;
    forall i | 0 <= i < |b| ensures b[i] < |all| { assert b[i] in multiset(a); }
  }

  /** `b` without one occurrence of `t`. */
  lemma TakeOut(b: seq<nat>, t: nat) returns (left: seq<nat>, right: seq<nat>)
    requires t in multiset(b)
    ensures b == left + [t] + right && multiset(left + right) == multiset(b) - multiset{t}
  {
    var i :| 0 <= i < |b| && b[i] == t;
    left, right := b[..i], b[i + 1..];
    assert b == left + [t] + right;
  }

  lemma Reorder(a: Stats, x: Stats, b: Stats)
    ensures a.Plus(x).Plus(b) == a.Plus(b).Plus(x)
  {
  }

  lemma SwapLast(all: seq<NodeStats>, left: seq<nat>, right: seq<nat>, t: nat, c: nat)
    requires Known(all, left) && Known(all, right) && t < |all|
    ensures Known(all, left + [t] + right) && Known(all, left + right)
    ensures Tally(all, left + [t] + right, c) == Tally(all, left + right, c).Plus(ShareIn(all, t, c))
  {
    hide ShareIn, Tally, Stats.Plus;
    TallyPush(all, left, t, c);
    TallyConcat(all, left, right, c);
    TallyConcat(all, left + [t], right, c);
    Reorder(Tally(all, left, c), ShareIn(all, t, c), Tally(all, right, c));
  }

  lemma KnownParts(all: seq<NodeStats>, left: seq<nat>, right: seq<nat>)
    requires Known(all, left + right)
    ensures Known(all, left) && Known(all, right)
  {
    forall i | 0 <= i < |left| ensures left[i] < |all| { assert left[i] == (left + right)[i]; }
    forall i | 0 <= i < |right| ensures right[i] < |all| { assert right[i] == (left + right)[|left| + i]; }
  }

  /** The counters depend on which targets were handled, not on their order. */
  lemma {:induction false} TallyOfPermutation(all: seq<NodeStats>, a: seq<nat>, b: seq<nat>, c: nat)
    requires multiset(a) == multiset(b) && Known(all, a)
    ensures Known(all, b) && Tally(all, a, c) == Tally(all, b, c)
    decreases |a|
  {
    hide ShareIn;
    KnownByElements(all, a, b);
    if a != [] {
      var front, t := a[..|a| - 1], a[|a| - 1];
      assert a == front + [t];
      assert multiset(front) == multiset(a) - multiset{t};
      assert t in multiset(b);
      var left, right := TakeOut(b, t);
      TallyOfPermutation(all, front, left + right, c);
      KnownParts(all, left, right);
      SwapLast(all, left, right, t, c);
    }
  }

  ghost function Total(s: seq<Stats>): Stats {
    if s == [] then ZERO else Total(s[..|s| - 1]).Plus(s[|s| - 1])
  }

  /** The counters of clusters `0 .. k - 1`. */
  ghost function Tallies(all: seq<NodeStats>, ts: seq<nat>, k: nat): (s: seq<Stats>)
    requires Known(all, ts)
    ensures |s| == k
  {
    seq(k, c requires 0 <= c < k => Tally(all, ts, c))
  }

  lemma NoTallies(all: seq<NodeStats>, ts: seq<nat>, k: nat)
    requires ts == [] && Known(all, ts)
    ensures Tallies(all, ts, k) == seq(k, _ => ZERO)
  {
  }

  lemma NothingAdded(s: Stats)
    ensures s.Plus(ZERO) == s
  {
  }

  lemma {:induction false} TotalOfZeros(k: nat)
    ensures Total(seq(k, _ => ZERO)) == ZERO
  {
    hide Stats.Plus;
    var s := seq(k, _ => ZERO);
    if k > 0 {
      assert s[..k - 1] == seq(k - 1, _ => ZERO);
      TotalOfZeros(k - 1);
      NothingAdded(ZERO);
    }
  }

  lemma {:induction false} TotalBump(s: seq<Stats>, c: nat, x: Stats)
    requires c < |s|
    ensures Total(s[c := s[c].Plus(x)]) == Total(s).Plus(x)
  {
    var s', last := s[c := s[c].Plus(x)], |s| - 1;
    if c == last {
      assert s'[..last] == s[..last];
    } else {
      assert s'[..last] == s[..last][c := s[c].Plus(x)];
      TotalBump(s[..last], c, x);
    }
  }

  lemma TalliesPush(all: seq<NodeStats>, ts: seq<nat>, t: nat, k: nat)
    requires Known(all, ts) && t < |all| && all[t].cluster < k
    ensures var s, c := Tallies(all, ts, k), all[t].cluster;
      Known(all, ts + [t]) && Tallies(all, ts + [t], k) == s[c := s[c].Plus(Share(all[t]))]
  {
    hide Tally, Share;
    forall b | 0 <= b < k { TallyPush(all, ts, t, b); }
  }

  ghost predicate Sound(x: NodeStats, k: nat) {
    x.cluster < k && x.recovered <= x.gt && 0.0 <= x.recall <= 100.0
  }

  /** Counters that describe `nodes` targets: no more recovered than listed, and recalls
      that are percentages. */
  ghost predicate Plausible(s: Stats) {
    && s.recovered <= s.gt && s.zeroGt <= s.full <= s.nodes
    && 0.0 <= s.recallSum <= 100.0 * s.nodes as real
  }

  lemma PlausiblePlus(s: Stats, x: NodeStats, k: nat)
    requires Plausible(s) && Sound(x, k)
    ensures Plausible(s.Plus(Share(x)))
  {
    assert (s.nodes + 1) as real == s.nodes as real + 1.0;
  }

  lemma NothingIsPlausible()
    ensures Plausible(ZERO)
  {
  }

  lemma SoundCluster(x: NodeStats, k: nat)
    requires Sound(x, k)
    ensures x.cluster < k
  {
  }

  /** The totals over all clusters count every target exactly once, and are plausible. */
  lemma {:induction false} TotalsCountTargets(all: seq<NodeStats>, ts: seq<nat>, k: nat)
    requires Known(all, ts) && forall i :: 0 <= i < |ts| ==> Sound(all[ts[i]], k)
    ensures var total := Total(Tallies(all, ts, k));
      total.nodes == |ts| && Plausible(total)
  {
    hide Plausible, Sound;
    if ts == [] {
      NothingIsPlausible();
      NoTallies(all, ts, k);
      TotalOfZeros(k);
    } else {
      var front, t := ts[..|ts| - 1], ts[|ts| - 1];
      assert ts == front + [t];
      assert Sound(all[t], k);
      SoundCluster(all[t], k);
      TotalsCountTargets(all, front, k);
      TalliesPush(all, front, t, k);
      TotalBump(Tallies(all, front, k), all[t].cluster, Share(all[t]));
      PlausiblePlus(Total(Tallies(all, front, k)), all[t], k);
    }
  }
}
