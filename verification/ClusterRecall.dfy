/** How many in-edges of every target a scan of its own cluster finds: the per-thread
    loop and merge of the cuVS tool, and the sequential loop of the fda2 tool. */
module ClusterRecall {
  import opened Adjacency
  import opened ComponentSizes
  import opened Transpose
  import opened RecallCounts
  import opened RecallTotals
  import opened KMeans
  import opened Lloyd
  import opened Points

  // --- the reverse graph of the cuVS tool ---

  /** All lists after rows `0 .. u - 1` and the first `j` slots of row `u`. */
  ghost function Listed(rows: Rows, u: nat, j: nat): (t: Rows)
    requires u < |rows| && j <= |rows[u]|
    ensures |t| == |rows|
  {
    seq(|rows|, v requires 0 <= v < |rows| => Sources(rows, v, u) + seq(multiset(rows[u][..j])[v], _ => u))
  }

  ghost function AllSources(rows: Rows, upto: nat): (t: Rows)
    requires upto <= |rows|
    ensures |t| == |rows|
  {
    seq(|rows|, v requires 0 <= v < |rows| => Sources(rows, v, upto))
  }

  lemma ListedStep(rows: Rows, u: nat, j: nat)
    requires u < |rows| && j < |rows[u]|
    ensures var t, v := Listed(rows, u, j), rows[u][j];
      Listed(rows, u, j + 1) == if v < |rows| then t[v := t[v] + [u]] else t
  {
    var row, x, t := rows[u], rows[u][j], Listed(rows, u, j);
    assert row[..j + 1] == row[..j] + [x];
    forall v | 0 <= v < |rows|
      ensures Listed(rows, u, j + 1)[v] == if v == x then t[v] + [u] else t[v]
    {
    }
  }

  lemma ListedEnds(rows: Rows, u: nat)
    requires u < |rows|
    ensures Listed(rows, u, 0) == AllSources(rows, u)
    ensures Listed(rows, u, |rows[u]|) == AllSources(rows, u + 1)
  {
    assert rows[u][..|rows[u]|] == rows[u];
    forall v | 0 <= v < |rows| ensures Listed(rows, u, 0)[v] == AllSources(rows, u)[v] {}
    forall v | 0 <= v < |rows| ensures Listed(rows, u, |rows[u]|)[v] == AllSources(rows, u + 1)[v] {}
  }

  method BuildReverseGraph(g: CagraGraph) returns (incoming: Rows)
    requires g.Valid()
    ensures incoming == AllSources(g.AllRows(), g.nRows)
  {
    hide Listed;
    ghost var rows := g.AllRows();
    incoming := seq(g.nRows, _ => []);
    assert incoming == AllSources(rows, 0);
    for u := 0 to g.nRows
      invariant incoming == AllSources(rows, u)
    {
      var nbrs := g.Neighbors(u);
      ListedEnds(rows, u);
      for j := 0 to g.degree
        invariant incoming == Listed(rows, u, j)
      {
        var v := nbrs[j];
        ListedStep(rows, u, j);
        if v < g.nRows {
          incoming := incoming[v := incoming[v] + [u]];
        }
      }
    }
  }

  // --- one target ---

  method RowContains(row: seq<nat>, target: nat) returns (found: bool)
    ensures found <==> target in row
  {
    for j := 0 to |row|
      invariant target !in row[..j]
    {
      if row[j] == target { return true; }
    }
    assert row[..|row|] == row;
    return false;
  }

  /** How many of the listed rows hold `v`. */
  ghost function CountIn(rows: Rows, list: seq<nat>, v: nat): nat
    requires forall i :: 0 <= i < |list| ==> list[i] < |rows|
  {
    if list == [] then 0 else CountIn(rows, list[..|list| - 1], v) + if v in rows[list[|list| - 1]] then 1 else 0
  }

  lemma NoneLocal(rows: Rows, asg: seq<nat>, c: nat, v: nat)
    requires |rows| == |asg|
    ensures Local(rows, asg, c, v, 0) == {} && CountIn(rows, [], v) == 0
  {
  }

  lemma CountInPush(rows: Rows, list: seq<nat>, u: nat, v: nat)
    requires (forall i :: 0 <= i < |list| ==> list[i] < |rows|) && u < |rows|
    ensures CountIn(rows, list + [u], v) == CountIn(rows, list, v) + if v in rows[u] then 1 else 0
  {
    assert (list + [u])[..|list|] == list;
  }

  lemma {:induction false} CountMembers(rows: Rows, asg: seq<nat>, c: nat, v: nat, n: nat)
    requires n <= |rows| == |asg|
    ensures forall i :: 0 <= i < |MemberList(asg, c, n)| ==> MemberList(asg, c, n)[i] < n
    ensures CountIn(rows, MemberList(asg, c, n), v) == |Local(rows, asg, c, v, n)|
  {
    hide Local, CountIn;
    if n == 0 {
      NoneLocal(rows, asg, c, v);
    } else {
      CountMembers(rows, asg, c, v, n - 1);
      LocalStep(rows, asg, c, v, n - 1);
      var front := MemberList(asg, c, n - 1);
      if asg[n - 1] == c {
        CountInPush(rows, front, n - 1, v);
      } else {
        assert MemberList(asg, c, n) == front;
      }
    }
  }

  lemma CountInStep(rows: Rows, list: seq<nat>, v: nat, i: nat)
    requires (forall i :: 0 <= i < |list| ==> list[i] < |rows|) && i < |list|
    ensures CountIn(rows, list[..i + 1], v) == CountIn(rows, list[..i], v) + if v in rows[list[i]] then 1 else 0
  {
    assert list[..i + 1][..i] == list[..i];
  }

  method Measure(g: CagraGraph, incoming: Rows, asg: seq<nat>, members: seq<seq<nat>>, target: nat)
    returns (x: NodeStats)
    requires g.Valid() && incoming == AllSources(g.AllRows(), g.nRows)
    requires |asg| == g.nRows && Grouped(asg, members, g.nRows) && target < g.nRows && asg[target] < |members|
    ensures x == Measured(g.AllRows(), asg, target)
    ensures x.cluster == asg[target] && x.gt == |incoming[target]|
    ensures x.recovered == |Local(g.AllRows(), asg, asg[target], target, g.nRows)|
    ensures x.recall == if x.gt == 0 then 100.0 else 100.0 * x.recovered as real / x.gt as real
  {
    hide Local;
    var c := asg[target];
    var own, gt := members[c], incoming[target];
    CountMembers(g.AllRows(), asg, c, target, g.nRows);
    var recovered := 0;
    for i := 0 to |own|
      invariant recovered == CountIn(g.AllRows(), own[..i], target)
    {
      CountInStep(g.AllRows(), own, target, i);
      var found := RowContains(g.Neighbors(own[i]), target);
      if found { recovered := recovered + 1; }
    }
    assert own[..|own|] == own;
    x := NodeStats(c, |gt|, recovered, Percent(recovered, |gt|));
  }

  // --- all targets, divided among threads ---

  /** What all threads handle, one thread after the other. */
  ghost function Flat(schedule: seq<seq<nat>>): seq<nat> {
    if schedule == [] then [] else Flat(schedule[..|schedule| - 1]) + schedule[|schedule| - 1]
  }

  ghost function Targets(first: nat, last: nat): (ts: seq<nat>)
    requires first <= last
    ensures |ts| == last - first + 1 && forall i :: 0 <= i < |ts| ==> ts[i] == first + i
  {
    seq(last - first + 1, i requires 0 <= i => first + i)
  }

  /** Some division of the range among threads, in any order. */
  ghost predicate Schedules(schedule: seq<seq<nat>>, first: nat, last: nat) {
    first <= last && multiset(Flat(schedule)) == multiset(Targets(first, last))
  }

  lemma {:induction false} Scheduled(schedule: seq<seq<nat>>, th: nat, n: nat)
    requires th < |schedule| && forall i :: 0 <= i < |Flat(schedule)| ==> Flat(schedule)[i] < n
    ensures forall i :: 0 <= i < |schedule[th]| ==> schedule[th][i] < n
    ensures Flat(schedule[..th + 1]) == Flat(schedule[..th]) + schedule[th]
    ensures forall i :: 0 <= i < |Flat(schedule[..th])| ==> Flat(schedule[..th])[i] < n
    decreases |schedule|
  {
    assert schedule[..th + 1][..th] == schedule[..th];
    var k := |schedule| - 1;
    var front, last := Flat(schedule[..k]), schedule[k];
    forall i | 0 <= i < |front| ensures front[i] < n { assert front[i] == Flat(schedule)[i]; }
    if th == k {
      forall i | 0 <= i < |last| ensures last[i] < n { assert last[i] == Flat(schedule)[|front| + i]; }
    } else {
      Scheduled(schedule[..k], th, n);
      assert schedule[..k][..th] == schedule[..th];
      assert schedule[..k][..th + 1] == schedule[..th + 1];
    }
  }

  lemma KnownPrefix(all: seq<NodeStats>, a: seq<nat>, list: seq<nat>, i: nat)
    requires Known(all, a) && Known(all, list) && i <= |list|
    ensures Known(all, list[..i]) && Known(all, a + list[..i])
    ensures i < |list| ==> list[..i + 1] == list[..i] + [list[i]]
    ensures list[..|list|] == list
  {
  }

  /** The slots of the handled targets are filled. */
  ghost predicate Filled(all: seq<NodeStats>, ts: seq<nat>, slots: seq<NodeStats>) {
    |slots| == |all| && forall t :: 0 <= t < |slots| ==> slots[t] == if t in ts then all[t] else NodeStats(0, 0, 0, 100.0)
  }

  lemma FilledStep(all: seq<NodeStats>, ts: seq<nat>, slots: seq<NodeStats>, t: nat)
    requires Filled(all, ts, slots) && t < |all|
    ensures Filled(all, ts + [t], slots[t := all[t]])
  {
  }

  lemma KnownAt(all: seq<NodeStats>, ts: seq<nat>, i: nat)
    requires Known(all, ts) && i < |ts|
    ensures ts[i] < |all|
  {
  }

  lemma FilledLength(all: seq<NodeStats>, ts: seq<nat>, slots: seq<NodeStats>)
    requires Filled(all, ts, slots)
    ensures |slots| == |all|
  {
  }

  /** The loop of one thread: its own counters start at zero. */
  method Thread(g: CagraGraph, incoming: Rows, asg: seq<nat>, members: seq<seq<nat>>, mine: seq<nat>,
                nodeStats: array<NodeStats>, ghost earlier: seq<nat>) returns (local: array<Stats>)
    requires g.Valid() && incoming == AllSources(g.AllRows(), g.nRows)
    requires |asg| == g.nRows && Grouped(asg, members, g.nRows) && forall i :: 0 <= i < |asg| ==> asg[i] < |members|
    requires Known(AllMeasured(g.AllRows(), asg), mine) && Known(AllMeasured(g.AllRows(), asg), earlier)
    requires Filled(AllMeasured(g.AllRows(), asg), earlier, nodeStats[..])
    modifies nodeStats
    ensures fresh(local) && local[..] == Tallies(AllMeasured(g.AllRows(), asg), mine, |members|)
    ensures Filled(AllMeasured(g.AllRows(), asg), earlier + mine, nodeStats[..])
  {
    hide Tally, Share, Filled, Grouped, Known, Measured;
    ghost var all := AllMeasured(g.AllRows(), asg);
    var k := |members|;
    local := new Stats[k](_ => ZERO);
    KnownPrefix(all, earlier, mine, 0);
    NoTallies(all, mine[..0], k);
    assert local[..] == Tallies(all, mine[..0], k);
    assert earlier + mine[..0] == earlier;
    ghost var slots, counters := nodeStats[..], local[..];
    for i := 0 to |mine|
      invariant nodeStats[..] == slots && local[..] == counters
      invariant Known(all, mine[..i]) && counters == Tallies(all, mine[..i], k) && Filled(all, earlier + mine[..i], slots)
    {
      var target := mine[i];
      KnownAt(all, mine, i);
      KnownPrefix(all, earlier, mine, i);
      var x := Measure(g, incoming, asg, members, target);
      MeasuredAt(g.AllRows(), asg, target);
      assert x == all[target];
      FilledStep(all, earlier + mine[..i], slots, target);
      FilledLength(all, earlier + mine[..i], slots);
      assert (earlier + mine[..i]) + [target] == earlier + mine[..i + 1];
      nodeStats[target] := x;
      slots := slots[target := x];
      assert nodeStats[..] == slots;
      TalliesPush(all, mine[..i], target, k);
      var c := x.cluster;
      local[c] := local[c].Plus(Share(x));
      counters := counters[c := counters[c].Plus(Share(x))];
      assert local[..] == counters;
    }
    KnownPrefix(all, earlier, mine, |mine|);
  }

  ghost function PlusEach(a: seq<Stats>, b: seq<Stats>): (s: seq<Stats>)
    requires |a| == |b|
    ensures |s| == |a|
  {
    seq(|a|, c requires 0 <= c < |a| => a[c].Plus(b[c]))
  }

  /** The critical section: one thread's counters are added to the shared ones. */
  method Merge(shared: array<Stats>, local: array<Stats>)
    requires shared.Length == local.Length && shared != local
    modifies shared
    ensures shared[..] == PlusEach(old(shared[..]), local[..])
  {
    for c := 0 to shared.Length
      invariant forall b :: 0 <= b < shared.Length ==> shared[b] == if b < c then old(shared[b]).Plus(local[b]) else old(shared[b])
    {
      shared[c] := shared[c].Plus(local[c]);
    }
    assert shared[..] == PlusEach(old(shared[..]), local[..]);
  }

  lemma TalliesConcat(all: seq<NodeStats>, a: seq<nat>, b: seq<nat>, k: nat)
    requires Known(all, a) && Known(all, b)
    ensures Known(all, a + b) && Tallies(all, a + b, k) == PlusEach(Tallies(all, a, k), Tallies(all, b, k))
  {
    hide Tally, Stats.Plus;
    forall c: nat | c < k { TallyConcat(all, a, b, c); }
  }

  lemma TalliesOfPermutation(all: seq<NodeStats>, a: seq<nat>, b: seq<nat>, k: nat)
    requires Known(all, a) && multiset(a) == multiset(b)
    ensures Known(all, b) && Tallies(all, a, k) == Tallies(all, b, k)
  {
    hide Tally;
    KnownByElements(all, a, b);
    forall c: nat | c < k { TallyOfPermutation(all, a, b, c); }
  }

  lemma FilledByElements(all: seq<NodeStats>, a: seq<nat>, b: seq<nat>, slots: seq<NodeStats>)
    requires Filled(all, a, slots) && multiset(a) == multiset(b)
    ensures Filled(all, b, slots)
  {
    forall t: nat ensures t in a <==> t in b { assert t in multiset(a) <==> t in multiset(b); }
  }

  lemma ScheduledTargets(all: seq<NodeStats>, schedule: seq<seq<nat>>, first: nat, last: nat)
    requires Schedules(schedule, first, last) && last < |all|
    ensures Known(all, Targets(first, last)) && Known(all, Flat(schedule))
  {
    assert Known(all, Targets(first, last));
    KnownByElements(all, Targets(first, last), Flat(schedule));
  }

  lemma StartFilled(all: seq<NodeStats>, schedule: seq<seq<nat>>, slots: seq<NodeStats>, counters: seq<Stats>)
    requires |slots| == |all| && forall t :: 0 <= t < |slots| ==> slots[t] == NodeStats(0, 0, 0, 100.0)
    requires forall c :: 0 <= c < |counters| ==> counters[c] == ZERO
    ensures Flat(schedule[..0]) == [] && Known(all, []) && Filled(all, [], slots) && counters == Tallies(all, [], |counters|)
  {
  }

  /** The parallel region. Whatever the division of the targets among threads, and in
      whatever order the threads merge, the result is that of handling the range in order. */
  method Scan(g: CagraGraph, incoming: Rows, asg: seq<nat>, members: seq<seq<nat>>,
              first: nat, last: nat, schedule: seq<seq<nat>>)
    returns (nodeStats: array<NodeStats>, clusterStats: array<Stats>)
    requires g.Valid() && incoming == AllSources(g.AllRows(), g.nRows)
    requires |asg| == g.nRows && Grouped(asg, members, g.nRows) && forall i :: 0 <= i < |asg| ==> asg[i] < |members|
    requires last < g.nRows && Schedules(schedule, first, last)
    ensures Known(AllMeasured(g.AllRows(), asg), Targets(first, last))
    ensures clusterStats[..] == Tallies(AllMeasured(g.AllRows(), asg), Targets(first, last), |members|)
    ensures Filled(AllMeasured(g.AllRows(), asg), Targets(first, last), nodeStats[..])
  {
    hide Tally, Filled, Grouped, PlusEach, Measured, Flat, Tallies;
    ghost var all := AllMeasured(g.AllRows(), asg);
    ScheduledTargets(all, schedule, first, last);
    nodeStats := new NodeStats[g.nRows](_ => NodeStats(0, 0, 0, 100.0));
    clusterStats := new Stats[|members|](_ => ZERO);
    StartFilled(all, schedule, nodeStats[..], clusterStats[..]);
    for th := 0 to |schedule|
      invariant fresh(nodeStats) && fresh(clusterStats)
      invariant Known(all, Flat(schedule[..th])) && Filled(all, Flat(schedule[..th]), nodeStats[..])
      invariant clusterStats[..] == Tallies(all, Flat(schedule[..th]), |members|)
    {
      Scheduled(schedule, th, |all|);
      var local := Thread(g, incoming, asg, members, schedule[th], nodeStats, Flat(schedule[..th]));
      TalliesConcat(all, Flat(schedule[..th]), schedule[th], |members|);
      Merge(clusterStats, local);
    }
    assert schedule[..|schedule|] == schedule;
    TalliesOfPermutation(all, Flat(schedule), Targets(first, last), |members|);
    FilledByElements(all, Flat(schedule), Targets(first, last), nodeStats[..]);
  }

  /** The printed summary. */
  method Summarize(clusterStats: array<Stats>) returns (total: Stats)
    ensures total == Total(clusterStats[..])
  {
    total := ZERO;
    for c := 0 to clusterStats.Length
      invariant total == Total(clusterStats[..c])
    {
      assert clusterStats[..c + 1][..c] == clusterStats[..c];
      total := total.Plus(clusterStats[c]);
    }
    assert clusterStats[..clusterStats.Length] == clusterStats[..];
  }

  /** The summary counts every row of the range once, never more edges found than listed,
      and its recalls are percentages. */
  lemma SummaryIsBounded(rows: Rows, asg: seq<nat>, k: nat, first: nat, last: nat)
    requires |rows| == |asg| && first <= last < |rows| && forall i :: 0 <= i < |asg| ==> asg[i] < k
    ensures Known(AllMeasured(rows, asg), Targets(first, last))
    ensures var total := Total(Tallies(AllMeasured(rows, asg), Targets(first, last), k));
      total.nodes == last - first + 1 && Plausible(total)
  {
    hide Total, Tallies, Local, Sources, Percent, Plausible;
    var all, ts := AllMeasured(rows, asg), Targets(first, last);
    forall i | 0 <= i < |ts| ensures Sound(all[ts[i]], k) {
      RecallIsFullExactly(rows, asg, ts[i]);
    }
    TotalsCountTargets(all, ts, k);
  }

  lemma RunFits(ps: seq<Point>, d: nat, k: nat, policy: EmptyCluster, trace: seq<Clustering>)
    requires Run(ps, d, k, policy, trace)
    ensures |trace| > 0 && Fits(ps, d, k, trace[|trace| - 1])
  {
  }

  lemma ScheduledRange(schedule: seq<seq<nat>>, first: nat, last: nat)
    requires Schedules(schedule, first, last)
    ensures first <= last
  {
  }

  /** The body of `main` from the reverse graph to the summary. */
  method Evaluate(g: CagraGraph, ps: seq<Point>, d: nat, k: nat, iterations: int, first: nat, last: nat,
      schedule: seq<seq<nat>>)
    returns (total: Stats)
    requires g.Valid() && |ps| == g.nRows && Shaped(ps, d) && 0 < k <= g.nRows && iterations > 0
    requires last < g.nRows && Schedules(schedule, first, last)
    ensures total.nodes == last - first + 1 && Plausible(total)
    ensures exists trace: seq<Clustering> :: (Run(ps, d, k, Reseed, trace) && |trace| == iterations + 1
      && Totals(total, g.AllRows(), trace[iterations].assignment, Targets(first, last)))
  {
    hide Totals, Run, Grouped, AllSources, Filled, Tallies, Total, Schedules, Known, Measured, Targets;
    var incoming := BuildReverseGraph(g);
    var assignment, members, centroids, trace := Cluster(ps, d, k, iterations, Reseed);
    RunFits(ps, d, k, Reseed, trace);
    var asg := assignment[..];
    var nodeStats, clusterStats := Scan(g, incoming, asg, members, first, last, schedule);
    total := Summarize(clusterStats);
    ScheduledRange(schedule, first, last);
    SummaryIsBounded(g.AllRows(), asg, k, first, last);
    SummaryTotals(g.AllRows(), asg, Targets(first, last), k);
    assert Run(ps, d, k, Reseed, trace) && trace[iterations].assignment == asg;
  }

  // --- the fda2 tool ---

  ghost function Found(rows: Rows, asg: seq<nat>, upto: nat): (s: seq<nat>)
    requires upto <= |rows| == |asg|
    ensures |s| == upto && forall v :: 0 <= v < upto ==> s[v] == |Local(rows, asg, asg[v], v, |rows|)|
  {
    seq(upto, v requires 0 <= v < upto => |Local(rows, asg, asg[v], v, |rows|)|)
  }

  lemma GroupedAt(asg: seq<nat>, members: seq<seq<nat>>, n: nat, c: nat)
    requires Grouped(asg, members, n) && c < |members|
    ensures members[c] == MemberList(asg, c, n)
  {
  }

  /** The scan of one target's own cluster. */
  method CountLocal(g: Graph, asg: seq<nat>, members: seq<seq<nat>>, v: nat) returns (r: nat)
    requires g.Valid() && |asg| == g.nRows && Grouped(asg, members, g.nRows) && v < g.nRows && asg[v] < |members|
    ensures r == |Local(g.AllRows(), asg, asg[v], v, g.nRows)|
  {
    hide Local, Grouped;
    ghost var rows := g.AllRows();
    GroupedAt(asg, members, g.nRows, asg[v]);
    CountMembers(rows, asg, asg[v], v, g.nRows);
    var own := members[asg[v]];
    r := 0;
    for i := 0 to |own|
      invariant r == CountIn(rows, own[..i], v)
    {
      CountInStep(rows, own, v, i);
      var edge := RowContains(g.Neighbors(own[i]), v);
      if edge { r := r + 1; }
    }
    assert own[..|own|] == own;
  }

  ghost predicate FdaAdds(gt: nat, found: nat, recallSum: real, f: seq<nat>, l: seq<nat>) {
    |f| == |l| && gt == Sum(l) && found == Sum(f) && recallSum == RealSum(Recalls(f, l))
  }

  lemma FdaAddsPush(gt: nat, found: nat, recallSum: real, f: seq<nat>, l: seq<nat>, x: nat, y: nat)
    requires FdaAdds(gt, found, recallSum, f, l)
    ensures FdaAdds(gt + y, found + x, recallSum + Percent(x, y), f + [x], l + [y])
  {
    hide Recalls, Sum, RealSum, Percent;
    RecallsPush(f, l, x, y);
    SumPush(f, x);
    SumPush(l, y);
    RealSumPush(Recalls(f, l), Percent(x, y));
  }

  lemma NothingFound()
    ensures FdaAdds(0, 0, 0.0, [], [])
  {
  }

  lemma FdaAdded(gt: nat, found: nat, recallSum: real, f: seq<nat>, l: seq<nat>)
    requires FdaAdds(gt, found, recallSum, f, l)
    ensures |f| == |l| && gt == Sum(l) && found == Sum(f) && recallSum == RealSum(Recalls(f, l))
  {
  }

  /** Found and listed in-edges and recalls over all targets. */
  method FdaTotals(g: Graph, asg: seq<nat>, members: seq<seq<nat>>) returns (gt: nat, found: nat, recallSum: real)
    requires g.Valid() && |asg| == g.nRows && Grouped(asg, members, g.nRows)
    requires forall i :: 0 <= i < |asg| ==> asg[i] < |members|
    ensures gt == Sum(Lengths(Transposed(g.AllRows()))) && found == Sum(Found(g.AllRows(), asg, g.nRows))
    ensures forall v :: 0 <= v < g.nRows ==> Lengths(Transposed(g.AllRows()))[v] == |Transposed(g.AllRows())[v]|
    ensures recallSum == RealSum(Recalls(Found(g.AllRows(), asg, g.nRows), Lengths(Transposed(g.AllRows()))))
  {
    hide Local, Grouped, Transposed, Percent, Sum, RealSum, FdaAdds, Recalls;
    ghost var rows := g.AllRows();
    var rev, reserved := Transpose.BuildReverseGraph(g);
    ghost var f: seq<nat>, l: seq<nat> := [], [];
    NothingFound();
    gt, found, recallSum := 0, 0, 0.0;
    for v := 0 to g.nRows
      invariant |f| == |l| == v && FdaAdds(gt, found, recallSum, f, l)
      invariant forall i :: 0 <= i < v ==> f[i] == |Local(rows, asg, asg[i], i, g.nRows)| && l[i] == |rev[i]|
    {
      var r := CountLocal(g, asg, members, v);
      FdaAddsPush(gt, found, recallSum, f, l, r, |rev[v]|);
      gt, found, recallSum := gt + |rev[v]|, found + r, recallSum + Percent(r, |rev[v]|);
      f, l := f + [r], l + [|rev[v]|];
    }
    assert f == Found(rows, asg, g.nRows) && l == Lengths(rev);
    FdaAdded(gt, found, recallSum, f, l);
  }

  lemma {:induction false} SumMono(a: seq<nat>, b: seq<nat>)
    requires |a| == |b| && forall i :: 0 <= i < |a| ==> a[i] <= b[i]
    ensures Sum(a) <= Sum(b)
  {
    if a != [] { SumMono(a[..|a| - 1], b[..|b| - 1]); }
  }

  lemma NoLoopBound(rows: Rows, asg: seq<nat>, v: nat)
    requires v < |rows| == |asg| && v !in rows[v]
    ensures |Local(rows, asg, asg[v], v, |rows|)| <= |Transposed(rows)[v]|
  {
    FdaBoundExactly(rows, asg, v);
  }

  lemma {:induction false} RealSumBounded(s: seq<real>, b: real)
    requires forall i :: 0 <= i < |s| ==> 0.0 <= s[i] <= b
    ensures 0.0 <= RealSum(s) <= b * |s| as real
  {
    if s != [] {
      var k: nat := |s| - 1;
      RealSumBounded(s[..k], b);
      assert |s| as real == k as real + 1.0;
      assert b * (k as real + 1.0) == b * k as real + b;
    }
  }

  /** Without self-loops the fda2 tool finds no more than it lists, and its recalls are
      percentages. */
  lemma FdaTotalsBounded(rows: Rows, asg: seq<nat>)
    requires |rows| == |asg| && forall v :: 0 <= v < |rows| ==> v !in rows[v]
    ensures Sum(Found(rows, asg, |rows|)) <= Sum(Lengths(Transposed(rows)))
    ensures 0.0 <= RealSum(Recalls(Found(rows, asg, |rows|), Lengths(Transposed(rows)))) <= 100.0 * |rows| as real
  {
    hide Local, Transposed, Percent, RealSum, Sum;
    var f, l := Found(rows, asg, |rows|), Lengths(Transposed(rows));
    forall v | 0 <= v < |rows| ensures f[v] <= l[v] && 0.0 <= Percent(f[v], l[v]) <= 100.0 {
      NoLoopBound(rows, asg, v);
      PercentRange(f[v], l[v]);
    }
    SumMono(f, l);
    RealSumBounded(Recalls(f, l), 100.0);
  }
}
