/** What the printed counters of the cuVS cluster-quality tool say about the targets. */
module RecallTotals {
  import opened Adjacency
  import opened ComponentSizes
  import opened Points
  import opened RecallCounts

  // --- one target ---

  function Percent(recovered: nat, gt: nat): real {
    if gt == 0 then 100.0 else 100.0 * recovered as real / gt as real
  }

  lemma ScaleUp(b: real, x: real, y: real)
    requires b > 0.0 && x > y
    ensures x * b > y * b
  {
  }

  lemma PercentRange(recovered: nat, gt: nat)
    requires recovered <= gt
    ensures 0.0 <= Percent(recovered, gt) <= 100.0 && (Percent(recovered, gt) == 100.0 <==> recovered == gt)
  {
    if gt > 0 {
      var p, b := Percent(recovered, gt), gt as real;
      assert p * b == 100.0 * recovered as real;
      if p > 100.0 { ScaleUp(b, p, 100.0); }
      if p < 0.0 { ScaleUp(b, 0.0, p); }
      if recovered == gt && p < 100.0 { ScaleUp(b, 100.0, p); }
    }
  }

  /** The recall is the percentage of the listed in-edges that are recovered. */
  lemma PercentIs(recovered: nat, gt: nat)
    ensures gt == 0 ==> Percent(recovered, gt) == 100.0
    ensures gt > 0 ==> Percent(recovered, gt) * gt as real == 100.0 * recovered as real
  {
  }

  /** The record of one target. */
  ghost function Measured(rows: Rows, asg: seq<nat>, t: nat): NodeStats
    requires t < |rows| == |asg|
  {
    var gt, recovered := |Sources(rows, t, |rows|)|, |Local(rows, asg, asg[t], t, |rows|)|;
    NodeStats(asg[t], gt, recovered, Percent(recovered, gt))
  }

  ghost function AllMeasured(rows: Rows, asg: seq<nat>): (all: seq<NodeStats>)
    requires |rows| == |asg|
    ensures |all| == |rows|
  {
    seq(|rows|, t requires 0 <= t < |rows| => Measured(rows, asg, t))
  }

  lemma MeasuredAt(rows: Rows, asg: seq<nat>, t: nat)
    requires t < |rows| == |asg|
    ensures AllMeasured(rows, asg)[t] == Measured(rows, asg, t) && Measured(rows, asg, t).cluster == asg[t]
  {
  }

  /** A target's recall is a percentage, and it is full exactly when all in-edges come from
      the target's own cluster and none is duplicated. */
  lemma RecallIsFullExactly(rows: Rows, asg: seq<nat>, t: nat)
    requires t < |rows| == |asg|
    ensures var x := Measured(rows, asg, t);
      && x.recovered <= x.gt && 0.0 <= x.recall <= 100.0
      && (x.recovered == x.gt <==> AllOnce(rows, asg, asg[t], t, |rows|, true))
      && (x.recall == 100.0 <==> x.recovered == x.gt)
  {
    hide Local, Sources, Percent;
    LocalBound(rows, asg, asg[t], t, |rows|);
    PercentRange(Measured(rows, asg, t).recovered, Measured(rows, asg, t).gt);
  }

  // --- a list of targets ---

  ghost function Recalls(found: seq<nat>, listed: seq<nat>): (s: seq<real>)
    requires |found| == |listed|
    ensures |s| == |found| && forall i :: 0 <= i < |s| ==> s[i] == Percent(found[i], listed[i])
  {
    seq(|found|, i requires 0 <= i < |found| => Percent(found[i], listed[i]))
  }

  ghost function FullAt(found: seq<nat>, listed: seq<nat>): (s: set<nat>)
    requires |found| == |listed|
    ensures forall i: nat :: i in s <==> i < |found| && found[i] == listed[i]
  {
    set i: nat | i < |found| && found[i] == listed[i]
  }

  ghost function ZeroAt(listed: seq<nat>): (s: set<nat>)
    ensures forall i: nat :: i in s <==> i < |listed| && listed[i] == 0
  {
    set i: nat | i < |listed| && listed[i] == 0
  }

  /** The counters of targets with these numbers of recovered and listed in-edges. */
  ghost predicate Adds(s: Stats, found: seq<nat>, listed: seq<nat>) {
    && |found| == |listed| == s.nodes
    && s.gt == Sum(listed) && s.recovered == Sum(found) && s.recallSum == RealSum(Recalls(found, listed))
    && s.full == |FullAt(found, listed)| && s.zeroGt == |ZeroAt(listed)|
  }

  ghost predicate Below(ts: seq<nat>, n: nat) {
    forall i :: 0 <= i < |ts| ==> ts[i] < n
  }

  ghost function ListedCounts(rows: Rows, ts: seq<nat>): (s: seq<nat>)
    ensures |s| == |ts| && forall i :: 0 <= i < |ts| ==> s[i] == |Sources(rows, ts[i], |rows|)|
  {
    seq(|ts|, i requires 0 <= i < |ts| => |Sources(rows, ts[i], |rows|)|)
  }

  ghost function RecoveredCounts(rows: Rows, asg: seq<nat>, ts: seq<nat>): (s: seq<nat>)
    requires |rows| == |asg| && Below(ts, |rows|)
    ensures |s| == |ts| && forall i :: 0 <= i < |ts| ==> s[i] == |Local(rows, asg, asg[ts[i]], ts[i], |rows|)|
  {
    seq(|ts|, i requires 0 <= i < |ts| => |Local(rows, asg, asg[ts[i]], ts[i], |rows|)|)
  }

  /** The counters of the targets `ts`: how many there are, how many in-edges are listed and
      recovered, how many are full, how many have none listed, and the sum of the recalls. */
  ghost predicate Totals(s: Stats, rows: Rows, asg: seq<nat>, ts: seq<nat>) {
    |rows| == |asg| && Below(ts, |rows|) && Adds(s, RecoveredCounts(rows, asg, ts), ListedCounts(rows, ts))
  }

  lemma SumPush(s: seq<nat>, x: nat)
    ensures Sum(s + [x]) == Sum(s) + x
  {
    assert (s + [x])[..|s|] == s;
  }

  lemma RealSumPush(s: seq<real>, x: real)
    ensures RealSum(s + [x]) == RealSum(s) + x
  {
    assert (s + [x])[..|s|] == s;
  }

  lemma RecallsPush(found: seq<nat>, listed: seq<nat>, f: nat, l: nat)
    requires |found| == |listed|
    ensures Recalls(found + [f], listed + [l]) == Recalls(found, listed) + [Percent(f, l)]
  {
    hide Percent;
  }

  lemma FullAtPush(found: seq<nat>, listed: seq<nat>, f: nat, l: nat)
    requires |found| == |listed|
    ensures |FullAt(found + [f], listed + [l])| == |FullAt(found, listed)| + if f == l then 1 else 0
  {
    hide FullAt;
    var before, after := FullAt(found, listed), FullAt(found + [f], listed + [l]);
    if f == l {
      assert after == before + {|found|};
    } else {
      assert after == before;
    }
  }

  lemma ZeroAtPush(listed: seq<nat>, l: nat)
    ensures |ZeroAt(listed + [l])| == |ZeroAt(listed)| + if l == 0 then 1 else 0
  {
    hide ZeroAt;
    var before, after := ZeroAt(listed), ZeroAt(listed + [l]);
    if l == 0 {
      assert after == before + {|listed|};
    } else {
      assert after == before;
    }
  }

  lemma AddsPush(s: Stats, found: seq<nat>, listed: seq<nat>, x: NodeStats)
    requires Adds(s, found, listed) && x.recall == Percent(x.recovered, x.gt)
    ensures Adds(s.Plus(Share(x)), found + [x.recovered], listed + [x.gt])
  {
    hide Percent, Recalls, FullAt, ZeroAt, Sum, RealSum;
    RecallsPush(found, listed, x.recovered, x.gt);
    FullAtPush(found, listed, x.recovered, x.gt);
    ZeroAtPush(listed, x.gt);
    SumPush(found, x.recovered);
    SumPush(listed, x.gt);
    RealSumPush(Recalls(found, listed), x.recall);
  }

  lemma TotalsPush(s: Stats, rows: Rows, asg: seq<nat>, ts: seq<nat>, t: nat)
    requires Totals(s, rows, asg, ts) && t < |rows| == |asg|
    ensures Totals(s.Plus(Share(Measured(rows, asg, t))), rows, asg, ts + [t])
  {
    hide Adds, Sources, Local, Share, Stats.Plus, Percent;
    var x := Measured(rows, asg, t);
    AddsPush(s, RecoveredCounts(rows, asg, ts), ListedCounts(rows, ts), x);
    assert Below(ts + [t], |rows|);
    assert RecoveredCounts(rows, asg, ts + [t]) == RecoveredCounts(rows, asg, ts) + [x.recovered];
    assert ListedCounts(rows, ts + [t]) == ListedCounts(rows, ts) + [x.gt];
  }

  lemma NoTargets(rows: Rows, asg: seq<nat>)
    requires |rows| == |asg|
    ensures Totals(ZERO, rows, asg, [])
  {
    assert FullAt([], []) == {} && ZeroAt([]) == {};
  }

  /** The sum over all clusters. */
  lemma {:induction false} SummaryTotals(rows: Rows, asg: seq<nat>, ts: seq<nat>, k: nat)
    requires |rows| == |asg| && Below(ts, |rows|) && forall i :: 0 <= i < |asg| ==> asg[i] < k
    ensures Known(AllMeasured(rows, asg), ts)
    ensures Totals(Total(Tallies(AllMeasured(rows, asg), ts, k)), rows, asg, ts)
  {
    hide Totals, Measured, Share, Stats.Plus, Tally;
    var all := AllMeasured(rows, asg);
    if ts == [] {
      NoTargets(rows, asg);
      NoTallies(all, ts, k);
      TotalOfZeros(k);
    } else {
      var front, t := ts[..|ts| - 1], ts[|ts| - 1];
      assert ts == front + [t];
      SummaryTotals(rows, asg, front, k);
      MeasuredAt(rows, asg, t);
      TalliesPush(all, front, t, k);
      TotalBump(Tallies(all, front, k), asg[t], Share(all[t]));
      TotalsPush(Total(Tallies(all, front, k)), rows, asg, front, t);
    }
  }

  /** The targets that belong to cluster `c`, in order. */
  ghost function OfCluster(asg: seq<nat>, ts: seq<nat>, c: nat): (r: seq<nat>)
    requires Below(ts, |asg|)
    ensures Below(r, |asg|)
  {
    if ts == [] then []
    else OfCluster(asg, ts[..|ts| - 1], c) + if asg[ts[|ts| - 1]] == c then [ts[|ts| - 1]] else []
  }

  /** One line of the printed table. */
  lemma {:induction false} ClusterLine(rows: Rows, asg: seq<nat>, ts: seq<nat>, c: nat)
    requires |rows| == |asg| && Below(ts, |rows|)
    ensures Known(AllMeasured(rows, asg), ts)
    ensures Totals(Tally(AllMeasured(rows, asg), ts, c), rows, asg, OfCluster(asg, ts, c))
  {
    hide Totals, Measured, Share, Stats.Plus;
    var all := AllMeasured(rows, asg);
    if ts == [] {
      NoTargets(rows, asg);
    } else {
      var front, t := ts[..|ts| - 1], ts[|ts| - 1];
      ClusterLine(rows, asg, front, c);
      MeasuredAt(rows, asg, t);
      if asg[t] == c {
        TotalsPush(Tally(all, front, c), rows, asg, OfCluster(asg, front, c), t);
      } else {
        NothingAdded(Tally(all, front, c));
        assert OfCluster(asg, front, c) + [] == OfCluster(asg, front, c);
      }
    }
  }

  /** A range has a line's targets exactly where they are assigned to the cluster. */
  lemma {:induction false} OfClusterCount(asg: seq<nat>, ts: seq<nat>, c: nat, t: nat)
    requires Below(ts, |asg|)
    ensures multiset(OfCluster(asg, ts, c))[t] == if t < |asg| && asg[t] == c then multiset(ts)[t] else 0
  {
    if ts != [] {
      OfClusterCount(asg, ts[..|ts| - 1], c, t);
      assert ts == ts[..|ts| - 1] + [ts[|ts| - 1]];
    }
  }
}
