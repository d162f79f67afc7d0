/** fda2/fda2_tools/vamana_indegree_distribution.cpp: in-degrees, their total and their
    histogram, checked against the reverse graph. */
module InDegree {
  import opened Adjacency
  import opened ComponentSizes
  import opened Optional
  import opened Transpose

  /** The positions that hold the value `d`. */
  ghost function Holding(s: seq<nat>, d: nat): set<nat> {
    set i: nat | i < |s| && s[i] == d
  }

  ghost function Weighted(hist: seq<nat>): nat {
    if hist == [] then 0 else Weighted(hist[..|hist| - 1]) + (|hist| - 1) * hist[|hist| - 1]
  }

  lemma {:induction false} WeightedBump(hist: seq<nat>, d: nat)
    requires d < |hist|
    ensures Weighted(hist[d := hist[d] + 1]) == Weighted(hist) + d
  {
    var h, last := hist[d := hist[d] + 1], |hist| - 1;
    if d == last {
      assert h[..last] == hist[..last];
      assert last * (hist[last] + 1) == last * hist[last] + last;
    } else {
      assert h[..last] == hist[..last][d := hist[d] + 1];
      WeightedBump(hist[..last], d);
    }
  }

  lemma {:induction false} WeightedZeros(hist: seq<nat>)
    requires forall d :: 0 <= d < |hist| ==> hist[d] == 0
    ensures Weighted(hist) == 0
  {
    if hist != [] { WeightedZeros(hist[..|hist| - 1]); }
  }

  lemma HoldingStep(s: seq<nat>, i: nat, d: nat)
    requires i < |s|
    ensures |Holding(s[..i + 1], d)| == |Holding(s[..i], d)| + if s[i] == d then 1 else 0
  {
    if s[i] == d {
      assert Holding(s[..i + 1], d) == Holding(s[..i], d) + {i};
    } else {
      assert Holding(s[..i + 1], d) == Holding(s[..i], d);
    }
  }

  /** `hist` is the histogram of the first `i` in-degrees. */
  ghost predicate Tallied(indeg: seq<nat>, i: nat, hist: seq<nat>) {
    && i <= |indeg|
    && (forall d :: 0 <= d < |hist| ==> hist[d] == |Holding(indeg[..i], d)|)
    && Weighted(hist) == Sum(indeg[..i])
  }

  lemma TallyStart(indeg: seq<nat>, hist: seq<nat>)
    requires forall d :: 0 <= d < |hist| ==> hist[d] == 0
    ensures Tallied(indeg, 0, hist)
  {
    WeightedZeros(hist);
    forall d ensures Holding(indeg[..0], d) == {} {}
  }

  lemma TallyStep(indeg: seq<nat>, i: nat, hist: seq<nat>)
    requires Tallied(indeg, i, hist) && i < |indeg| && indeg[i] < |hist|
    ensures Tallied(indeg, i + 1, hist[indeg[i] := hist[indeg[i]] + 1])
  {
    forall d: nat ensures |Holding(indeg[..i + 1], d)| == |Holding(indeg[..i], d)| + if indeg[i] == d then 1 else 0 {
      HoldingStep(indeg, i, d);
    }
    WeightedBump(hist, indeg[i]);
    assert indeg[..i + 1][..i] == indeg[..i];
  }

  const TWO_TO_THE_32: nat := 0x1_0000_0000

  /** What 32-bit unsigned counters hold. */
  ghost function Wrapped(c: seq<nat>): (w: seq<nat>)
    ensures |w| == |c|
  {
    seq(|c|, v requires 0 <= v < |c| => c[v] % TWO_TO_THE_32)
  }

  lemma WrappedBump(c: seq<nat>, v: nat)
    requires v < |c|
    ensures Wrapped(c[v := c[v] + 1]) == Wrapped(c)[v := (Wrapped(c)[v] + 1) % TWO_TO_THE_32]
  {
    var after := Wrapped(c[v := c[v] + 1]);
    forall u | 0 <= u < |c| ensures after[u] == Wrapped(c)[v := (Wrapped(c)[v] + 1) % TWO_TO_THE_32][u] {
      if u == v { assert (c[v] % TWO_TO_THE_32 + 1) % TWO_TO_THE_32 == (c[v] + 1) % TWO_TO_THE_32; }
    }
  }

  ghost predicate Histogram(indeg: seq<nat>, hist: seq<nat>) {
    && (forall v :: 0 <= v < |indeg| ==> indeg[v] < |hist|)
    && (forall d :: 0 <= d < |hist| ==> hist[d] == |Holding(indeg, d)|)
    && exists v :: 0 <= v < |indeg| && indeg[v] == |hist| - 1
  }

  /** The printed distribution is that of the graph: in-degrees are the lengths of the
      reverse lists, `hist` counts the vertices of each in-degree and ends at the largest,
      and both add up to the number of edges. */
  ghost predicate CorrectDistribution(rows: Rows, indeg: seq<nat>, edges: nat, hist: seq<nat>) {
    && indeg == Lengths(Transposed(rows))
    && edges == Sum(indeg) == Weighted(hist)
    && Histogram(indeg, hist)
  }

  /** What the tool delivers: counters modulo 2^32, and their histogram, unless its length,
      the largest counter plus one in 32 bits, comes out as 0 and the first write misses. */
  ghost predicate Delivered(rows: Rows, indeg: seq<nat>, edges: nat, hist: Option<seq<nat>>) {
    && indeg == Wrapped(Lengths(Transposed(rows))) && edges == Sum(Lengths(Transposed(rows)))
    && (hist == None <==> exists v :: 0 <= v < |indeg| && indeg[v] == TWO_TO_THE_32 - 1)
    && (hist.Some? ==> Histogram(indeg, hist.value) && Weighted(hist.value) == Sum(indeg))
  }

  /** The counter of `v` is the number of its in-edges modulo 2^32. */
  lemma DeliveredCounter(rows: Rows, indeg: seq<nat>, edges: nat, hist: Option<seq<nat>>, v: nat)
    requires Delivered(rows, indeg, edges, hist) && v < |rows|
    ensures |indeg| == |rows| && indeg[v] == |Incoming(rows, v, |rows|)| % 0x1_0000_0000
  {
    hide Histogram, Sum, Weighted, Incoming;
  }

  /** Every vertex has fewer in-edges than the counters can take. */
  ghost predicate FewInEdges(rows: Rows) {
    forall v :: 0 <= v < |rows| ==> |Transposed(rows)[v]| < TWO_TO_THE_32 - 1
  }

  /** No counter wrapped around, and none is so large that the histogram has no length. */
  ghost predicate Unwrapped(c: seq<nat>) {
    Wrapped(c) == c && forall v :: 0 <= v < |c| ==> c[v] != TWO_TO_THE_32 - 1
  }

  lemma WrappedExactly(rows: Rows)
    ensures FewInEdges(rows) <==> Unwrapped(Lengths(Transposed(rows)))
  {
    hide Transposed;
    var c := Lengths(Transposed(rows));
    if FewInEdges(rows) {
      forall v | 0 <= v < |c| ensures Wrapped(c)[v] == c[v] {}
    } else {
      var v :| 0 <= v < |rows| && |Transposed(rows)[v]| >= TWO_TO_THE_32 - 1;
      assert c[v] >= TWO_TO_THE_32 ==> Wrapped(c)[v] != c[v];
    }
  }

  /** The distribution of the graph is delivered exactly when no vertex has 2^32 - 1 or
      more in-edges. */
  lemma DeliversExactly(rows: Rows, indeg: seq<nat>, edges: nat, hist: Option<seq<nat>>)
    requires Delivered(rows, indeg, edges, hist)
    ensures (hist.Some? && CorrectDistribution(rows, indeg, edges, hist.value)) <==> FewInEdges(rows)
  {
    hide Wrapped, Sum, Weighted, Histogram, FewInEdges, Transposed, Lengths;
    WrappedExactly(rows);
  }

  /** Two rows that name vertex 0 in 2^31 slots each wrap its counter to 0. */
  lemma ManyInEdgesWrap(rows: Rows)
    requires rows == [[], seq(0x8000_0000, _ => 0), seq(0x8000_0000, _ => 0)]
    ensures |Transposed(rows)[0]| == TWO_TO_THE_32 && !FewInEdges(rows)
  {
    RepeatCount(0, 0x8000_0000, 0);
    assert Incoming(rows, 0, 1) == [];
    assert |Incoming(rows, 0, 2)| == 0x8000_0000;
    assert |Incoming(rows, 0, 3)| == TWO_TO_THE_32;
    assert |Transposed(rows)[0]| == TWO_TO_THE_32;
  }

  lemma WrappedZeros(c: seq<nat>)
    requires forall v :: 0 <= v < |c| ==> c[v] == 0
    ensures Wrapped(c) == c
  {
  }

  method Accumulate(g: Graph) returns (indeg: array<nat>, edges: nat)
    requires g.Valid()
    ensures indeg[..] == Wrapped(Lengths(Transposed(g.AllRows())))
    ensures edges == Sum(Lengths(Transposed(g.AllRows()))) && edges <= g.nRows * g.maxDegree
  {
    hide Partial, Lengths, Sum, Wrapped;
    ghost var rows := g.AllRows();
    indeg := new nat[g.nRows](_ => 0);
    edges := 0;
    CountStart(rows, indeg[..]);
    SumZeros(indeg[..]);
    ghost var counts := indeg[..];
    WrappedZeros(counts);
    for u := 0 to g.nRows
      invariant counts == Lengths(SoFar(rows, u)) && edges == Sum(counts) && edges <= u * g.maxDegree
      invariant indeg[..] == Wrapped(counts)
    {
      PartialEnds(rows, u);
      SlotsInBounds(u + 1, g.maxDegree, u);
      var nb := g.Neighbors(u);
      for j := 0 to |nb|
        invariant counts == Lengths(Partial(rows, u, j)) && edges == Sum(counts) && edges <= u * g.maxDegree + j
        invariant indeg[..] == Wrapped(counts)
      {
        var v := nb[j];
        CountStep(rows, u, j);
        if v < g.nRows && v != u {
          SumBump(counts, v);
          WrappedBump(counts, v);
          ghost var before := indeg[..];
          indeg[v] := (indeg[v] + 1) % TWO_TO_THE_32;
          assert indeg[..] == before[v := (before[v] + 1) % TWO_TO_THE_32];
          counts := counts[v := counts[v] + 1];
          edges := edges + 1;
        }
      }
    }
  }

  /** The last element of the sorted copy. */
  method Largest(a: array<nat>) returns (mx: nat)
    requires a.Length > 0
    ensures (forall v :: 0 <= v < a.Length ==> a[v] <= mx) && exists v :: 0 <= v < a.Length && a[v] == mx
  {
    mx := a[0];
    for i := 1 to a.Length
      invariant forall v :: 0 <= v < i ==> a[v] <= mx
      invariant exists v :: 0 <= v < i && a[v] == mx
    {
      if a[i] > mx { mx := a[i]; }
    }
  }

  lemma CountersBelow(c: seq<nat>)
    ensures forall v :: 0 <= v < |c| ==> Wrapped(c)[v] < TWO_TO_THE_32
  {
  }

  lemma TallyDone(indeg: seq<nat>, hist: seq<nat>)
    requires Tallied(indeg, |indeg|, hist)
    ensures Weighted(hist) == Sum(indeg) && forall d :: 0 <= d < |hist| ==> hist[d] == |Holding(indeg, d)|
  {
    assert indeg[..|indeg|] == indeg;
  }

  method Distribution(g: Graph) returns (indeg: array<nat>, edges: nat, hist: Option<seq<nat>>)
    requires g.Valid() && g.nRows > 0
    ensures Delivered(g.AllRows(), indeg[..], edges, hist)
  {
    hide Sum, Weighted, Lengths, Tallied, Wrapped, Transposed;
    indeg, edges := Accumulate(g);
    ghost var degrees := indeg[..];
    CountersBelow(Lengths(Transposed(g.AllRows())));
    var mx := Largest(indeg);
    assert exists v :: 0 <= v < |degrees| && degrees[v] == mx;
    var length := (mx + 1) % TWO_TO_THE_32;
    if length == 0 { return indeg, edges, None; }
    var h: seq<nat> := seq(length, _ => 0);
    TallyStart(degrees, h);
    for i := 0 to indeg.Length
      invariant indeg[..] == degrees && |h| == mx + 1 && Tallied(degrees, i, h)
    {
      var d := indeg[i];
      assert d == degrees[i];
      TallyStep(degrees, i, h);
      h := h[d := h[d] + 1];
    }
    TallyDone(degrees, h);
    hist := Some(h);
  }
}
