/** When the component labels and their counter fit the 32-bit signed integers that the
    tools keep them in. The counter only grows and labels stay below it, so the values at
    the end decide. */
module LabelWidths {
  import opened Digraphs
  import opened FiniteSets
  import opened Adjacency
  import opened Components

  ghost predicate LabelsFit(comp: seq<int>, cnt: int) {
    cnt <= INT_MAX && forall v :: 0 <= v < |comp| ==> comp[v] <= INT_MAX
  }

  /** In-range vertices no two of which reach each other. */
  ghost predicate Apart(g: Digraph, r: Range, s: set<nat>) {
    && (forall v :: v in s ==> InRange(|g|, r, v))
    && forall u, v :: u in s && v in s && u != v ==> !Scc(g, u, v)
  }

  /** There are at most `INT_MAX` components in the range. */
  ghost predicate FewComponents(g: Digraph, r: Range) {
    forall s: set<nat> :: Apart(g, r, s) ==> |s| <= INT_MAX
  }

  /** The labels `0 .. cnt - 1` go to the components of the in-range vertices. */
  ghost predicate LabelsRange(g: Digraph, r: Range, comp: seq<int>, cnt: nat) {
    Labelling(g, comp, cnt) && forall v: nat :: v < |g| ==> (comp[v] != -1 <==> r.Contains(v))
  }

  /** Vertices with different labels below `k`. */
  ghost predicate DifferentLabels(comp: seq<int>, k: int, s: set<nat>) {
    && (forall v :: v in s ==> v < |comp| && 0 <= comp[v] < k)
    && forall u, v :: u in s && v in s && u != v ==> comp[u] != comp[v]
  }

  ghost function LabelsOf(comp: seq<int>, s: set<nat>): set<int> {
    set v | v in s && v < |comp| :: comp[v]
  }

  lemma {:induction false} OneLabelEach(comp: seq<int>, k: nat, s: set<nat>)
    requires DifferentLabels(comp, k, s)
    ensures |LabelsOf(comp, s)| == |s|
  {
    if s != {} {
      var v :| v in s;
      OneLabelEach(comp, k, s - {v});
      assert LabelsOf(comp, s) == LabelsOf(comp, s - {v}) + {comp[v]};
      assert comp[v] !in LabelsOf(comp, s - {v});
    }
  }

  lemma NoMoreThanLabels(comp: seq<int>, k: nat, s: set<nat>)
    requires DifferentLabels(comp, k, s)
    ensures |s| <= k
  {
    OneLabelEach(comp, k, s);
    forall c | c in LabelsOf(comp, s) ensures c in Below(k) {}
    SubsetSize(LabelsOf(comp, s), Below(k));
  }

  /** One vertex for each label below `k`. */
  lemma {:induction false} Representatives(comp: seq<int>, k: nat) returns (s: set<nat>)
    requires forall c :: 0 <= c < k ==> HasLabel(comp, c)
    ensures DifferentLabels(comp, k, s) && |s| == k
  {
    if k == 0 {
      s := {};
    } else {
      var rest := Representatives(comp, k - 1);
      assert HasLabel(comp, k - 1);
      var v: nat :| v < |comp| && comp[v] == k - 1;
      s := rest + {v};
    }
  }

  lemma ApartIsDifferent(g: Digraph, r: Range, comp: seq<int>, cnt: nat, s: set<nat>)
    requires LabelsRange(g, r, comp, cnt)
    ensures Apart(g, r, s) <==> DifferentLabels(comp, cnt, s)
  {
    hide Scc, HasLabel, Edge;
  }

  /** Labels and counter fit exactly when there are at most `INT_MAX` components. */
  lemma LabelsFitExactly(g: Digraph, r: Range, comp: seq<int>, cnt: nat)
    requires LabelsRange(g, r, comp, cnt)
    ensures LabelsFit(comp, cnt) <==> FewComponents(g, r)
  {
    hide Apart, DifferentLabels, Edge, Scc;
    var all := Representatives(comp, cnt);
    ApartIsDifferent(g, r, comp, cnt, all);
    if LabelsFit(comp, cnt) {
      forall s: set<nat> | Apart(g, r, s) ensures |s| <= INT_MAX {
        ApartIsDifferent(g, r, comp, cnt, s);
        NoMoreThanLabels(comp, cnt, s);
      }
    }
  }

  lemma RangeSize(a: nat, b: nat)
    requires a <= b
    ensures |Below(b) - Below(a)| == b - a
  {
    assert Below(b) == Below(a) + (Below(b) - Below(a));
  }

  /** A range given as `s` and `e` holds these two rows and `e - s + 1` rows in all, which
      are those from the first to the last; without a range every row is held. */
  lemma RangeHoldsItsRows(r: Range, n: nat)
    requires r.Valid(n)
    ensures r.on ==> r.Contains(r.s) && r.Contains(r.e)
    ensures |set x: nat | x in Below(n) && r.Contains(x)| == if r.on then r.e - r.s + 1 else n
    ensures forall x: nat :: x < n ==> (r.Contains(x) <==> r.First() <= x <= r.Last(n))
  {
    hide Below;
    var held := set x: nat | x in Below(n) && r.Contains(x);
    if r.on {
      RangeSize(r.s, r.e + 1);
      assert held == Below(r.e + 1) - Below(r.s);
    } else {
      assert held == Below(n);
    }
  }

  ghost function RowsOf(g: Digraph, r: Range): (rows: set<nat>)
    requires r.Valid(|g|)
    ensures |rows| == r.Last(|g|) + 1 - r.First()
    ensures forall v: nat :: InRange(|g|, r, v) ==> v in rows
  {
    RangeSize(r.First(), r.Last(|g|) + 1);
    Below(r.Last(|g|) + 1) - Below(r.First())
  }

  /** A range of at most 2^31 - 1 rows is always enough. */
  lemma ShortRangeFits(g: Digraph, r: Range, comp: seq<int>, cnt: nat)
    requires LabelsRange(g, r, comp, cnt) && r.Valid(|g|) && r.Last(|g|) + 1 - r.First() <= 0x7FFF_FFFF
    ensures LabelsFit(comp, cnt)
  {
    hide LabelsRange, RowsOf;
    LabelsFitExactly(g, r, comp, cnt);
    forall s: set<nat> | Apart(g, r, s) ensures |s| <= INT_MAX {
      SubsetSize(s, RowsOf(g, r));
    }
  }

  lemma EdgelessIsApart(g: Digraph, r: Range, all: set<nat>)
    requires (forall u: nat, v: nat :: !Edge(g, u, v)) && forall v :: v in all ==> InRange(|g|, r, v)
    ensures Apart(g, r, all)
  {
    hide Reach, Edge;
    forall u, v | u in all && v in all && u != v ensures !Scc(g, u, v) {
      if Reach(g, u, v) { var w := LastEdge(g, u, v); }
    }
  }

  /** A graph of 2^31 + 2 rows without edges needs as many labels. */
  lemma EdgelessDoesNotFit(rows: Rows, r: Range, comp: seq<int>, cnt: nat)
    requires rows == seq(0x8000_0002, _ => []) && !r.on && LabelsRange(Induced(rows, r), r, comp, cnt)
    ensures !LabelsFit(comp, cnt)
  {
    hide LabelsRange, Apart, Edge;
    var g, all := Induced(rows, r), Below(INT_MAX + 3);
    EdgelessIsApart(g, r, all);
    LabelsFitExactly(g, r, comp, cnt);
  }
}
