/** `wcc` of fda2/fda2_tools/connected_components_scc.cpp. It follows out-edges only, so
    it does not compute weak components; this module says what it computes instead and
    exactly when the two coincide. */
module FdaWcc {
  import opened Digraphs
  import opened FiniteSets
  import opened Adjacency
  import opened Components
  import opened ComponentSizes
  import opened LabelWidths
  import opened WeakComponents

  ghost function Reversed(g: Digraph): (h: Digraph)
    ensures |h| == |g|
  {
    seq(|g|, u requires 0 <= u < |g| => set v: nat | v < |g| && Edge(g, v, u))
  }

  lemma ReversedEdge(g: Digraph, u: nat, v: nat)
    ensures Edge(Reversed(g), u, v) <==> Edge(g, v, u)
  {
  }

  lemma ReversedReach(g: Digraph, u: nat, v: nat)
    ensures Reach(Reversed(g), u, v) <==> Reach(g, v, u)
  {
    var h := Reversed(g);
    forall a: nat, b: nat ensures Edge(h, a, b) <==> Edge(g, b, a) { ReversedEdge(g, a, b); }
    if Reach(h, u, v) { ReachReversed(h, g, u, v); }
    if Reach(g, v, u) { ReachReversed(g, h, v, u); }
  }

  /** `s` is the least vertex from `lo` on that reaches `x`. */
  ghost predicate LeastSource(g: Digraph, lo: int, s: nat, x: nat) {
    lo <= s && Reach(g, s, x) && forall t: nat :: lo <= t < s ==> !Reach(g, t, x)
  }

  /** A forward search from `root` in progress, on top of the labels `comp0`; `size`
      vertices have been expanded and those in `open` still have to be. */
  ghost predicate Spreading(g: Digraph, r: Range, comp0: seq<int>, comp: seq<int>, c: nat, root: nat,
      open: seq<nat>, size: int) {
    && Sealed(Reversed(g), comp0, c)
    && Sweeping(Reversed(g), comp0, comp, c, root, Elements(open))
    && (forall x :: x in open ==> r.Contains(x))
    && size + |open| == |Members(comp, 0, |comp|, c)|
  }

  /** The first `j` slots of the row of `u` need no further look. */
  ghost predicate RowDone(r: Range, comp: seq<int>, u: nat, row: seq<nat>, j: nat) {
    forall k :: 0 <= k < j <= |row| && row[k] < |comp| && row[k] != u && r.Contains(row[k]) ==> comp[row[k]] != -1
  }

  lemma SpreadStart(g: Digraph, r: Range, comp: seq<int>, c: nat, root: nat)
    requires Sealed(Reversed(g), comp, c) && root < |g| && comp[root] == -1 && r.Contains(root)
    ensures Spreading(g, r, comp, comp[root := c], c, root, [root], 0)
  {
    SweepStart(Reversed(g), comp, c, root);
    assert Elements([root]) == {root};
    assert Members(comp[root := c], 0, |comp|, c) == {root};
  }

  lemma SpreadPop(g: Digraph, r: Range, comp0: seq<int>, comp: seq<int>, c: nat, root: nat, open: seq<nat>, size: int)
    requires Spreading(g, r, comp0, comp, c, root, open, size) && open != []
    ensures var u := open[|open| - 1]; u < |g| == |comp| && r.Contains(u)
  {
    var u := open[|open| - 1];
    assert u in open && u in Elements(open);
  }

  lemma OneMore(comp: seq<int>, c: nat, v: nat)
    requires v < |comp| && comp[v] != c
    ensures |Members(comp[v := c], 0, |comp|, c)| == |Members(comp, 0, |comp|, c)| + 1
  {
    assert Members(comp[v := c], 0, |comp|, c) == Members(comp, 0, |comp|, c) + {v};
  }

  lemma RowPush(r: Range, comp: seq<int>, c: nat, u: nat, row: seq<nat>, j: nat)
    requires RowDone(r, comp, u, row, j) && j < |row| && row[j] < |comp|
    ensures RowDone(r, comp[row[j] := c], u, row, j + 1)
  {
  }

  /** Slot `j` of the row of the vertex `u` just popped leads to an unlabelled vertex. */
  lemma SpreadPush(rows: Rows, r: Range, comp0: seq<int>, comp: seq<int>, c: nat, root: nat, st: seq<nat>, u: nat,
      size: int, j: nat)
    requires Spreading(Induced(rows, r), r, comp0, comp, c, root, st + [u], size)
    requires u < |rows| == |comp| && j < |rows[u]| && RowDone(r, comp, u, rows[u], j)
    requires var v := rows[u][j]; v < |rows| && r.Contains(v) && comp[v] < 0
    ensures var v := rows[u][j];
      && Spreading(Induced(rows, r), r, comp0, comp[v := c], c, root, st + [v] + [u], size)
      && Unlabelled(comp[v := c]) < Unlabelled(comp)
      && RowDone(r, comp[v := c], u, rows[u], j + 1)
  {
    hide Reversed, Reach, Members;
    var g, v := Induced(rows, r), rows[u][j];
    assert u in st + [u];
    assert u in Elements(st + [u]);
    assert Edge(g, u, v);
    ReversedEdge(g, v, u);
    SweepLabel(Reversed(g), comp0, comp, c, root, Elements(st + [u]), u, v);
    assert Elements(st + [v] + [u]) == Elements(st + [u]) + {v};
    OneMore(comp, c, v);
    RowPush(r, comp, c, u, rows[u], j);
  }

  lemma SpreadClose(rows: Rows, r: Range, comp0: seq<int>, comp: seq<int>, c: nat, root: nat, st: seq<nat>, u: nat,
      size: int)
    requires Spreading(Induced(rows, r), r, comp0, comp, c, root, st + [u], size)
    requires u < |rows| == |comp| && RowDone(r, comp, u, rows[u], |rows[u]|)
    ensures Spreading(Induced(rows, r), r, comp0, comp, c, root, st, size + 1)
  {
    hide Reversed;
    var g := Induced(rows, r);
    assert u in st + [u];
    assert Elements(st + [u]) == Elements(st) + {u};
    assert u in Elements(st + [u]);
    forall v: nat | Edge(Reversed(g), v, u) ensures comp[v] != -1 {
      ReversedEdge(g, v, u);
      var k :| 0 <= k < |rows[u]| && rows[u][k] == v;
    }
    SweepClose(Reversed(g), comp0, comp, c, root, Elements(st), u);
  }

  /** Between two searches: every label class has its root, roots come in increasing
      order, a labelled vertex is labelled for its least source, and sizes are right. */
  ghost predicate Claimed(g: Digraph, comp: seq<int>, roots: seq<nat>, sizes: seq<nat>, lo: int, i: int) {
    && 0 <= lo && Sealed(Reversed(g), comp, |roots|)
    && (forall s: nat :: lo <= s < i && s < |comp| ==> comp[s] != -1)
    && (forall c :: 0 <= c < |roots| ==> roots[c] < |g| && roots[c] < i && comp[roots[c]] == c)
    && (forall c, d :: 0 <= c < d < |roots| ==> roots[c] < roots[d])
    && (forall x: nat :: x < |comp| && comp[x] != -1 ==> LeastSource(g, lo, roots[comp[x]], x))
    && |sizes| == |roots| && forall c :: 0 <= c < |sizes| ==> sizes[c] == |Members(comp, 0, |comp|, c)|
  }

  lemma SpreadDone(g: Digraph, r: Range, comp0: seq<int>, comp: seq<int>, roots: seq<nat>, sizes: seq<nat>, lo: int,
      i: nat, size: nat)
    requires Claimed(g, comp0, roots, sizes, lo, i) && lo <= i < |g| && comp0[i] == -1
    requires Spreading(g, r, comp0, comp, |roots|, i, [], size)
    ensures Claimed(g, comp, roots + [i], sizes + [size], lo, i + 1)
  {
    hide Reach, Reversed;
    var h, c := Reversed(g), |roots|;
    assert Elements([]) == {};
    SweepDone(h, comp0, comp, c, i);
    var roots' := roots + [i];
    forall x: nat | x < |comp| && comp[x] != -1 ensures LeastSource(g, lo, roots'[comp[x]], x) {
      if comp0[x] == -1 {
        ReversedReach(g, x, i);
        forall t: nat | lo <= t < i ensures !Reach(g, t, x) {
          ReversedReach(g, x, t);
          if Reach(g, t, x) {
            LabelledFromBehind(h, comp0, c, x, t);
          }
        }
      }
    }
    forall u: nat, v: nat | Edge(h, u, v) && comp[v] != -1 ensures comp[u] != -1 {
      if comp0[v] == -1 {
        EdgeReach(h, u, v);
        ReachTrans(h, u, v, i);
      }
    }
    forall d | 0 <= d < c ensures Members(comp, 0, |comp|, d) == Members(comp0, 0, |comp0|, d) {}
    ReachSelf(h, i);
  }

  /** In-range vertices, and only these, are labelled by their least source; `roots[c]` is
      the source that label `c` stands for. */
  ghost predicate Rooted(rows: Rows, r: Range, comp: seq<int>, roots: seq<nat>, sizes: seq<nat>) {
    && |comp| == |rows| && |sizes| == |roots|
    && (forall x: nat :: x < |rows| ==> -1 <= comp[x] < |roots| && (comp[x] != -1 <==> r.Contains(x)))
    && (forall c :: 0 <= c < |roots| ==> roots[c] < |rows| && comp[roots[c]] == c)
    && (forall c, d :: 0 <= c < d < |roots| ==> roots[c] < roots[d])
    && (forall x: nat :: x < |rows| && comp[x] != -1 ==> LeastSource(Induced(rows, r), r.First(), roots[comp[x]], x))
    && (forall c :: 0 <= c < |sizes| ==> sizes[c] == |Members(comp, 0, |comp|, c)|)
  }

  /** What the tool delivers. */
  ghost predicate LabelsBySource(rows: Rows, r: Range, comp: seq<int>, sizes: seq<nat>) {
    exists roots: seq<nat> :: Rooted(rows, r, comp, roots, sizes)
  }

  /** A vertex that no smaller one in the range reaches. */
  ghost function Origins(rows: Rows, r: Range): set<nat> {
    set s | s in Below(|rows|) && InRange(|rows|, r, s) && LeastSource(Induced(rows, r), r.First(), s, s)
  }

  /** The in-range vertices whose least source is `s`. */
  ghost function Territory(rows: Rows, r: Range, s: nat): set<nat> {
    set x | x in Below(|rows|) && InRange(|rows|, r, x) && LeastSource(Induced(rows, r), r.First(), s, x)
  }

  /** Label counter and sizes fit the 32-bit signed integers that hold them. */
  ghost predicate CountersFit(count: int, sizes: seq<nat>) {
    count <= INT_MAX && forall c :: 0 <= c < |sizes| ==> sizes[c] <= INT_MAX
  }

  ghost predicate FewAndSmall(rows: Rows, r: Range) {
    |Origins(rows, r)| <= INT_MAX && forall s :: s in Origins(rows, r) ==> |Territory(rows, r, s)| <= INT_MAX
  }

  lemma OneSource(g: Digraph, lo: int, s: nat, t: nat, x: nat)
    requires LeastSource(g, lo, s, x) && LeastSource(g, lo, t, x)
    ensures s == t
  {
  }

  lemma RootsAreOrigins(rows: Rows, r: Range, comp: seq<int>, roots: seq<nat>, sizes: seq<nat>)
    requires Rooted(rows, r, comp, roots, sizes)
    ensures Origins(rows, r) == Elements(roots) && |Origins(rows, r)| == |roots|
  {
    hide LeastSource;
    var g := Induced(rows, r);
    forall s ensures s in Origins(rows, r) <==> s in Elements(roots) {
      if s in Origins(rows, r) {
        OneSource(g, r.First(), s, roots[comp[s]], s);
      }
      if s in Elements(roots) {
        var c :| 0 <= c < |roots| && roots[c] == s;
        assert comp[s] == c;
      }
    }
    assert NoDuplicates(roots);
    ElementsSize(roots);
  }

  lemma SizeOfTerritory(rows: Rows, r: Range, comp: seq<int>, roots: seq<nat>, sizes: seq<nat>, c: nat)
    requires Rooted(rows, r, comp, roots, sizes) && c < |roots|
    ensures sizes[c] == |Territory(rows, r, roots[c])|
  {
    hide LeastSource;
    var g := Induced(rows, r);
    forall x ensures x in Territory(rows, r, roots[c]) <==> x in Members(comp, 0, |comp|, c) {
      if x in Territory(rows, r, roots[c]) {
        OneSource(g, r.First(), roots[c], roots[comp[x]], x);
        assert comp[roots[comp[x]]] == comp[x];
      }
    }
    assert Territory(rows, r, roots[c]) == Members(comp, 0, |comp|, c);
  }

  lemma RootedSizes(rows: Rows, r: Range, comp: seq<int>, roots: seq<nat>, sizes: seq<nat>)
    requires Rooted(rows, r, comp, roots, sizes)
    ensures |sizes| == |roots|
  {
  }

  /** Counter, labels and sizes fit exactly when there are at most `INT_MAX` origins and
      none of them is the least source of more than `INT_MAX` vertices. */
  lemma CountersFitExactly(rows: Rows, r: Range, comp: seq<int>, sizes: seq<nat>)
    requires LabelsBySource(rows, r, comp, sizes)
    ensures CountersFit(|sizes|, sizes) <==> FewAndSmall(rows, r)
  {
    hide Rooted, Territory, Origins;
    var roots :| Rooted(rows, r, comp, roots, sizes);
    RootsAreOrigins(rows, r, comp, roots, sizes);
    assert |sizes| == |roots| by { RootedSizes(rows, r, comp, roots, sizes); }
    forall c: nat | c < |roots| ensures sizes[c] == |Territory(rows, r, roots[c])| && roots[c] in Origins(rows, r) {
      SizeOfTerritory(rows, r, comp, roots, sizes, c);
    }
  }

  /** A range of at most 2^31 - 1 rows is always enough. */
  lemma ShortRangeIsFewAndSmall(rows: Rows, r: Range)
    requires r.Valid(|rows|) && r.Last(|rows|) + 1 - r.First() <= 0x7FFF_FFFF
    ensures FewAndSmall(rows, r)
  {
    hide LeastSource, RowsOf;
    var all := RowsOf(Induced(rows, r), r);
    SubsetSize(Origins(rows, r), all);
    forall s | s in Origins(rows, r) ensures |Territory(rows, r, s)| <= INT_MAX {
      SubsetSize(Territory(rows, r, s), all);
    }
  }

  lemma EdgelessSource(g: Digraph, s: nat)
    requires forall u: nat, v: nat :: !Edge(g, u, v)
    ensures LeastSource(g, 0, s, s)
  {
    hide Reach, Edge;
    ReachSelf(g, s);
    forall t: nat | t < s ensures !Reach(g, t, s) {
      if Reach(g, t, s) { var w := LastEdge(g, t, s); }
    }
  }

  /** A graph of 2^31 + 2 rows without edges has too many origins. */
  lemma EdgelessHasManyOrigins(rows: Rows, r: Range)
    requires rows == seq(0x8000_0002, _ => []) && !r.on
    ensures !FewAndSmall(rows, r)
  {
    hide LeastSource, Territory, Edge;
    var n := |rows|;
    forall s | s in Below(n) ensures s in Origins(rows, r) {
      EdgelessSource(Induced(rows, r), s);
    }
    SubsetSize(Below(n), Origins(rows, r));
  }

  lemma RowStart(r: Range, comp: seq<int>, u: nat, row: seq<nat>)
    ensures RowDone(r, comp, u, row, 0)
  {
  }

  lemma RowSkip(r: Range, comp: seq<int>, u: nat, row: seq<nat>, j: nat)
    requires RowDone(r, comp, u, row, j) && j < |row|
    requires row[j] >= |comp| || row[j] == u || !r.Contains(row[j]) || comp[row[j]] != -1
    ensures RowDone(r, comp, u, row, j + 1)
  {
  }

  lemma ClaimedStart(g: Digraph, comp: seq<int>, lo: nat)
    requires |comp| == |g| && forall x :: 0 <= x < |comp| ==> comp[x] == -1
    ensures Claimed(g, comp, [], [], lo, lo)
  {
  }

  lemma ClaimedSealed(g: Digraph, comp: seq<int>, roots: seq<nat>, sizes: seq<nat>, lo: int, i: nat)
    requires Claimed(g, comp, roots, sizes, lo, i) && i < |comp|
    ensures Sealed(Reversed(g), comp, |roots|) && comp[i] >= -1
    ensures comp[i] != -1 ==> Claimed(g, comp, roots, sizes, lo, i + 1)
  {
  }

  lemma AllClaimed(rows: Rows, r: Range, comp: seq<int>, roots: seq<nat>, sizes: seq<nat>)
    requires r.Valid(|rows|) && Claimed(Induced(rows, r), comp, roots, sizes, r.First(), r.Last(|rows|) + 1)
    ensures Rooted(rows, r, comp, roots, sizes)
  {
    var g := Induced(rows, r);
    forall x: nat | x < |rows| && comp[x] != -1 ensures r.Contains(x) {
      var s := roots[comp[x]];
      assert LeastSource(g, r.First(), s, x);
      if s != x {
        var w := LastEdge(g, s, x);
      }
    }
  }

  method Wcc(g: Graph, r: Range) returns (comp: array<int>, count: nat, sizes: seq<nat>)
    requires g.Valid() && r.Valid(g.nRows)
    ensures LabelsBySource(g.AllRows(), r, comp[..], sizes) && count == |sizes|
    // the program's own integers are wide enough exactly on these graphs
    ensures CountersFit(count, sizes) <==> FewAndSmall(g.AllRows(), r)
  {
    hide Claimed, Spreading, Rooted, Sealed, RowDone, CountersFit, FewAndSmall;
    ghost var rows := g.AllRows();
    ghost var h := Induced(rows, r);
    comp := new int[g.nRows](_ => -1);
    ghost var labels := comp[..];
    count, sizes := 0, [];
    ghost var roots: seq<nat> := [];
    var s, e := r.First(), r.Last(g.nRows);
    ClaimedStart(h, labels, s);
    for i := s to e + 1
      invariant comp[..] == labels && count == |sizes| == |roots|
      invariant Claimed(h, labels, roots, sizes, s, i)
    {
      ClaimedSealed(h, labels, roots, sizes, s, i);
      if comp[i] >= 0 { continue; }
      var componentId := count;
      count := count + 1;
      var componentSize := 0;
      ghost var before := labels;
      SpreadStart(h, r, labels, componentId, i);
      var st: seq<nat> := [i];
      comp[i] := componentId;
      labels := labels[i := componentId];
      assert comp[..] == labels;
      while st != []
        invariant comp[..] == labels && Spreading(h, r, before, labels, componentId, i, st, componentSize)
        decreases Unlabelled(labels), |st|
      {
        SpreadPop(h, r, before, labels, componentId, i, st, componentSize);
        var u := st[|st| - 1];
        assert st == st[..|st| - 1] + [u];
        st := st[..|st| - 1];
        componentSize := componentSize + 1;
        ghost var popped, height := labels, |st|;
        RowStart(r, labels, u, rows[u]);
        for j := 0 to g.rowDegree[u]
          invariant comp[..] == labels && Spreading(h, r, before, labels, componentId, i, st + [u], componentSize - 1)
          invariant Unlabelled(labels) < Unlabelled(popped) || (labels == popped && |st| == height)
          invariant RowDone(r, labels, u, rows[u], j)
        {
          var v := g.Neighbors(u)[j];
          assert v == rows[u][j];
          if v >= g.nRows || v == u || !r.Contains(v) || comp[v] >= 0 {
            RowSkip(r, labels, u, rows[u], j);
            continue;
          }
          SpreadPush(rows, r, before, labels, componentId, i, st, u, componentSize - 1, j);
          comp[v] := componentId;
          labels := labels[v := componentId];
          assert comp[..] == labels;
          st := st + [v];
        }
        SpreadClose(rows, r, before, labels, componentId, i, st, u, componentSize - 1);
      }
      SpreadDone(h, r, before, labels, roots, sizes, s, i, componentSize);
      sizes := sizes + [componentSize];
      roots := roots + [i];
    }
    AllClaimed(rows, r, labels, roots, sizes);
    CountersFitExactly(rows, r, labels, sizes);
  }

  /** The tool's labels are those of the weak components of the range. */
  ghost predicate LabelsAreWeak(rows: Rows, r: Range, comp: seq<int>)
    requires |comp| == |rows|
  {
    forall u: nat, v: nat :: u < |rows| && v < |rows| && r.Contains(u) && r.Contains(v) ==>
      (comp[u] == comp[v] <==> Weak(Induced(rows, r), u, v))
  }

  /** `m` is the smallest in-range vertex weakly connected to `v`. */
  ghost predicate LeastWeak(rows: Rows, r: Range, m: nat, v: nat) {
    && InRange(|rows|, r, m) && Weak(Induced(rows, r), m, v)
    && forall x: nat :: InRange(|rows|, r, x) && Weak(Induced(rows, r), x, v) ==> m <= x
  }

  /** The smallest vertex of every weak component reaches all of that component. */
  ghost predicate LeastReachesAll(rows: Rows, r: Range) {
    forall m: nat, v: nat :: InRange(|rows|, r, v) && LeastWeak(rows, r, m, v) ==> Reach(Induced(rows, r), m, v)
  }

  lemma {:induction false} FindLeast(rows: Rows, r: Range, x: nat, v: nat) returns (m: nat)
    requires InRange(|rows|, r, x) && Weak(Induced(rows, r), x, v)
    ensures LeastWeak(rows, r, m, v)
    decreases x
  {
    if y: nat :| y < x && InRange(|rows|, r, y) && Weak(Induced(rows, r), y, v) {
      m := FindLeast(rows, r, y, v);
    } else {
      m := x;
    }
  }

  lemma SourceOf(rows: Rows, r: Range, comp: seq<int>, roots: seq<nat>, sizes: seq<nat>, v: nat)
    requires r.Valid(|rows|) && Rooted(rows, r, comp, roots, sizes) && InRange(|rows|, r, v)
    ensures |comp| == |rows| && 0 <= comp[v] < |roots| && InRange(|rows|, r, roots[comp[v]])
    ensures LeastSource(Induced(rows, r), r.First(), roots[comp[v]], v)
  {
  }

  lemma Labels(rows: Rows, r: Range, comp: seq<int>, sizes: seq<nat>) returns (roots: seq<nat>)
    requires r.Valid(|rows|) && LabelsBySource(rows, r, comp, sizes)
    ensures Rooted(rows, r, comp, roots, sizes) && |comp| == |rows|
    ensures forall x: nat :: InRange(|rows|, r, x) ==> 0 <= comp[x] < |roots| == |sizes|
  {
    roots :| Rooted(rows, r, comp, roots, sizes);
  }

  /** The printed sizes add up to the length of the range. */
  lemma SizesAddUp(rows: Rows, r: Range, comp: seq<int>, sizes: seq<nat>)
    requires r.Valid(|rows|) && LabelsBySource(rows, r, comp, sizes)
    ensures Sum(sizes) == r.Last(|rows|) + 1 - r.First()
  {
    hide LeastSource;
    var roots := Labels(rows, r, comp, sizes);
    var n := |rows|;
    SumOfClasses(comp, 0, n, sizes);
    AllLabelled(comp, r.First(), r.Last(n) + 1);
    assert LabelledBelow(comp, 0, n, |sizes|) == LabelledIn(comp, r.First(), r.Last(n) + 1);
  }

  lemma WeakTrans(g: Digraph, u: nat, v: nat, w: nat)
    requires Weak(g, u, v) && Weak(g, v, w)
    ensures Weak(g, u, w)
  {
    ReachTrans(Undirected(g), u, v, w);
  }

  /** Each label class lies in one weak component. */
  lemma SameLabelIsWeak(rows: Rows, r: Range, comp: seq<int>, sizes: seq<nat>, u: nat, v: nat)
    requires r.Valid(|rows|) && LabelsBySource(rows, r, comp, sizes) && |comp| == |rows|
    requires InRange(|rows|, r, u) && InRange(|rows|, r, v) && comp[u] == comp[v]
    ensures Weak(Induced(rows, r), u, v)
  {
    hide Rooted, Weak, LabelsBySource;
    var roots := Labels(rows, r, comp, sizes);
    var g := Induced(rows, r);
    SourceOf(rows, r, comp, roots, sizes, u);
    SourceOf(rows, r, comp, roots, sizes, v);
    var s := roots[comp[u]];
    ReachIsWeak(g, s, u);
    ReachIsWeak(g, s, v);
    WeakSymmetric(g, s, u);
    WeakTrans(g, u, s, v);
  }

  /** In a component whose smallest vertex `m` reaches `v`, that vertex is the root of `v`. */
  lemma LeastIsRoot(rows: Rows, r: Range, comp: seq<int>, roots: seq<nat>, sizes: seq<nat>, m: nat, v: nat)
    requires r.Valid(|rows|) && Rooted(rows, r, comp, roots, sizes)
    requires InRange(|rows|, r, v) && LeastWeak(rows, r, m, v)
    ensures roots[comp[v]] == m <==> Reach(Induced(rows, r), m, v)
  {
    hide Rooted, Weak, Reach;
    var g := Induced(rows, r);
    SourceOf(rows, r, comp, roots, sizes, v);
    ReachIsWeak(g, roots[comp[v]], v);
  }

  lemma SameRoot(rows: Rows, r: Range, comp: seq<int>, roots: seq<nat>, sizes: seq<nat>, u: nat, v: nat)
    requires r.Valid(|rows|) && Rooted(rows, r, comp, roots, sizes) && LeastReachesAll(rows, r)
    requires InRange(|rows|, r, u) && InRange(|rows|, r, v) && Weak(Induced(rows, r), u, v)
    ensures comp[u] == comp[v]
  {
    hide Weak, Reach;
    var g := Induced(rows, r);
    var m := FindLeast(rows, r, u, v);
    WeakSymmetric(g, u, v);
    WeakTrans(g, m, v, u);
    forall x: nat | InRange(|rows|, r, x) && Weak(g, x, u) ensures m <= x { WeakTrans(g, x, u, v); }
    assert LeastWeak(rows, r, m, u);
    LeastIsRoot(rows, r, comp, roots, sizes, m, u);
    LeastIsRoot(rows, r, comp, roots, sizes, m, v);
  }

  /** `wcc` computes weak components exactly on the graphs in which the smallest vertex
      of every weak component reaches the whole component. */
  lemma WeakExactlyWhenLeastReachesAll(rows: Rows, r: Range, comp: seq<int>, sizes: seq<nat>)
    requires r.Valid(|rows|) && LabelsBySource(rows, r, comp, sizes) && |comp| == |rows|
    ensures LabelsAreWeak(rows, r, comp) <==> LeastReachesAll(rows, r)
  {
    hide Rooted, Weak, Reach, LabelsBySource;
    var roots := Labels(rows, r, comp, sizes);
    var g := Induced(rows, r);
    if LabelsAreWeak(rows, r, comp) {
      forall m: nat, v: nat | InRange(|rows|, r, v) && LeastWeak(rows, r, m, v) ensures Reach(g, m, v) {
        SourceOf(rows, r, comp, roots, sizes, m);
        var s := roots[comp[m]];
        ReachIsWeak(g, s, m);
        WeakTrans(g, s, m, v);
        ReachSelf(g, m);
        LeastIsRoot(rows, r, comp, roots, sizes, m, v);
      }
    }
    if LeastReachesAll(rows, r) {
      forall u: nat, v: nat | InRange(|rows|, r, u) && InRange(|rows|, r, v)
        ensures comp[u] == comp[v] <==> Weak(g, u, v)
      {
        if comp[u] == comp[v] {
          SameLabelIsWeak(rows, r, comp, sizes, u, v);
        } else if Weak(g, u, v) {
          SameRoot(rows, r, comp, roots, sizes, u, v);
        }
      }
    }
  }

  lemma OneBackwardEdge(g: Digraph)
    requires g == Induced([[], [0]], Range(0, -1, false))
    ensures Weak(g, 0, 1) && !Reach(g, 0, 1)
  {
    hide Weak, Reach;
    assert Edge(g, 1, 0);
    EdgeReach(g, 1, 0);
    ReachIsWeak(g, 1, 0);
    WeakSymmetric(g, 1, 0);
    if Reach(g, 0, 1) {
      var w := LastEdge(g, 0, 1);
    }
  }

  /** The single edge 1 -> 0 already gets two labels. */
  lemma OneBackwardEdgeGetsTwoLabels(comp: seq<int>, sizes: seq<nat>)
    requires LabelsBySource([[], [0]], Range(0, -1, false), comp, sizes) && |comp| == 2
    ensures Weak(Induced([[], [0]], Range(0, -1, false)), 0, 1) && comp[0] != comp[1]
  {
    hide Weak, Reach, Rooted, LabelsBySource;
    var rows: Rows, r := [[], [0]], Range(0, -1, false);
    var roots := Labels(rows, r, comp, sizes);
    OneBackwardEdge(Induced(rows, r));
    SourceOf(rows, r, comp, roots, sizes, 0);
    SourceOf(rows, r, comp, roots, sizes, 1);
    ReachSelf(Induced(rows, r), 0);
  }
}
