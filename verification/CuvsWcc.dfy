/** `compute_wcc` of nvidia-cuvs/cpp/bench/tools/connected_components_scc.cpp. */
module CuvsWcc {
  import opened Digraphs
  import opened FiniteSets
  import opened Adjacency
  import opened Components
  import opened ComponentSizes
  import opened WeakComponents

  /** The edge lists after rows `lo .. u - 1` and the first `j` slots of row `u`
      have been scanned record `a -> b`. */
  ghost predicate Recorded(rows: Rows, lo: int, u: nat, j: nat, a: nat, b: nat) {
    && a < |rows| && b < |rows| && a != b && lo <= a
    && ((a < u && b in rows[a]) || (a == u && j <= |rows[u]| && b in rows[u][..j]))
  }

  ghost predicate Linked(rows: Rows, lo: int, u: nat, j: nat, und: Rows) {
    && |und| == |rows|
    && forall a: nat, b: nat :: a < |rows| ==>
      (b in und[a] <==> Recorded(rows, lo, u, j, a, b) || Recorded(rows, lo, u, j, b, a))
  }

  lemma LinkStep(rows: Rows, lo: int, u: nat, j: nat, und: Rows)
    requires Linked(rows, lo, u, j, und) && lo <= u < |rows| && j < |rows[u]|
    ensures var v := rows[u][j];
      Linked(rows, lo, u, j + 1,
             if v >= |rows| || v == u then und else und[u := und[u] + [v]][v := und[v] + [u]])
  {
    var v := rows[u][j];
    assert rows[u][..j + 1] == rows[u][..j] + [v];
    forall a: nat, b: nat
      ensures Recorded(rows, lo, u, j + 1, a, b) <==>
        Recorded(rows, lo, u, j, a, b) || (v < |rows| && v != u && a == u && b == v) {}
  }

  lemma LinkRow(rows: Rows, lo: int, u: nat, und: Rows)
    requires lo <= u < |rows| && Linked(rows, lo, u, |rows[u]|, und)
    ensures Linked(rows, lo, u + 1, 0, und)
  {
    assert rows[u][..|rows[u]|] == rows[u];
    forall a: nat, b: nat
      ensures Recorded(rows, lo, u + 1, 0, a, b) <==> Recorded(rows, lo, u, |rows[u]|, a, b) {}
  }

  /** The lists hold exactly the undirected edges, self-loops aside. */
  ghost predicate IsUndirected(g: Digraph, und: Rows) {
    && |und| == |g|
    && forall a: nat, b: nat :: a < |g| ==> (b in und[a] <==> a != b && Edge(Undirected(g), a, b))
  }

  lemma Recorder(rows: Rows, r: Range, a: nat, b: nat)
    requires r.Valid(|rows|)
    ensures Recorded(rows, r.First(), r.Last(|rows|) + 1, 0, a, b) <==> a != b && Edge(Outgoing(rows, r), a, b)
  {
    OutgoingEdge(rows, r, a, b);
    var u := r.Last(|rows|) + 1;
    if u < |rows| { assert rows[u][..0] == []; }
  }

  lemma LinkDone(rows: Rows, r: Range, und: Rows)
    requires r.Valid(|rows|) && Linked(rows, r.First(), r.Last(|rows|) + 1, 0, und)
    ensures IsUndirected(Outgoing(rows, r), und)
  {
    var g := Outgoing(rows, r);
    forall a: nat, b: nat | a < |g| ensures b in und[a] <==> a != b && Edge(Undirected(g), a, b) {
      UndirectedEdge(g, a, b);
      OutgoingEdge(rows, r, a, b);
      OutgoingEdge(rows, r, b, a);
      Recorder(rows, r, a, b);
      Recorder(rows, r, b, a);
    }
  }

  lemma LinkStart(rows: Rows, lo: nat, und: Rows)
    requires |und| == |rows| && forall a :: 0 <= a < |und| ==> und[a] == []
    ensures Linked(rows, lo, lo, 0, und)
  {
    if lo < |rows| { assert rows[lo][..0] == []; }
  }

  method BuildUndirected(G: CagraGraph, range: Range) returns (undirected: Rows)
    requires G.FitsInt() && range.Valid(G.nRows)
    ensures IsUndirected(Outgoing(G.AllRows(), range), undirected)
  {
    hide Linked, IsUndirected, Outgoing;
    ghost var rows := G.AllRows();
    undirected := seq(G.nRows, _ => []);
    var start, end := range.First(), range.Last(G.nRows);
    LinkStart(rows, start, undirected);
    for u := start to end + 1
      invariant |undirected| == G.nRows && Linked(rows, start, u, 0, undirected)
    {
      var nbrs := G.Neighbors(u);
      for j := 0 to G.degree
        invariant |undirected| == G.nRows && Linked(rows, start, u, j, undirected)
      {
        var v := nbrs[j];
        assert v == rows[u][j];
        LinkStep(rows, start, u, j, undirected);
        if v >= G.nRows || v == u { continue; }
        undirected := undirected[u := undirected[u] + [v]];
        undirected := undirected[v := undirected[v] + [u]];
      }
      LinkRow(rows, start, u, undirected);
    }
    LinkDone(rows, range, undirected);
  }

  /** The flood from `root` in progress: vertices of `found` from position `p` on still
      have to be expanded. */
  ghost predicate Flooding(g: Digraph, comp0: seq<int>, comp: seq<int>, c: nat, root: nat, found: seq<nat>, p: nat) {
    p <= |found| && Sweeping(Undirected(g), comp0, comp, c, root, Elements(found[p..]))
  }

  lemma FloodStart(g: Digraph, comp: seq<int>, c: nat, root: nat)
    requires Labelling(Undirected(g), comp, c) && root < |g| && comp[root] == -1
    ensures Flooding(g, comp, comp[root := c], c, root, [root], 0)
  {
    SweepStart(Undirected(g), comp, c, root);
    assert Elements([root][0..]) == {root};
  }

  /** Slot `j` of the list of the vertex being expanded. */
  lemma FloodSlot(g: Digraph, und: Rows, comp0: seq<int>, comp: seq<int>, c: nat, root: nat, found: seq<nat>,
      p: nat, j: nat)
    requires IsUndirected(g, und) && Flooding(g, comp0, comp, c, root, found, p) && p < |found|
    ensures found[p] < |und| == |comp|
    ensures j < |und[found[p]]| ==>
      var v := und[found[p]][j];
      && v < |comp|
      && (comp[v] == -1 ==>
        && Flooding(g, comp0, comp[v := c], c, root, found + [v], p)
        && Unlabelled(comp[v := c]) < Unlabelled(comp))
  {
    hide Undirected;
    var u := found[p];
    assert u == found[p..][0];
    assert u in Elements(found[p..]);
    if j < |und[u]| {
      var v := und[u][j];
      assert v in und[u];
      UndirectedEdge(g, u, v);
      UndirectedEdge(g, v, u);
      if comp[v] == -1 {
        SweepLabel(Undirected(g), comp0, comp, c, root, Elements(found[p..]), u, v);
        assert (found + [v])[p..] == found[p..] + [v];
        assert Elements((found + [v])[p..]) == Elements(found[p..]) + {v};
      }
    }
  }

  /** The first `j` targets of a list are labelled. */
  ghost predicate Seen(comp: seq<int>, list: seq<nat>, j: nat) {
    forall k :: 0 <= k < j && k < |list| ==> list[k] < |comp| && comp[list[k]] != -1
  }

  lemma SeenNone(comp: seq<int>, list: seq<nat>)
    ensures Seen(comp, list, 0)
  {
  }

  lemma SeenStep(comp: seq<int>, list: seq<nat>, j: nat, c: nat)
    requires Seen(comp, list, j) && j < |list| && list[j] < |comp|
    ensures Seen(if comp[list[j]] == -1 then comp[list[j] := c] else comp, list, j + 1)
  {
  }

  lemma FloodNext(g: Digraph, und: Rows, comp0: seq<int>, comp: seq<int>, c: nat, root: nat, found: seq<nat>, p: nat)
    requires IsUndirected(g, und) && Flooding(g, comp0, comp, c, root, found, p) && p < |found|
    requires found[p] < |und| && Seen(comp, und[found[p]], |und[found[p]]|)
    ensures Flooding(g, comp0, comp, c, root, found, p + 1)
  {
    hide Undirected;
    var u := found[p];
    assert found[p..] == [u] + found[p + 1..];
    assert Elements(found[p..]) == Elements(found[p + 1..]) + {u};
    assert u in Elements(found[p..]);
    forall v: nat | Edge(Undirected(g), v, u) ensures comp[v] != -1 {
      UndirectedEdge(g, u, v);
      UndirectedEdge(g, v, u);
      assert v != u ==> v in und[u];
    }
    SweepClose(Undirected(g), comp0, comp, c, root, Elements(found[p + 1..]), u);
  }

  ghost predicate WeaklyFrom(g: Digraph, lo: int, hi: int, x: nat) {
    exists s: nat :: lo <= s < hi && Weak(g, x, s)
  }

  /** Between floods: in-range vertices below `i` are labelled, and everything labelled
      is weakly connected to one of them. */
  ghost predicate Flooded(g: Digraph, comp: seq<int>, c: nat, lo: int, i: int) {
    && Labelling(Undirected(g), comp, c) && 0 <= lo
    && (forall s: nat :: lo <= s < i && s < |comp| ==> comp[s] != -1)
    && (forall x: nat :: x < |comp| && comp[x] != -1 ==> WeaklyFrom(g, lo, i, x))
  }

  lemma FloodSkip(g: Digraph, comp: seq<int>, c: nat, lo: int, i: nat)
    requires Flooded(g, comp, c, lo, i) && i < |comp| && comp[i] != -1
    ensures Flooded(g, comp, c, lo, i + 1)
  {
    hide Labelling, Weak;
    forall x: nat | x < |comp| && comp[x] != -1 ensures WeaklyFrom(g, lo, i + 1, x) {
      var s: nat :| lo <= s < i && Weak(g, x, s);
    }
  }

  lemma FloodDone(g: Digraph, comp0: seq<int>, comp: seq<int>, c: nat, lo: int, i: nat, found: seq<nat>)
    requires Flooded(g, comp0, c, lo, i) && lo <= i < |g| && comp0[i] == -1
    requires Flooding(g, comp0, comp, c, i, found, |found|)
    ensures Flooded(g, comp, c + 1, lo, i + 1)
  {
    hide Undirected, Reach;
    var h := Undirected(g);
    assert Elements(found[|found|..]) == {};
    SweepDone(h, comp0, comp, c, i);
    forall x: nat | x < |g| && comp0[x] == -1 && Reach(h, x, i) ensures Scc(h, x, i) {
      WeakSymmetric(g, x, i);
    }
    AddComponent(h, comp0, c, i, comp);
    forall x: nat | x < |comp| && comp[x] != -1 ensures WeaklyFrom(g, lo, i + 1, x) {
      if comp0[x] != -1 {
        var s: nat :| lo <= s < i && Weak(g, x, s);
      } else {
        assert Weak(g, x, i);
      }
    }
    ReachSelf(h, i);
  }

  datatype WCCResult = WCCResult(numWcc: nat, comp: seq<int>, size: seq<nat>)

  /** Labels `0 .. numWcc - 1` go, equal exactly within a weak component of `g`, to the
      vertices connected with the range `[lo, hi)`, and sizes count in-range vertices. */
  ghost predicate CorrectWcc(g: Digraph, lo: int, hi: int, res: WCCResult) {
    && |res.comp| == |g| && |res.size| == res.numWcc
    && (forall c :: 0 <= c < res.numWcc ==> HasLabel(res.comp, c))
    && (forall x: nat :: x < |g| ==> -1 <= res.comp[x] < res.numWcc)
    && (forall x: nat :: x < |g| ==> (res.comp[x] != -1 <==> WeaklyFrom(g, lo, hi, x)))
    && (forall x: nat, y: nat :: x < |g| && y < |g| && res.comp[x] != -1 && res.comp[y] != -1 ==>
      (res.comp[x] == res.comp[y] <==> Weak(g, x, y)))
    && Counts(res.comp, lo, hi, res.size)
    && Sum(res.size) == hi - lo
  }

  lemma FloodedStart(g: Digraph, comp: seq<int>, lo: nat)
    requires |comp| == |g| && forall x :: 0 <= x < |comp| ==> comp[x] == -1
    ensures Flooded(g, comp, 0, lo, lo)
  {
  }

  lemma FloodReady(g: Digraph, comp: seq<int>, c: nat, lo: int, i: int)
    requires Flooded(g, comp, c, lo, i)
    ensures Labelling(Undirected(g), comp, c)
  {
  }

  lemma FloodedBounds(g: Digraph, comp: seq<int>, c: nat, lo: int, i: int)
    requires Flooded(g, comp, c, lo, i)
    ensures forall x :: 0 <= x < |comp| ==> comp[x] < c
  {
  }

  lemma WeaklyFromIsLabelled(g: Digraph, comp: seq<int>, c: nat, lo: int, hi: int, x: nat)
    requires Flooded(g, comp, c, lo, hi) && hi <= |g| && x < |g| && WeaklyFrom(g, lo, hi, x)
    ensures comp[x] != -1
  {
    var s: nat :| lo <= s < hi && Weak(g, x, s);
    LabelledFromBehind(Undirected(g), comp, c, x, s);
  }

  lemma WeakIsScc(g: Digraph, x: nat, y: nat)
    ensures Weak(g, x, y) <==> Scc(Undirected(g), x, y)
  {
    hide Undirected, Reach;
    if Weak(g, x, y) { WeakSymmetric(g, x, y); }
  }

  lemma AllFlooded(g: Digraph, lo: int, hi: int, res: WCCResult)
    requires Flooded(g, res.comp, res.numWcc, lo, hi) && lo <= hi <= |g|
    requires |res.size| == res.numWcc && Counts(res.comp, lo, hi, res.size)
    ensures CorrectWcc(g, lo, hi, res)
  {
    hide Weak, Scc, WeaklyFrom, HasLabel, Edge;
    forall x: nat | x < |g| && WeaklyFrom(g, lo, hi, x) ensures res.comp[x] != -1 {
      WeaklyFromIsLabelled(g, res.comp, res.numWcc, lo, hi, x);
    }
    forall x: nat, y: nat | x < |g| && y < |g| ensures Weak(g, x, y) <==> Scc(Undirected(g), x, y) {
      WeakIsScc(g, x, y);
    }
    AllLabelled(res.comp, lo, hi);
  }

  method ComputeWcc(G: CagraGraph, range: Range) returns (res: WCCResult)
    requires G.FitsInt() && range.Valid(G.nRows)
    ensures CorrectWcc(Outgoing(G.AllRows(), range), range.First(), range.Last(G.nRows) + 1, res)
  {
    hide Flooding, Flooded, IsUndirected, CorrectWcc, Counts, Seen;
    ghost var g := Outgoing(G.AllRows(), range);
    var comp := new int[G.nRows](_ => -1);
    ghost var labels := comp[..];
    var wccCount := 0;
    var undirected := BuildUndirected(G, range);
    var start, end := range.First(), range.Last(G.nRows);
    FloodedStart(g, labels, start);
    for i := start to end + 1
      invariant comp[..] == labels && wccCount >= 0 && Flooded(g, labels, wccCount, start, i)
    {
      if comp[i] != -1 {
        FloodSkip(g, labels, wccCount, start, i);
        continue;
      }
      ghost var before := labels;
      FloodReady(g, labels, wccCount, start, i);
      FloodStart(g, labels, wccCount, i);
      comp[i] := wccCount;
      labels := labels[i := wccCount];
      assert comp[..] == labels;
      var stack: seq<nat> := [i];
      var p := 0;
      while p < |stack|
        invariant comp[..] == labels && 0 <= p <= |stack| && Flooding(g, before, labels, wccCount, i, stack, p)
        decreases Unlabelled(labels), |stack| - p
      {
        var u := stack[p];
        FloodSlot(g, undirected, before, labels, wccCount, i, stack, p, 0);
        SeenNone(labels, undirected[u]);
        ghost var found, popped := stack, labels;
        for j := 0 to |undirected[u]|
          invariant comp[..] == labels && p < |stack| && stack[p] == u
          invariant Flooding(g, before, labels, wccCount, i, stack, p)
          invariant Unlabelled(labels) < Unlabelled(popped) || (labels == popped && stack == found)
          invariant Seen(labels, undirected[u], j)
        {
          var v := undirected[u][j];
          FloodSlot(g, undirected, before, labels, wccCount, i, stack, p, j);
          SeenStep(labels, undirected[u], j, wccCount);
          if comp[v] == -1 {
            comp[v] := wccCount;
            labels := labels[v := wccCount];
            assert comp[..] == labels;
            stack := stack + [v];
          }
        }
        FloodNext(g, undirected, before, labels, wccCount, i, stack, p);
        p := p + 1;
      }
      FloodDone(g, before, labels, wccCount, start, i, stack);
      wccCount := wccCount + 1;
    }
    FloodedBounds(g, labels, wccCount, start, end + 1);
    var sizes := CountSizes(comp, wccCount, start, end);
    res := WCCResult(wccCount, comp[..], sizes);
    AllFlooded(g, start, end + 1, res);
  }
}
