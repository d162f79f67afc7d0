/** The iterative Kosaraju algorithm of fda2/fda2_tools/connected_components_scc.cpp. */
module Kosaraju {
  import opened Digraphs
  import opened FiniteSets
  import opened Adjacency
  import opened FinishingOrder
  import opened FrameSearch
  import opened Components
  import opened LabelWidths
  import opened Transpose

  /** A labelling is right when the in-range vertices carry the labels `0 .. cnt - 1`,
      all of them in use, two of them equal exactly when the vertices reach each other
      inside the range, and all other vertices carry -1. */
  ghost predicate CorrectLabels(rows: Rows, r: Range, comp: seq<int>, cnt: nat) {
    LabelsRange(Induced(rows, r), r, comp, cnt)
  }

  ghost predicate FinishesAll(rows: Rows, r: Range, order: seq<nat>) {
    && NoDuplicates(order)
    && (forall v: nat :: v in order <==> v < |rows| && r.Contains(v))
    && Finishing(Induced(rows, r), order)
  }

  /** Pass 2 after the finished vertices from position `i` on have been processed. */
  ghost predicate PartlyLabelled(rows: Rows, r: Range, order: seq<nat>, i: nat, comp: seq<int>, cnt: nat) {
    && Labelling(Induced(rows, r), comp, cnt)
    && |comp| == |rows|
    && (forall q :: i <= q < |order| ==> order[q] < |comp| && comp[order[q]] != -1)
    && (forall x: nat :: x < |comp| && comp[x] != -1 ==> x in order)
  }

  /** A sweep whose worklist `open` holds in-range vertices. */
  ghost predicate Working(rows: Rows, r: Range, comp0: seq<int>, comp: seq<int>, c: nat, root: nat, open: seq<nat>) {
    && Sweeping(Induced(rows, r), comp0, comp, c, root, Elements(open))
    && forall x :: x in open ==> r.Contains(x)
  }

  lemma WorkStart(rows: Rows, r: Range, comp: seq<int>, c: nat, root: nat)
    requires Labelling(Induced(rows, r), comp, c)
    requires root < |comp| && comp[root] == -1 && r.Contains(root)
    ensures Working(rows, r, comp, comp[root := c], c, root, [root])
  {
    SweepStart(Induced(rows, r), comp, c, root);
    assert Elements([root]) == {root};
  }

  /** Slot `j` of the reverse row of the vertex `u` just popped. */
  lemma WorkSlot(rows: Rows, r: Range, comp0: seq<int>, comp: seq<int>, c: nat, root: nat, st: seq<nat>, u: nat, j: nat)
    requires Working(rows, r, comp0, comp, c, root, st + [u])
    ensures u < |rows| == |comp|
    ensures j < |Transposed(rows)[u]| ==>
      var v := Transposed(rows)[u][j];
      && v < |rows|
      && (r.Contains(v) && comp[v] == -1 ==>
        && Working(rows, r, comp0, comp[v := c], c, root, st + [v] + [u])
        && Unlabelled(comp[v := c]) < Unlabelled(comp))
  {
    assert u in st + [u] && u in Elements(st + [u]);
    if j < |Transposed(rows)[u]| {
      var v := Transposed(rows)[u][j];
      IncomingMember(rows, u, |rows|, v);
      if r.Contains(v) && comp[v] == -1 {
        SweepLabel(Induced(rows, r), comp0, comp, c, root, Elements(st + [u]), u, v);
        assert Elements(st + [v] + [u]) == Elements(st + [u]) + {v};
      }
    }
  }

  lemma WorkClose(rows: Rows, r: Range, comp0: seq<int>, comp: seq<int>, c: nat, root: nat, st: seq<nat>, u: nat)
    requires Working(rows, r, comp0, comp, c, root, st + [u])
    requires u < |rows| && |comp| == |rows|
    requires forall v :: v in Transposed(rows)[u] && r.Contains(v) ==> v < |comp| && comp[v] != -1
    ensures Working(rows, r, comp0, comp, c, root, st)
  {
    assert u in st + [u] && Elements(st + [u]) == Elements(st) + {u};
    assert u in Elements(st + [u]);
    forall v: nat | Edge(Induced(rows, r), v, u) ensures comp[v] != -1 {
      IncomingMember(rows, u, |rows|, v);
    }
    SweepClose(Induced(rows, r), comp0, comp, c, root, Elements(st), u);
  }

  ghost predicate IsSweep(g: Digraph, comp: seq<int>, comp': seq<int>, c: nat, root: nat) {
    && |comp| == |comp'|
    && forall x: nat :: x < |comp| ==> comp'[x] == if comp[x] == -1 && Reach(g, x, root) then c else comp[x]
  }

  lemma WorkDone(rows: Rows, r: Range, comp0: seq<int>, comp: seq<int>, c: nat, root: nat)
    requires Labelling(Induced(rows, r), comp0, c) && root < |comp0| && comp0[root] == -1
    requires Working(rows, r, comp0, comp, c, root, [])
    ensures IsSweep(Induced(rows, r), comp0, comp, c, root)
  {
    assert Elements([]) == {};
    SweepDone(Induced(rows, r), comp0, comp, c, root);
  }

  /** What a sweep from the last unlabelled finisher adds is one whole component. */
  lemma NextComponent(rows: Rows, r: Range, order: seq<nat>, i: nat, comp: seq<int>, comp': seq<int>, cnt: nat)
    requires FinishesAll(rows, r, order) && i < |order|
    requires PartlyLabelled(rows, r, order, i + 1, comp, cnt)
    requires order[i] < |comp| && comp[order[i]] == -1
    requires IsSweep(Induced(rows, r), comp, comp', cnt, order[i])
    ensures PartlyLabelled(rows, r, order, i, comp', cnt + 1)
  {
    var g, root := Induced(rows, r), order[i];
    assert root in order;
    var done := set x: nat | x < |comp| && comp[x] != -1;
    forall x, y | x in done && Scc(g, x, y) ensures y in done {
      ReachInside(g, x, y);
      LabelledFromBehind(g, comp, cnt, y, x);
    }
    forall x: nat | x < |g| && comp[x] == -1 && Reach(g, x, root)
      ensures x in order && Scc(g, x, root)
    {
      if x != root {
        var a, b := Exit(g, {x}, x, root);
      }
      var k :| 0 <= k < |order| && order[k] == x;
      RootTakesItsComponent(g, order, k, i, done);
    }
    AddComponent(g, comp, cnt, root, comp');
    ReachSelf(g, root);
  }

  class SCC {
    const g: Graph
    const r: Range
    const comp: array<int>
    var cnt: nat

    ghost predicate Valid()
      reads this
    {
      g.Valid() && r.Valid(g.nRows) && comp.Length == g.nRows
    }

    constructor (g: Graph, r: Range)
      requires g.Valid() && r.Valid(g.nRows)
      ensures Valid() && fresh(comp) && this.g == g && this.r == r && cnt == 0
    {
      this.g, this.r := g, r;
      comp := new int[g.nRows](_ => -1);
      cnt := 0;
    }

    /** One tree of pass 1. */
    method Explore(root: nat, visited: array<bool>, order0: seq<nat>) returns (order: seq<nat>)
      requires Valid() && visited.Length == g.nRows && NeedsDescent(r, visited[..], root)
      requires Exploring(g.AllRows(), r, visited[..], order0, [])
      modifies visited
      ensures Exploring(g.AllRows(), r, visited[..], order, [])
      ensures Unmarked(visited[..]) < Unmarked(old(visited[..])) && visited[root]
    {
      hide Exploring;
      ghost var rows := g.AllRows();
      ghost var vis := visited[..];
      order := order0;
      Start(rows, r, vis, order, root);
      UnmarkedShrinks(vis, root);
      visited[root] := true;
      vis := vis[root := true];
      assert visited[..] == vis;
      var stack := [Frame(root, 0)];
      while stack != []
        invariant visited[..] == vis && |vis| == g.nRows && Exploring(rows, r, vis, order, stack)
        invariant Unmarked(vis) < Unmarked(old(visited[..])) && vis[root]
        decreases Unmarked(vis), |stack|
      {
        TopIsOpen(rows, r, vis, order, stack);
        var u := Top(stack).u;
        var row := g.Neighbors(u);
        var descended := false;
        ghost var height, seen := |stack|, vis;
        while Top(stack).nextEdge < |row|
          invariant visited[..] == vis == seen && |stack| == height && Top(stack).u == u
          invariant Exploring(rows, r, vis, order, stack)
          decreases |row| - Top(stack).nextEdge
        {
          var v := row[Top(stack).nextEdge];
          assert v == rows[u][Top(stack).nextEdge];
          if v >= g.nRows || !r.Contains(v) || visited[v] {
            Skip(rows, r, vis, order, stack);
            stack := Advance(stack);
            continue;
          }
          Descend(rows, r, vis, order, stack);
          UnmarkedShrinks(vis, v);
          visited[v] := true;
          vis := vis[v := true];
          assert visited[..] == vis;
          stack := Advance(stack) + [Frame(v, 0)];
          descended := true;
          break;
        }
        if !descended {
          TopIsOpen(rows, r, vis, order, stack);
          Close(rows, r, vis, order, stack);
          order := order + [u];
          stack := stack[..|stack| - 1];
        }
      }
    }

    /** Pass 1: depth-first search along the edges, recording finishing events. */
    method FirstPass() returns (order: seq<nat>)
      requires Valid()
      ensures FinishesAll(g.AllRows(), r, order)
    {
      ghost var rows := g.AllRows();
      var visited := new bool[g.nRows](_ => false);
      order := [];
      var s, e := r.First(), r.Last(g.nRows);
      assert Path([]) == [];
      for start := s to e + 1
        invariant Exploring(rows, r, visited[..], order, [])
        invariant forall v :: v in Unmarked(visited[..]) ==> v < s || start <= v
      {
        if !visited[start] {
          order := Explore(start, visited, order);
        }
      }
      assert order + [] == order;
      forall v: nat ensures v in order <==> v < g.nRows && r.Contains(v) {
        assert v < g.nRows ==> (visited[..][v] <==> v !in Unmarked(visited[..]));
      }
    }

    /** Give the next label to everything unlabelled that reaches `root`. */
    method Sweep(rev: Rows, root: nat)
      requires Valid() && rev == Transposed(g.AllRows())
      requires Labelling(Induced(g.AllRows(), r), comp[..], cnt)
      requires root < g.nRows && r.Contains(root) && comp[root] == -1
      modifies comp
      ensures IsSweep(Induced(g.AllRows(), r), old(comp[..]), comp[..], cnt, root)
    {
      hide Working, Labelling;
      ghost var rows := g.AllRows();
      ghost var comp0 := comp[..];
      WorkStart(rows, r, comp0, cnt, root);
      comp[root] := cnt;
      var st: seq<nat> := [root];
      ghost var labels := comp[..];
      assert labels == comp0[root := cnt];
      while st != []
        invariant comp[..] == labels && Working(rows, r, comp0, labels, cnt, root, st)
        decreases Unlabelled(labels), |st|
      {
        var u := st[|st| - 1];
        assert st == st[..|st| - 1] + [u];
        st := st[..|st| - 1];
        ghost var popped, height := labels, |st|;
        WorkSlot(rows, r, comp0, labels, cnt, root, st, u, 0);
        for j := 0 to |rev[u]|
          invariant comp[..] == labels && Working(rows, r, comp0, labels, cnt, root, st + [u])
          invariant Unlabelled(labels) < Unlabelled(popped) || (labels == popped && |st| == height)
          invariant forall k :: 0 <= k < j && r.Contains(rev[u][k]) ==> rev[u][k] < |labels| && labels[rev[u][k]] != -1
        {
          var v := rev[u][j];
          WorkSlot(rows, r, comp0, labels, cnt, root, st, u, j);
          if !r.Contains(v) { continue; }
          if comp[v] != -1 { continue; }
          comp[v] := cnt;
          labels := labels[v := cnt];
          assert comp[..] == labels;
          st := st + [v];
        }
        WorkClose(rows, r, comp0, labels, cnt, root, st, u);
      }
      WorkDone(rows, r, comp0, labels, cnt, root);
    }

    /** Pass 2: search along reversed edges, in reverse finishing order. */
    method SecondPass(order: seq<nat>, rev: Rows)
      requires Valid() && FinishesAll(g.AllRows(), r, order) && rev == Transposed(g.AllRows())
      modifies this, comp
      ensures Valid() && CorrectLabels(g.AllRows(), r, comp[..], cnt)
    {
      ghost var rows := g.AllRows();
      ghost var h := Induced(rows, r);
      for v := 0 to comp.Length
        invariant forall x :: 0 <= x < v ==> comp[x] == -1
      {
        comp[v] := -1;
      }
      cnt := 0;
      var i := |order|;
      while i > 0
        invariant 0 <= i <= |order| && Valid() && PartlyLabelled(rows, r, order, i, comp[..], cnt)
      {
        i := i - 1;
        var root := order[i];
        assert root in order;
        if comp[root] != -1 { continue; }
        ghost var before := comp[..];
        Sweep(rev, root);
        NextComponent(rows, r, order, i, before, comp[..], cnt);
        cnt := cnt + 1;
      }
    }

    method Run()
      requires Valid()
      modifies this, comp
      ensures Valid() && CorrectLabels(g.AllRows(), r, comp[..], cnt)
      // the program's own integers are wide enough exactly on these graphs
      ensures LabelsFit(comp[..], cnt) <==> FewComponents(Induced(g.AllRows(), r), r)
    {
      var order := FirstPass();
      var rev, _ := BuildReverseGraph(g);
      SecondPass(order, rev);
      LabelsFitExactly(Induced(g.AllRows(), r), r, comp[..], cnt);
    }
  }
}
