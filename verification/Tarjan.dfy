/** The recursive Tarjan algorithm of nvidia-cuvs/cpp/bench/tools/connected_components_scc.cpp. */
module Tarjan {
  import opened Digraphs
  import opened Adjacency
  import opened ComponentSizes
  import opened LowLink

  ghost predicate ReachedFrom(g: Digraph, lo: int, hi: int, x: nat) {
    exists s: nat :: lo <= s < hi && Reach(g, s, x)
  }

  datatype SCCResult = SCCResult(numScc: nat, comp: seq<int>, size: seq<nat>)

  /** The result a run over the range `[lo, hi)` must deliver: the vertices reached from
      the range, inside it or not, carry labels `0 .. numScc - 1`, all of them in use,
      equal exactly for mutually reachable vertices; all others carry -1; and sizes
      count in-range vertices only. */
  ghost predicate CorrectResult(g: Digraph, lo: int, hi: int, res: SCCResult) {
    && LabelsRight(g, res.comp, res.numScc)
    && (forall x: nat :: x < |g| ==> (res.comp[x] != -1 <==> ReachedFrom(g, lo, hi, x)))
    && |res.size| == res.numScc && Counts(res.comp, lo, hi, res.size)
  }

  /** Between two top-level calls: the start vertices `[lo, v)` have been visited, and
      everything visited is reached from them. */
  ghost predicate Roots(g: Digraph, t: Tables, lo: int, v: int) {
    && Inv(g, t, {}) && 0 <= lo
    && (forall s: nat :: lo <= s < v ==> Visited(t, s))
    && (forall x: nat :: Visited(t, x) ==> ReachedFrom(g, lo, v, x))
  }

  lemma RootsReady(g: Digraph, t: Tables, lo: int, v: nat)
    requires Roots(g, t, lo, v) && v < |g|
    ensures |t.index| == |g| && (Visited(t, v) ==> lo <= v ==> Roots(g, t, lo, v + 1))
    ensures !Visited(t, v) ==> Callable(g, t, {}, v)
  {
    hide Reach;
    forall x: nat | Visited(t, x) ensures ReachedFrom(g, lo, v + 1, x) {
      var s: nat :| lo <= s < v && Reach(g, s, x);
    }
  }

  lemma RootsGrow(g: Digraph, t: Tables, t': Tables, lo: int, v: nat, low: int)
    requires Roots(g, t, lo, v) && lo <= v
    requires Inv(g, t', {}) && Continues(g, t, t', v) && Returned(g, t, t', v, low)
    ensures Roots(g, t', lo, v + 1)
  {
    hide Reach, Inv;
    forall x: nat | Visited(t', x) ensures ReachedFrom(g, lo, v + 1, x) {
      if Visited(t, x) {
        var s: nat :| lo <= s < v && Reach(g, s, x);
      } else {
        assert Reach(g, v, x);
      }
    }
  }

  lemma RootsDone(g: Digraph, t: Tables, lo: int, hi: int)
    requires Roots(g, t, lo, hi) && hi <= |g|
    ensures LabelsRight(g, t.comp, t.cnt)
    ensures forall x: nat :: x < |g| ==> -1 <= t.comp[x] < t.cnt && (t.comp[x] != -1 <==> ReachedFrom(g, lo, hi, x))
  {
    hide Reach;
    forall x: nat ensures !Stacked(t, x) {
      assert Stacked(t, x) ==> Anchored(g, t, {}, x);
    }
    forall x: nat | x < |g| ensures t.comp[x] != -1 <==> ReachedFrom(g, lo, hi, x) {
      if ReachedFrom(g, lo, hi, x) {
        var s: nat :| lo <= s < hi && Reach(g, s, x);
        assert Visited(t, s);
        LabelsClosed(g, t.comp, t.cnt, s, x);
      } else {
        assert !Visited(t, x);
      }
    }
  }

  function Min(a: int, b: int): int {
    if b < a then b else a
  }

  class TarjanSCC {
    const G: CagraGraph
    const range: Range
    const index: array<int>
    const low: array<int>
    const onstack: array<bool>
    const comp: array<int>
    var S: seq<nat>
    var currentIndex: nat
    var sccCount: nat

    ghost predicate Shaped()
      reads this
    {
      && G.FitsInt() && range.Valid(G.nRows)
      && index.Length == low.Length == onstack.Length == comp.Length == G.nRows
      && index != low && low != comp && index != comp
    }

    ghost function Snapshot(): Tables
      reads this, index, onstack, comp
    {
      Tables(index[..], onstack[..], comp[..], S, currentIndex, sccCount)
    }

    ghost function Digraph(): Digraph
      requires Shaped()
      reads this
    {
      Whole(G.AllRows())
    }

    constructor (G: CagraGraph, range: Range)
      requires G.FitsInt() && range.Valid(G.nRows)
      ensures Shaped() && this.G == G && this.range == range
      ensures fresh(index) && fresh(low) && fresh(onstack) && fresh(comp)
      ensures Inv(Digraph(), Snapshot(), {}) && forall x: nat :: !Visited(Snapshot(), x)
    {
      this.G, this.range := G, range;
      index := new int[G.nRows](_ => -1);
      low := new int[G.nRows](_ => 0);
      onstack := new bool[G.nRows](_ => false);
      comp := new int[G.nRows](_ => -1);
      S, currentIndex, sccCount := [], 0, 0;
    }

    lemma RowIsWhole(v: nat)
      requires Shaped() && v < G.nRows
      ensures forall y: nat :: Edge(Digraph(), v, y) <==> y in G.Neighbors(v) && y < G.nRows
    {
    }

    /** Pop the stack down to and including `v` into a new component. */
    method PopComponent(v: nat, ghost base: nat)
      requires Shaped() && Poppable(Snapshot(), base, v)
      modifies this`S, this`sccCount, onstack, comp
      ensures Shaped() && PoppedFrom(old(Snapshot()), base, Snapshot())
    {
      hide PoppedDown;
      ghost var t := Snapshot();
      ghost var flags, labels := onstack[..], comp[..];
      NothingPopped(t);
      while true
        invariant Shaped() && base < |S| <= |t.stack| && S == t.stack[..|S|] && sccCount == t.cnt
        invariant onstack[..] == flags && comp[..] == labels && PoppedDown(t, |S|, flags, labels)
        decreases |S|
      {
        var w := S[|S| - 1];
        assert w == t.stack[|S| - 1];
        PopOne(t, |S| - 1, flags, labels);
        S := S[..|S| - 1];
        onstack[w] := false;
        comp[w] := sccCount;
        flags, labels := flags[w := false], labels[w := sccCount];
        assert onstack[..] == flags && comp[..] == labels;
        if w == v { break; }
      }
      sccCount := sccCount + 1;
    }

    method Dfs(v: nat, ghost gray: set<nat>)
      requires Shaped() && Callable(Digraph(), Snapshot(), gray, v)
      modifies this, index, low, onstack, comp
      ensures Shaped() && Inv(Digraph(), Snapshot(), gray)
      ensures Continues(Digraph(), old(Snapshot()), Snapshot(), v)
      ensures Returned(Digraph(), old(Snapshot()), Snapshot(), v, low[v])
      ensures LowsKept(old(Snapshot()), old(low[..]), low[..])
      decreases Unvisited(Snapshot())
    {
      hide Inv, Scanning, Continues, Returned, Edge, Reach, LowsKept;
      ghost var g := Digraph();
      ghost var t0 := Snapshot();
      ghost var lows := low[..];
      index[v] := currentIndex;
      low[v] := currentIndex;
      currentIndex := currentIndex + 1;
      S := S + [v];
      onstack[v] := true;
      ghost var t := Push(t0, v);
      LowsSet(t0, lows, lows, v, low[v]);
      assert low[..] == lows[v := low[v]];
      var nbrs := G.Neighbors(v);
      RowIsWhole(v);
      assert Snapshot() == t;
      Enter(g, t0, gray, v, nbrs);
      for j := 0 to G.degree
        invariant Shaped() && Snapshot() == t
        invariant Scanning(g, t0, t, gray, v, nbrs, j, low[v])
        invariant LowsKept(t0, lows, low[..])
      {
        var w := nbrs[j];
        if w >= G.nRows {
          SkipInvalid(g, t0, t, gray, v, nbrs, j, low[v]);
          continue;
        }
        if index[w] == -1 {
          ghost var lowv, before := low[v], low[..];
          PrepareCall(g, t0, t, gray, v, nbrs, j, lowv);
          Dfs(w, gray + {v});
          ghost var after := low[..];
          LowsOwn(g, t0, t, gray, v, nbrs, j, lowv, before, after);
          LowsTrans(g, t0, t, v, lows, before, after);
          NewTarget(g, t0, t, Snapshot(), gray, v, nbrs, j, lowv, low[w]);
          t := Snapshot();
          low[v] := Min(low[v], low[w]);
          LowsSet(t0, lows, after, v, low[v]);
          assert low[..] == after[v := low[v]];
        } else {
          OldTarget(g, t0, t, gray, v, nbrs, j, low[v]);
          if onstack[w] {
            ghost var before := low[..];
            low[v] := Min(low[v], index[w]);
            LowsSet(t0, lows, before, v, low[v]);
            assert low[..] == before[v := low[v]];
          }
        }
      }
      RowIsWhole(v);
      if low[v] == index[v] {
        ReadyToPop(g, t0, t, gray, v, nbrs, low[v]);
        PopComponent(v, |t0.stack|);
        PoppedRight(g, t0, t, Snapshot(), gray, v, nbrs, low[v]);
        LeaveClosed(g, t0, t, Snapshot(), gray, v, nbrs, low[v]);
      } else {
        LeaveOpen(g, t0, t, gray, v, nbrs, low[v]);
      }
    }

    method Run() returns (res: SCCResult)
      requires Shaped() && Inv(Digraph(), Snapshot(), {}) && forall x: nat :: !Visited(Snapshot(), x)
      modifies this, index, low, onstack, comp
      ensures CorrectResult(Digraph(), range.First(), range.Last(G.nRows) + 1, res)
    {
      hide Inv, Continues, Returned, Reach, LabelsRight;
      ghost var g := Digraph();
      var start, end := range.First(), range.Last(G.nRows);
      for v := start to end + 1
        invariant Shaped() && Roots(g, Snapshot(), start, v)
      {
        RootsReady(g, Snapshot(), start, v);
        if index[v] == -1 {
          ghost var t := Snapshot();
          Dfs(v, {});
          RootsGrow(g, t, Snapshot(), start, v, low[v]);
        }
      }
      RootsDone(g, Snapshot(), start, end + 1);
      var sizes := CountSizes(comp, sccCount, start, end);
      res := SCCResult(sccCount, comp[..], sizes);
    }
  }
}
