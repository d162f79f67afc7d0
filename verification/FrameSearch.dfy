/** The frame stack of an iterative depth-first search over stored rows, step by step. */
module FrameSearch {
  import opened Digraphs
  import opened Adjacency
  import opened FinishingOrder

  /** `nextEdge` is the slot of row `u` to examine when the search returns to `u`. */
  datatype Frame = Frame(u: nat, nextEdge: nat)

  function Top(stack: seq<Frame>): Frame
    requires stack != []
  {
    stack[|stack| - 1]
  }

  function Advance(stack: seq<Frame>): (stack': seq<Frame>)
    requires stack != []
  {
    stack[|stack| - 1 := Frame(Top(stack).u, Top(stack).nextEdge + 1)]
  }

  ghost function Path(stack: seq<Frame>): (path: seq<nat>)
    ensures |path| == |stack|
    ensures forall i :: 0 <= i < |stack| ==> path[i] == stack[i].u
  {
    seq(|stack|, i requires 0 <= i < |stack| => stack[i].u)
  }

  /** A valid, in-range target that is not visited yet. */
  predicate NeedsDescent(r: Range, vis: seq<bool>, v: nat) {
    v < |vis| && r.Contains(v) && !vis[v]
  }

  /** The scanned slots of every frame lead to no vertex that still needs a descent. */
  ghost predicate Scanned(rows: Rows, r: Range, vis: seq<bool>, stack: seq<Frame>) {
    forall f :: f in stack ==>
      && f.u < |rows| && r.Contains(f.u) && f.nextEdge <= |rows[f.u]|
      && forall k :: 0 <= k < f.nextEdge ==> !NeedsDescent(r, vis, rows[f.u][k])
  }

  ghost predicate Exploring(rows: Rows, r: Range, vis: seq<bool>, order: seq<nat>, stack: seq<Frame>) {
    && |vis| == |rows|
    && Searching(Induced(rows, r), vis, order, Path(stack))
    && Scanned(rows, r, vis, stack)
    && forall v: nat :: v < |vis| && vis[v] ==> r.Contains(v)
  }

  lemma Start(rows: Rows, r: Range, vis: seq<bool>, order: seq<nat>, root: nat)
    requires Exploring(rows, r, vis, order, []) && NeedsDescent(r, vis, root)
    ensures Exploring(rows, r, vis[root := true], order, [Frame(root, 0)])
  {
    Discover(Induced(rows, r), vis, order, [], root);
    assert Path([]) == [] && Path([Frame(root, 0)]) == [] + [root];
  }

  lemma TopIsOpen(rows: Rows, r: Range, vis: seq<bool>, order: seq<nat>, stack: seq<Frame>)
    requires Exploring(rows, r, vis, order, stack) && stack != []
    ensures Top(stack).u < |rows| == |vis| && Top(stack).nextEdge <= |rows[Top(stack).u]|
  {
    assert Top(stack) in stack;
  }

  lemma Skip(rows: Rows, r: Range, vis: seq<bool>, order: seq<nat>, stack: seq<Frame>)
    requires Exploring(rows, r, vis, order, stack) && stack != []
    requires var f := Top(stack);
      f.u < |rows| && f.nextEdge < |rows[f.u]| && !NeedsDescent(r, vis, rows[f.u][f.nextEdge])
    ensures Exploring(rows, r, vis, order, Advance(stack))
  {
    hide Searching;
    assert Top(stack) in stack;
    assert Path(Advance(stack)) == Path(stack);
  }

  lemma Descend(rows: Rows, r: Range, vis: seq<bool>, order: seq<nat>, stack: seq<Frame>)
    requires Exploring(rows, r, vis, order, stack) && stack != []
    requires var f := Top(stack);
      f.u < |rows| && f.nextEdge < |rows[f.u]| && NeedsDescent(r, vis, rows[f.u][f.nextEdge])
    ensures var v := rows[Top(stack).u][Top(stack).nextEdge];
      Exploring(rows, r, vis[v := true], order, Advance(stack) + [Frame(v, 0)])
  {
    hide Searching, Reach;
    var f := Top(stack);
    var v := rows[f.u][f.nextEdge];
    var g, path := Induced(rows, r), Path(stack);
    assert f in stack && path[|path| - 1] == f.u;
    assert Edge(g, f.u, v);
    Discover(g, vis, order, path, v);
    assert Path(Advance(stack) + [Frame(v, 0)]) == path + [v];
  }

  lemma Close(rows: Rows, r: Range, vis: seq<bool>, order: seq<nat>, stack: seq<Frame>)
    requires Exploring(rows, r, vis, order, stack) && stack != []
    requires var f := Top(stack); f.u < |rows| && f.nextEdge == |rows[f.u]|
    ensures Exploring(rows, r, vis, order + [Top(stack).u], stack[..|stack| - 1])
  {
    hide Searching, Reach;
    var f := Top(stack);
    var g, path := Induced(rows, r), Path(stack);
    assert f in stack && path[|path| - 1] == f.u;
    forall w: nat | Edge(g, f.u, w) ensures vis[w] {
      var k :| 0 <= k < |rows[f.u]| && rows[f.u][k] == w;
      assert !NeedsDescent(r, vis, rows[f.u][k]);
    }
    Finish(g, vis, order, path);
    assert Path(stack[..|stack| - 1]) == path[..|path| - 1];
  }
}
