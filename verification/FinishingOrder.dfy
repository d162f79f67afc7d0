/** What a depth-first search with explicit frames establishes about the order in
    which vertices finish, and why that order lets the second pass of Kosaraju's
    algorithm cut out one strongly connected component at a time. */
module FinishingOrder {
  import opened Digraphs
  import opened FiniteSets

  /** Along an edge `a -> w`, either `w` finishes before a vertex that finishes at or
      after `a`, or `w` reaches that vertex. */
  ghost predicate Finishing(g: Digraph, order: seq<nat>) {
    forall p, q, w: nat :: 0 <= p <= q < |order| && Edge(g, order[p], w) ==>
      w in order[..q] || Reach(g, w, order[q])
  }

  /** The state between two steps of the search: `order` holds the finished vertices,
      `path` the open ones from the root down, `vis` marks both. */
  ghost predicate Searching(g: Digraph, vis: seq<bool>, order: seq<nat>, path: seq<nat>) {
    && |vis| == |g|
    && NoDuplicates(order + path)
    && (forall x :: x in order || x in path ==> x < |g| && vis[x])
    && (forall x: nat :: x < |g| && vis[x] ==> x in order || x in path)
    && (forall i, j :: 0 <= i <= j < |path| ==> Reach(g, path[i], path[j]))
    && (forall x, w: nat :: x in order && Edge(g, x, w) ==> vis[w])
    && Finishing(g, order)
  }

  ghost function Unmarked(vis: seq<bool>): set<nat> {
    set v: nat | v < |vis| && !vis[v]
  }

  lemma UnmarkedShrinks(vis: seq<bool>, v: nat)
    requires v < |vis| && !vis[v]
    ensures Unmarked(vis[v := true]) == Unmarked(vis) - {v} < Unmarked(vis)
  {
    assert v in Unmarked(vis);
  }

  lemma Discover(g: Digraph, vis: seq<bool>, order: seq<nat>, path: seq<nat>, v: nat)
    requires Searching(g, vis, order, path)
    requires v < |g| && !vis[v]
    requires path == [] || Edge(g, path[|path| - 1], v)
    ensures Searching(g, vis[v := true], order, path + [v])
  {
    var path' := path + [v];
    forall i, j | 0 <= i <= j < |path'| ensures Reach(g, path'[i], path'[j]) {
      if i == |path| {
        ReachSelf(g, v);
      } else if j == |path| {
        ReachStep(g, path[i], path[j - 1], v);
      }
    }
    assert order + path' == (order + path) + [v];
    assert v !in order + path;
  }

  /** Moving the last open vertex to the end of the order repeats nothing. */
  lemma MoveOver(order: seq<nat>, path: seq<nat>, u: nat)
    requires NoDuplicates(order + (path + [u]))
    ensures NoDuplicates((order + [u]) + path)
  {
    var before, after, n := order + (path + [u]), (order + [u]) + path, |order|;
    assert before[|before| - 1] == u;
    forall i, j | 0 <= i < j < |after| ensures after[i] != after[j] {
      var k, l := if i < n then i else i - 1, if j < n then j else j - 1;
      assert i != n ==> after[i] == before[k];
      assert j != n ==> after[j] == before[l];
    }
  }

  lemma FinishedInOrder(g: Digraph, order: seq<nat>, path: seq<nat>, u: nat)
    requires Finishing(g, order)
    requires forall x, w: nat :: (x in order || x == u) && Edge(g, x, w) ==> w in order || w in path
    requires forall w :: w in path ==> Reach(g, w, u)
    ensures Finishing(g, order + [u])
  {
    hide Reach, Edge;
    var order' := order + [u];
    forall p, q, w: nat | 0 <= p <= q < |order'| && Edge(g, order'[p], w)
      ensures w in order'[..q] || Reach(g, w, order'[q])
    {
      assert order'[p] in order || order'[p] == u;
      if q < |order| {
        assert order'[..q] == order[..q];
      } else {
        assert order'[..q] == order;
      }
    }
  }

  lemma Finish(g: Digraph, vis: seq<bool>, order: seq<nat>, path: seq<nat>)
    requires Searching(g, vis, order, path) && path != []
    requires var u := path[|path| - 1]; forall w: nat :: Edge(g, u, w) ==> vis[w]
    ensures Searching(g, vis, order + [path[|path| - 1]], path[..|path| - 1])
  {
    hide Reach, NoDuplicates, Finishing;
    var u, path' := path[|path| - 1], path[..|path| - 1];
    assert path == path' + [u];
    MoveOver(order, path', u);
    var order' := order + [u];
    forall x ensures x in order' || x in path' <==> x in order || x in path {
      assert x in path <==> x in path' || x == u;
    }
    forall w | w in path ensures Reach(g, w, u) {
      var i :| 0 <= i < |path| && path[i] == w;
      assert Reach(g, path[i], path[|path| - 1]);
    }
    assert u in path;
    FinishedInOrder(g, order, path, u);
    forall i, j | 0 <= i <= j < |path'| ensures Reach(g, path'[i], path'[j]) {
      assert Reach(g, path[i], path[j]);
    }
  }

  /** The heart of the second pass. Process finished vertices from the last to the
      first, with whole components already removed: whoever still reaches the current
      root `order[p]` is reached back by it. */
  lemma {:induction false} RootTakesItsComponent(g: Digraph, order: seq<nat>, i: nat, p: nat, done: set<nat>)
    requires Finishing(g, order) && NoDuplicates(order)
    requires forall u: nat, v: nat :: Edge(g, u, v) ==> v in order
    requires i <= p < |order| && Reach(g, order[i], order[p])
    requires forall q :: p < q < |order| ==> order[q] in done
    requires forall x, y :: x in done && Scc(g, x, y) ==> y in done
    requires order[i] !in done
    ensures Scc(g, order[i], order[p])
    decreases p - i
  {
    hide Reach;
    var x, root := order[i], order[p];
    ReachSelf(g, x);
    if i < p {
      var pre := order[..i + 1];
      assert pre[i] == x;
      var early := set v | v in pre;
      forall m | 0 <= m <= i ensures order[m] in early { assert order[m] == pre[m]; }
      var a, b := Exit(g, early, x, root);
      var j :| 0 <= j < |pre| && pre[j] == a;
      assert Edge(g, order[j], b);
      assert order[..i] == pre[..i];
      assert Reach(g, b, x);
      ReachStep(g, x, a, b);
      assert Scc(g, x, b);
      var k :| 0 <= k < |order| && order[k] == b;
      if k <= p {
        RootTakesItsComponent(g, order, k, p, done);
        SccTrans(g, x, b, root);
      }
    }
  }

  /** The familiar property of single edges: the target finishes first, or reaches the source. */
  ghost predicate EdgeFinishing(g: Digraph, order: seq<nat>) {
    forall p, w: nat :: 0 <= p < |order| && Edge(g, order[p], w) ==> w in order[..p] || Reach(g, w, order[p])
  }

  lemma FinishingCoversEdges(g: Digraph, order: seq<nat>)
    requires Finishing(g, order)
    ensures EdgeFinishing(g, order)
  {
  }

  /** It would not be enough for the second pass: with the edges 0->1, 1->2, 2->1 the order
      1, 0, 2 has it, yet a sweep from 2 would also take 0, which 2 does not reach. */
  lemma EdgeFinishingIsNotEnough(g: Digraph, order: seq<nat>)
    requires g == [{1}, {2}, {1}] && order == [1, 0, 2]
    ensures EdgeFinishing(g, order) && Reach(g, 0, 2) && !Reach(g, 2, 0) && !Finishing(g, order)
  {
    hide Reach;
    assert Edge(g, 0, 1) && Edge(g, 1, 2) && Edge(g, 2, 1);
    EdgeReach(g, 0, 1);
    EdgeReach(g, 2, 1);
    ReachStep(g, 0, 1, 2);
    if Reach(g, 2, 0) { ClosedReach(g, {1, 2}, 2, 0); }
    assert order[..1] == [1] && Edge(g, order[0], 2);
    forall p, w: nat | 0 <= p < |order| && Edge(g, order[p], w) ensures w in order[..p] || Reach(g, w, order[p]) {
      if p == 1 { assert order[..1][0] == 1; }
      if p == 2 { assert order[..2][0] == 1; }
    }
    assert !(2 in order[..1] || Reach(g, 2, order[1]));
  }
}
