/** Finite directed graphs and reachability: the one specification that every
    graph tool of the repository is proved against. */
module Digraphs {

  /** Vertices are `0 .. |g| - 1`; `g[u]` holds the out-neighbours of `u`. */
  type Digraph = seq<set<nat>>

  ghost predicate Edge(g: Digraph, u: nat, v: nat) {
    u < |g| && v < |g| && v in g[u]
  }

  /** `v` is reached from `u` by exactly `k` edges. */
  ghost predicate Walk(g: Digraph, u: nat, v: nat, k: nat)
    decreases k
  {
    if k == 0 then u == v else exists w: nat :: Walk(g, u, w, k - 1) && Edge(g, w, v)
  }

  ghost predicate Reach(g: Digraph, u: nat, v: nat) {
    exists k: nat :: Walk(g, u, v, k)
  }

  /** Mutual reachability: being in one strongly connected component. */
  ghost predicate Scc(g: Digraph, u: nat, v: nat) {
    Reach(g, u, v) && Reach(g, v, u)
  }

  /** Every vertex of the list but the first is an out-neighbour of the one before. */
  ghost predicate IsChain(g: Digraph, p: seq<nat>) {
    |p| < 2 || (var u, v := p[|p| - 2], p[|p| - 1]; u < |g| && v < |g| && v in g[u] && IsChain(g, p[..|p| - 1]))
  }

  ghost predicate Joins(g: Digraph, u: nat, v: nat, p: seq<nat>) {
    p != [] && p[0] == u && p[|p| - 1] == v && IsChain(g, p)
  }

  lemma {:induction false} PathOfWalk(g: Digraph, u: nat, v: nat, k: nat) returns (p: seq<nat>)
    requires Walk(g, u, v, k)
    ensures Joins(g, u, v, p) && |p| == k + 1
    decreases k
  {
    if k == 0 {
      p := [u];
    } else {
      var w: nat :| Walk(g, u, w, k - 1) && Edge(g, w, v);
      p := PathOfWalk(g, u, w, k - 1);
      assert (p + [v])[..k] == p;
      p := p + [v];
    }
  }

  lemma {:induction false} WalkOfPath(g: Digraph, u: nat, v: nat, p: seq<nat>)
    requires Joins(g, u, v, p)
    ensures Walk(g, u, v, |p| - 1)
    decreases |p|
  {
    var k := |p| - 1;
    if k > 0 {
      var w := p[k - 1];
      assert p[..k][k - 1] == w && Edge(g, w, v);
      WalkOfPath(g, u, w, p[..k]);
      assert Walk(g, u, w, k - 1);
    }
  }

  /** Reaching is being joined by a path. */
  lemma ReachIsPath(g: Digraph, u: nat, v: nat)
    ensures Reach(g, u, v) <==> exists p: seq<nat> :: Joins(g, u, v, p)
  {
    if k: nat :| Walk(g, u, v, k) {
      var p := PathOfWalk(g, u, v, k);
    }
    if p: seq<nat> :| Joins(g, u, v, p) {
      WalkOfPath(g, u, v, p);
    }
  }

  /** No edge leaves `s`. */
  ghost predicate Closed(g: Digraph, s: set<nat>) {
    forall u, v :: u in s && Edge(g, u, v) ==> v in s
  }

  lemma ReachSelf(g: Digraph, u: nat)
    ensures Reach(g, u, u)
  {
    assert Walk(g, u, u, 0);
  }

  lemma ReachStep(g: Digraph, u: nat, v: nat, w: nat)
    requires Reach(g, u, v) && Edge(g, v, w)
    ensures Reach(g, u, w)
  {
    var k: nat :| Walk(g, u, v, k);
    assert Walk(g, u, w, k + 1);
  }

  lemma EdgeReach(g: Digraph, u: nat, v: nat)
    requires Edge(g, u, v)
    ensures Reach(g, u, v)
  {
    ReachSelf(g, u);
    ReachStep(g, u, u, v);
  }

  lemma {:induction false} WalkTrans(g: Digraph, u: nat, v: nat, w: nat, j: nat, k: nat)
    requires Walk(g, u, v, j) && Walk(g, v, w, k)
    ensures Walk(g, u, w, j + k)
    decreases k
  {
    if k > 0 {
      var x: nat :| Walk(g, v, x, k - 1) && Edge(g, x, w);
      WalkTrans(g, u, v, x, j, k - 1);
      assert Walk(g, u, x, j + k - 1);
    }
  }

  lemma ReachTrans(g: Digraph, u: nat, v: nat, w: nat)
    requires Reach(g, u, v) && Reach(g, v, w)
    ensures Reach(g, u, w)
  {
    var j: nat :| Walk(g, u, v, j);
    var k: nat :| Walk(g, v, w, k);
    WalkTrans(g, u, v, w, j, k);
  }

  lemma {:induction false} WalkExit(g: Digraph, s: set<nat>, u: nat, v: nat, k: nat) returns (a: nat, b: nat)
    requires u in s && v !in s && Walk(g, u, v, k)
    ensures a in s && b !in s && Edge(g, a, b) && Reach(g, u, a) && Reach(g, b, v)
    decreases k
  {
    var w: nat :| Walk(g, u, w, k - 1) && Edge(g, w, v);
    if w in s {
      a, b := w, v;
      ReachSelf(g, v);
    } else {
      a, b := WalkExit(g, s, u, w, k - 1);
      ReachStep(g, b, w, v);
    }
  }

  /** A walk that starts inside `s` and ends outside crosses its border. */
  lemma {:induction false} Exit(g: Digraph, s: set<nat>, u: nat, v: nat) returns (a: nat, b: nat)
    requires u in s && v !in s && Reach(g, u, v)
    ensures a in s && b !in s && Edge(g, a, b) && Reach(g, u, a) && Reach(g, b, v)
  {
    var k: nat :| Walk(g, u, v, k);
    a, b := WalkExit(g, s, u, v, k);
  }

  lemma {:induction false} ClosedReach(g: Digraph, s: set<nat>, u: nat, v: nat)
    requires Closed(g, s) && u in s && Reach(g, u, v)
    ensures v in s
  {
    if v !in s {
      var a, b := Exit(g, s, u, v);
    }
  }

  lemma {:induction false} ReachInside(g: Digraph, u: nat, v: nat)
    requires Reach(g, u, v) && u < |g|
    ensures v < |g|
  {
    var k: nat :| Walk(g, u, v, k);
    if k > 0 {
      var w: nat :| Walk(g, u, w, k - 1) && Edge(g, w, v);
    }
  }

  lemma LastEdge(g: Digraph, u: nat, v: nat) returns (w: nat)
    requires Reach(g, u, v) && u != v
    ensures Reach(g, u, w) && Edge(g, w, v)
  {
    var k: nat :| Walk(g, u, v, k);
    w :| Walk(g, u, w, k - 1) && Edge(g, w, v);
  }

  lemma SccTrans(g: Digraph, u: nat, v: nat, w: nat)
    requires Scc(g, u, v) && Scc(g, v, w)
    ensures Scc(g, u, w)
  {
    ReachTrans(g, u, v, w);
    ReachTrans(g, w, v, u);
  }

  lemma {:induction false} WalkMono(g: Digraph, h: Digraph, u: nat, v: nat, k: nat)
    requires forall a: nat, b: nat :: Edge(g, a, b) ==> Edge(h, a, b)
    requires Walk(g, u, v, k)
    ensures Walk(h, u, v, k)
    decreases k
  {
    if k > 0 {
      var w: nat :| Walk(g, u, w, k - 1) && Edge(g, w, v);
      WalkMono(g, h, u, w, k - 1);
    }
  }

  lemma ReachMono(g: Digraph, h: Digraph, u: nat, v: nat)
    requires forall a: nat, b: nat :: Edge(g, a, b) ==> Edge(h, a, b)
    requires Reach(g, u, v)
    ensures Reach(h, u, v)
  {
    var k: nat :| Walk(g, u, v, k);
    WalkMono(g, h, u, v, k);
  }

  lemma {:induction false} WalkReversed(g: Digraph, h: Digraph, u: nat, v: nat, k: nat)
    requires forall a: nat, b: nat :: Edge(g, a, b) ==> Edge(h, b, a)
    requires Walk(g, u, v, k)
    ensures Reach(h, v, u)
    decreases k
  {
    if k == 0 {
      ReachSelf(h, u);
    } else {
      var w: nat :| Walk(g, u, w, k - 1) && Edge(g, w, v);
      WalkReversed(g, h, u, w, k - 1);
      EdgeReach(h, v, w);
      ReachTrans(h, v, w, u);
    }
  }

  /** Along reversed edges, everything is reached the other way round. */
  lemma {:induction false} ReachReversed(g: Digraph, h: Digraph, u: nat, v: nat)
    requires forall a: nat, b: nat :: Edge(g, a, b) ==> Edge(h, b, a)
    requires Reach(g, u, v)
    ensures Reach(h, v, u)
  {
    var k: nat :| Walk(g, u, v, k);
    WalkReversed(g, h, u, v, k);
  }
}
