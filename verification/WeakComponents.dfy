/** Connectedness when the direction of edges is ignored. */
module WeakComponents {
  import opened Digraphs
  import opened Adjacency

  ghost function Undirected(g: Digraph): (h: Digraph)
    ensures |h| == |g|
  {
    seq(|g|, u requires 0 <= u < |g| => set v: nat | v < |g| && (Edge(g, u, v) || Edge(g, v, u)))
  }

  lemma UndirectedEdge(g: Digraph, u: nat, v: nat)
    ensures Edge(Undirected(g), u, v) <==> Edge(g, u, v) || Edge(g, v, u)
  {
  }

  /** `u` and `v` are joined by a path that ignores direction. */
  ghost predicate Weak(g: Digraph, u: nat, v: nat) {
    Reach(Undirected(g), u, v)
  }

  lemma WeakSymmetric(g: Digraph, u: nat, v: nat)
    requires Weak(g, u, v)
    ensures Weak(g, v, u)
  {
    var h := Undirected(g);
    forall a: nat, b: nat | Edge(h, a, b) ensures Edge(h, b, a) {
      UndirectedEdge(g, a, b);
      UndirectedEdge(g, b, a);
    }
    ReachReversed(h, h, u, v);
  }

  lemma ReachIsWeak(g: Digraph, u: nat, v: nat)
    requires Reach(g, u, v)
    ensures Weak(g, u, v)
  {
    forall a: nat, b: nat | Edge(g, a, b) ensures Edge(Undirected(g), a, b) {
      UndirectedEdge(g, a, b);
    }
    ReachMono(g, Undirected(g), u, v);
  }

  /** The valid edges that leave a row of the range. */
  ghost function Outgoing(rows: Rows, r: Range): (g: Digraph)
    ensures |g| == |rows|
  {
    seq(|rows|, u requires 0 <= u < |rows| => if r.Contains(u) then set v | v in rows[u] else {})
  }

  lemma OutgoingEdge(rows: Rows, r: Range, u: nat, v: nat)
    ensures Edge(Outgoing(rows, r), u, v) <==> u < |rows| && v < |rows| && r.Contains(u) && v in rows[u]
  {
  }

  lemma OutgoingOfAll(rows: Rows, r: Range)
    requires !r.on
    ensures Outgoing(rows, r) == Whole(rows)
  {
    forall u | 0 <= u < |rows| ensures Outgoing(rows, r)[u] == Whole(rows)[u] {}
  }
}
