/** Labelling the strongly connected components one after another, each as the set
    of unlabelled vertices that reach a chosen root. */
module Components {
  import opened Digraphs

  ghost predicate HasLabel(comp: seq<int>, c: int) {
    exists v: nat :: v < |comp| && comp[v] == c
  }

  /** Labels `0 .. cnt - 1` are all in use, two labelled vertices share one exactly when
      each reaches the other, the labelled set has no edge coming in from outside,
      and labels never decrease along an edge. */
  ghost predicate Labelling(g: Digraph, comp: seq<int>, cnt: nat) {
    && |comp| == |g|
    && (forall v: nat :: v < |g| ==> -1 <= comp[v] < cnt)
    && (forall c :: 0 <= c < cnt ==> HasLabel(comp, c))
    && (forall u: nat, v: nat :: Edge(g, u, v) && comp[v] != -1 ==> comp[u] != -1 && comp[u] <= comp[v])
    && (forall u: nat, v: nat :: u < |g| && v < |g| && comp[u] != -1 && comp[v] != -1 ==>
      (comp[u] == comp[v] <==> Scc(g, u, v)))
  }

  /** Labels below `cnt` on a set of vertices that no edge enters from outside. */
  ghost predicate Sealed(g: Digraph, comp: seq<int>, cnt: nat) {
    && |comp| == |g|
    && (forall v: nat :: v < |g| ==> -1 <= comp[v] < cnt)
    && (forall u: nat, v: nat :: Edge(g, u, v) && comp[v] != -1 ==> comp[u] != -1)
  }

  lemma {:induction false} LabelledFromBehind(g: Digraph, comp: seq<int>, cnt: nat, u: nat, v: nat)
    requires Sealed(g, comp, cnt) && u < |g| && v < |g|
    requires Reach(g, u, v) && comp[v] != -1
    ensures comp[u] != -1
  {
    if comp[u] == -1 {
      var s := set x: nat | x < |comp| && comp[x] == -1;
      var a, b := Exit(g, s, u, v);
    }
  }

  lemma AddComponent(g: Digraph, comp: seq<int>, cnt: nat, root: nat, comp': seq<int>)
    requires Labelling(g, comp, cnt) && root < |g| && comp[root] == -1 && |comp'| == |g|
    requires forall x: nat :: x < |g| ==>
      comp'[x] == if comp[x] == -1 && Reach(g, x, root) then cnt else comp[x]
    requires forall x: nat :: x < |g| && comp[x] == -1 && Reach(g, x, root) ==> Scc(g, x, root)
    ensures Labelling(g, comp', cnt + 1)
  {
    forall c | 0 <= c < cnt + 1 ensures HasLabel(comp', c) {
      if c < cnt {
        assert HasLabel(comp, c);
        var v: nat :| v < |comp| && comp[v] == c;
        assert comp'[v] == c;
      } else {
        ReachSelf(g, root);
        assert comp'[root] == c;
      }
    }
    forall u: nat, v: nat | Edge(g, u, v) && comp'[v] != -1
      ensures comp'[u] != -1 && comp'[u] <= comp'[v]
    {
      if comp[v] == -1 {
        EdgeReach(g, u, v);
        ReachTrans(g, u, v, root);
      }
    }
    forall u: nat, v: nat | u < |g| && v < |g| && comp'[u] != -1 && comp'[v] != -1
      ensures comp'[u] == comp'[v] <==> Scc(g, u, v)
    {
      if comp[u] == -1 && comp[v] == -1 {
        SccTrans(g, u, root, v);
      } else if comp[u] == -1 && Scc(g, u, v) {
        LabelledFromBehind(g, comp, cnt, u, v);
      } else if comp[v] == -1 && Scc(g, u, v) {
        LabelledFromBehind(g, comp, cnt, v, u);
      }
    }
  }

  ghost function Unlabelled(comp: seq<int>): set<nat> {
    set x: nat | x < |comp| && comp[x] == -1
  }

  /** The backward search from `root` in progress: on top of `comp0` it has given label
      `c` to vertices that reach `root`, and only predecessors of `open` may be missing. */
  ghost predicate Sweeping(g: Digraph, comp0: seq<int>, comp: seq<int>, c: int, root: nat, open: set<nat>) {
    && |comp| == |comp0| == |g| && root < |g| && c >= 0
    && comp[root] == c
    && (forall x: nat :: x < |g| ==> comp0[x] < c)
    && (forall x: nat :: x < |g| ==> comp[x] == comp0[x] || (comp0[x] == -1 && comp[x] == c && Reach(g, x, root)))
    && (forall x :: x in open ==> x < |g| && comp[x] == c)
    && (forall u: nat, v: nat :: Edge(g, u, v) && comp[v] == c && v !in open ==> comp[u] != -1)
  }

  lemma SweepStart(g: Digraph, comp: seq<int>, c: nat, root: nat)
    requires Sealed(g, comp, c) && root < |g| && comp[root] == -1
    ensures Sweeping(g, comp, comp[root := c], c, root, {root})
  {
    ReachSelf(g, root);
  }

  lemma SweepLabel(g: Digraph, comp0: seq<int>, comp: seq<int>, c: int, root: nat, open: set<nat>, u: nat, v: nat)
    requires Sweeping(g, comp0, comp, c, root, open)
    requires u in open && Edge(g, v, u) && comp[v] == -1
    ensures Sweeping(g, comp0, comp[v := c], c, root, open + {v})
    ensures Unlabelled(comp[v := c]) < Unlabelled(comp)
  {
    EdgeReach(g, v, u);
    ReachTrans(g, v, u, root);
    assert v in Unlabelled(comp) && v !in Unlabelled(comp[v := c]);
  }

  lemma SweepClose(g: Digraph, comp0: seq<int>, comp: seq<int>, c: int, root: nat, open: set<nat>, u: nat)
    requires Sweeping(g, comp0, comp, c, root, open + {u})
    requires forall v: nat :: Edge(g, v, u) ==> comp[v] != -1
    ensures Sweeping(g, comp0, comp, c, root, open)
  {
  }

  lemma SweepDone(g: Digraph, comp0: seq<int>, comp: seq<int>, c: nat, root: nat)
    requires Sealed(g, comp0, c) && Sweeping(g, comp0, comp, c, root, {})
    requires comp0[root] == -1
    ensures forall x: nat :: x < |g| ==>
      comp[x] == if comp0[x] == -1 && Reach(g, x, root) then c else comp0[x]
  {
    forall x: nat | x < |g| && comp0[x] == -1 && Reach(g, x, root) ensures comp[x] == c {
      if comp[x] != c {
        var outside := set y: nat | y < |comp| && comp[y] != c;
        var a, b := Exit(g, outside, x, root);
        LabelledFromBehind(g, comp0, c, x, a);
      }
    }
  }
}
