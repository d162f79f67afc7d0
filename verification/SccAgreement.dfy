/** Consequences of the two SCC contracts that neither tool states by itself. */
module SccAgreement {
  import opened Digraphs
  import opened Adjacency
  import opened Components
  import opened FiniteSets
  import opened WeakComponents
  import C = CuvsWcc
  import K = Kosaraju
  import T = Tarjan
  import L = LowLink

  /** Two labellings of the same vertices by `0 .. cnt - 1` that induce one partition. */
  ghost predicate SamePartition(a: seq<int>, b: seq<int>) {
    && |a| == |b|
    && forall u: nat, v: nat :: u < |a| && v < |a| ==> (a[u] == a[v] <==> b[u] == b[v])
  }

  /** All labels of `a` are among `0 .. cnt - 1`, and each of these is in use. */
  ghost predicate UsesLabels(a: seq<int>, cnt: nat) {
    && (forall v: nat :: v < |a| ==> 0 <= a[v] < cnt)
    && (forall c :: 0 <= c < cnt ==> HasLabel(a, c))
  }

  /** A vertex with label `c`. */
  ghost function Witness(a: seq<int>, c: int): (v: nat)
    requires HasLabel(a, c)
    ensures v < |a| && a[v] == c
  {
    var v: nat :| v < |a| && a[v] == c;
    v
  }

  /** The `b`-labels of the first `m` classes of `a` are `m` different labels. */
  lemma {:induction false} Pigeons(a: seq<int>, b: seq<int>, m: nat, n: nat) returns (image: set<int>)
    requires SamePartition(a, b) && UsesLabels(b, n)
    requires forall c :: 0 <= c < m ==> HasLabel(a, c)
    ensures |image| == m && forall x :: x in image ==> 0 <= x < n
    ensures forall x :: x in image ==> exists v: nat :: v < |a| && 0 <= a[v] < m && b[v] == x
  {
    if m == 0 {
      image := {};
    } else {
      var rest := Pigeons(a, b, m - 1, n);
      var w := Witness(a, m - 1);
      image := rest + {b[w]};
    }
  }

  lemma NotFewer(a: seq<int>, m: nat, b: seq<int>, n: nat)
    requires SamePartition(a, b) && UsesLabels(a, m) && UsesLabels(b, n)
    ensures m <= n
  {
    var image := Pigeons(a, b, m, n);
    SubsetSize(image, Below(n));
  }

  lemma SameCount(a: seq<int>, m: nat, b: seq<int>, n: nat)
    requires SamePartition(a, b) && UsesLabels(a, m) && UsesLabels(b, n)
    ensures m == n
  {
    NotFewer(a, m, b, n);
    NotFewer(b, n, a, m);
  }

  lemma AllVisited(g: Digraph, res: T.SCCResult)
    requires T.CorrectResult(g, 0, |g|, res)
    ensures forall x: nat :: x < |g| ==> res.comp[x] != -1
  {
    hide Reach;
    forall x: nat | x < |g| ensures res.comp[x] != -1 {
      ReachSelf(g, x);
      assert T.ReachedFrom(g, 0, |g|, x);
    }
  }

  /** Without a row range, Kosaraju and Tarjan cut the same graph into the same
      components, and report the same number of them. */
  lemma KosarajuAgreesWithTarjan(rows: Rows, r: Range, comp: seq<int>, cnt: nat, res: T.SCCResult)
    requires !r.on && K.CorrectLabels(rows, r, comp, cnt)
    requires T.CorrectResult(Whole(rows), 0, |rows|, res)
    ensures SamePartition(comp, res.comp) && cnt == res.numScc
  {
    hide Scc, Edge, T.ReachedFrom, HasLabel;
    InducedByAll(rows, r);
    AllVisited(Whole(rows), res);
    SameCount(comp, cnt, res.comp, res.numScc);
  }

  /** Kosaraju numbers the components from the sources down ... */
  lemma {:induction false} KosarajuTopological(rows: Rows, r: Range, comp: seq<int>, cnt: nat, u: nat, v: nat)
    requires K.CorrectLabels(rows, r, comp, cnt)
    requires u < |rows| && v < |rows| && r.Contains(u) && r.Contains(v)
    requires Reach(Induced(rows, r), u, v)
    ensures comp[u] <= comp[v] && (comp[u] == comp[v] <==> Reach(Induced(rows, r), v, u))
  {
    var g := Induced(rows, r);
    if comp[u] > comp[v] {
      var s := set x: nat | x < |comp| && comp[x] > comp[v];
      var a, b := Exit(g, s, u, v);
      assert Edge(g, a, b);
      ReachInside(g, b, v);
      LabelledFromBehind(g, comp, cnt, b, v);
    }
  }

  /** ... and Tarjan from the sinks up. */
  lemma {:induction false} TarjanTopological(g: Digraph, lo: int, hi: int, res: T.SCCResult, u: nat, v: nat)
    requires T.CorrectResult(g, lo, hi, res)
    requires u < |g| && v < |g| && res.comp[u] != -1 && Reach(g, u, v)
    ensures res.comp[v] != -1 && res.comp[v] <= res.comp[u]
    ensures res.comp[u] == res.comp[v] <==> Reach(g, v, u)
  {
    L.LabelsClosed(g, res.comp, res.numScc, u, v);
    if res.comp[v] > res.comp[u] {
      var s := set x: nat | x < |res.comp| && res.comp[x] != -1 && res.comp[x] <= res.comp[u];
      var a, b := Exit(g, s, u, v);
    }
  }

  lemma SameSccLabel(g: Digraph, res: T.SCCResult, u: nat, v: nat)
    requires T.CorrectResult(g, 0, |g|, res) && u < |g| && v < |g| && res.comp[u] == res.comp[v]
    ensures Scc(g, u, v)
  {
    ReachSelf(g, u);
    ReachSelf(g, v);
    assert T.ReachedFrom(g, 0, |g|, u) && T.ReachedFrom(g, 0, |g|, v);
  }

  lemma SameWccLabel(g: Digraph, res: C.WCCResult, u: nat, v: nat)
    requires C.CorrectWcc(g, 0, |g|, res) && u < |g| && v < |g| && Weak(g, u, v)
    ensures res.comp[u] == res.comp[v] >= 0
  {
    hide Weak;
    ReachSelf(g, u);
    ReachSelf(g, v);
    ReachIsWeak(g, u, u);
    ReachIsWeak(g, v, v);
    assert C.WeaklyFrom(g, 0, |g|, u) && C.WeaklyFrom(g, 0, |g|, v);
  }

  /** Without a row range, both tools of the cuVS program agree: every strongly connected
      component lies inside one weak component. */
  lemma SccInsideWcc(rows: Rows, r: Range, scc: T.SCCResult, wcc: C.WCCResult, u: nat, v: nat)
    requires !r.on && T.CorrectResult(Whole(rows), 0, |rows|, scc)
    requires C.CorrectWcc(Outgoing(rows, r), 0, |rows|, wcc)
    requires u < |rows| && v < |rows| && scc.comp[u] == scc.comp[v]
    ensures wcc.comp[u] == wcc.comp[v] >= 0
  {
    hide Weak, Reach, T.ReachedFrom, C.WeaklyFrom;
    var g := Whole(rows);
    OutgoingOfAll(rows, r);
    SameSccLabel(g, scc, u, v);
    ReachIsWeak(g, u, v);
    SameWccLabel(g, wcc, u, v);
  }
}
