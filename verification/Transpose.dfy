/** `build_reverse_graph` and the in-degree tool: turning the rows around. */
module Transpose {
  import opened Adjacency
  import opened FiniteSets

  /** What one row contributes to the list of `v`. */
  ghost function Copies(v: nat, u: nat, row: seq<nat>): seq<nat> {
    if u == v then [] else seq(multiset(row)[v], _ => u)
  }

  /** The sources `u < upto` of edges into `v`, each as often as `v` occurs in
      row `u`, self-loops dropped. */
  ghost function Incoming(rows: Rows, v: nat, upto: nat): seq<nat>
    requires upto <= |rows|
  {
    if upto == 0 then [] else Incoming(rows, v, upto - 1) + Copies(v, upto - 1, rows[upto - 1])
  }

  /** All lists after rows `0 .. u - 1`. */
  ghost function SoFar(rows: Rows, u: nat): (t: Rows)
    requires u <= |rows|
    ensures |t| == |rows|
  {
    seq(|rows|, v requires 0 <= v < |rows| => Incoming(rows, v, u))
  }

  lemma CopiesMember(v: nat, w: nat, row: seq<nat>, u: nat)
    ensures u in Copies(v, w, row) <==> u == w && w != v && v in row
  {
    var more := Copies(v, w, row);
    assert w != v ==> |more| == multiset(row)[v];
    assert |more| > 0 ==> more[0] == w;
  }

  lemma {:induction false} IncomingMember(rows: Rows, v: nat, upto: nat, u: nat)
    requires upto <= |rows|
    ensures u in Incoming(rows, v, upto) <==> u < upto && u != v && v in rows[u]
  {
    hide Copies;
    if upto > 0 {
      IncomingMember(rows, v, upto - 1, u);
      CopiesMember(v, upto - 1, rows[upto - 1], u);
    }
  }

  ghost function Transposed(rows: Rows): (t: Rows)
    ensures |t| == |rows|
  {
    SoFar(rows, |rows|)
  }

  /** All lists after, in addition, the first `j` slots of row `u`. */
  ghost function Partial(rows: Rows, u: nat, j: nat): (t: Rows)
    requires u < |rows| && j <= |rows[u]|
    ensures |t| == |rows|
  {
    seq(|rows|, v requires 0 <= v < |rows| => Incoming(rows, v, u) + Copies(v, u, rows[u][..j]))
  }

  ghost function Lengths(t: Rows): (c: seq<nat>)
    ensures |c| == |t|
  {
    seq(|t|, v requires 0 <= v < |t| => |t[v]|)
  }

  /** One slot appends the row's own id to the list of its target, if that is valid. */
  ghost function Push(t: Rows, u: nat, v: nat): (t': Rows)
    ensures |t'| == |t|
  {
    if v < |t| && v != u then t[v := t[v] + [u]] else t
  }

  lemma PartialStep(rows: Rows, u: nat, j: nat)
    requires u < |rows| && j < |rows[u]|
    ensures Partial(rows, u, j + 1) == Push(Partial(rows, u, j), u, rows[u][j])
  {
    var row, x := rows[u], rows[u][j];
    assert row[..j + 1] == row[..j] + [x];
    forall v | 0 <= v < |rows|
      ensures Partial(rows, u, j + 1)[v] == Push(Partial(rows, u, j), u, x)[v]
    {
      assert Copies(v, u, row[..j + 1]) == Copies(v, u, row[..j]) + if v == x && v != u then [u] else [];
    }
  }

  lemma PartialEnds(rows: Rows, u: nat)
    requires u < |rows|
    ensures Partial(rows, u, 0) == SoFar(rows, u)
    ensures Partial(rows, u, |rows[u]|) == SoFar(rows, u + 1)
  {
    assert rows[u][..|rows[u]|] == rows[u];
    forall v | 0 <= v < |rows| ensures Partial(rows, u, 0)[v] == SoFar(rows, u)[v] {}
    forall v | 0 <= v < |rows| ensures Partial(rows, u, |rows[u]|)[v] == SoFar(rows, u + 1)[v] {}
  }

  lemma CountStep(rows: Rows, u: nat, j: nat)
    requires u < |rows| && j < |rows[u]|
    ensures var v, c := rows[u][j], Lengths(Partial(rows, u, j));
            Lengths(Partial(rows, u, j + 1)) == if v < |rows| && v != u then c[v := c[v] + 1] else c
  {
    PartialStep(rows, u, j);
  }

  lemma CountStart(rows: Rows, c: seq<nat>)
    requires |c| == |rows| && forall v :: 0 <= v < |c| ==> c[v] == 0
    ensures c == Lengths(SoFar(rows, 0))
  {
  }

  /** The first sweep: how often every vertex is a valid target. */
  method CountTargets(g: Graph) returns (counts: array<nat>)
    requires g.Valid()
    ensures counts[..] == Lengths(Transposed(g.AllRows()))
  {
    hide Partial, Lengths;
    counts := new nat[g.nRows](_ => 0);
    CountStart(g.AllRows(), counts[..]);
    for u := 0 to g.nRows
      invariant counts[..] == Lengths(SoFar(g.AllRows(), u))
    {
      PartialEnds(g.AllRows(), u);
      var p := g.Neighbors(u);
      for j := 0 to |p|
        invariant counts[..] == Lengths(Partial(g.AllRows(), u, j))
      {
        var v := p[j];
        CountStep(g.AllRows(), u, j);
        if v < g.nRows && v != u {
          ghost var c := counts[..];
          counts[v] := counts[v] + 1;
          assert counts[..] == c[v := c[v] + 1];
        }
      }
    }
  }

  method BuildReverseGraph(g: Graph) returns (incoming: Rows, ghost reserved: seq<nat>)
    requires g.Valid()
    ensures incoming == Transposed(g.AllRows())
    // every list is reserved at exactly its final length
    ensures reserved == Lengths(incoming) && forall v :: 0 <= v < g.nRows ==> reserved[v] == |incoming[v]|
  {
    ghost var rows := g.AllRows();
    var counts := CountTargets(g);
    reserved := counts[..];
    incoming := seq(g.nRows, _ => []);
    assert incoming == SoFar(rows, 0);
    for u := 0 to g.nRows
      invariant incoming == SoFar(rows, u)
    {
      var p := g.Neighbors(u);
      PartialEnds(rows, u);
      for j := 0 to |p|
        invariant incoming == Partial(rows, u, j)
      {
        var v := p[j];
        PartialStep(rows, u, j);
        if v < g.nRows && v != u {
          incoming := incoming[v := incoming[v] + [u]];
        }
      }
    }
  }

  lemma {:induction false} RepeatCount(w: nat, k: nat, u: nat)
    ensures multiset(seq(k, _ => w))[u] == if u == w then k else 0
  {
    if k > 0 {
      RepeatCount(w, k - 1, u);
      assert seq(k, _ => w) == seq(k - 1, _ => w) + [w];
    }
  }

  lemma CopiesCount(v: nat, w: nat, row: seq<nat>, u: nat)
    ensures multiset(Copies(v, w, row))[u] == if u == w && w != v then multiset(row)[v] else 0
  {
    if w != v { RepeatCount(w, multiset(row)[v], u); }
  }

  /** `u` is listed under `v` exactly as often as row `u` holds `v`. */
  lemma {:induction false} IncomingCount(rows: Rows, v: nat, upto: nat, u: nat)
    requires upto <= |rows|
    ensures multiset(Incoming(rows, v, upto))[u] == if u < upto && u != v then multiset(rows[u])[v] else 0
  {
    hide Copies;
    if upto > 0 {
      IncomingCount(rows, v, upto - 1, u);
      CopiesCount(v, upto - 1, rows[upto - 1], u);
    }
  }

  /** Every list comes out in increasing order. */
  lemma {:induction false} IncomingAscending(rows: Rows, v: nat, upto: nat)
    requires upto <= |rows|
    ensures Ascending(Incoming(rows, v, upto)) && forall u :: u in Incoming(rows, v, upto) ==> u < upto
  {
    if upto > 0 {
      IncomingAscending(rows, v, upto - 1);
      var front, more := Incoming(rows, v, upto - 1), Copies(v, upto - 1, rows[upto - 1]);
      forall u | u in front + more ensures u < upto {}
      forall i, j | 0 <= i < j < |front + more| ensures (front + more)[i] <= (front + more)[j] {
        if i < |front| <= j { assert front[i] in front; }
      }
    }
  }

  /** A row without its self-loops and invalid targets. */
  ghost function Kept(row: seq<nat>, u: nat, n: nat): seq<nat> {
    if row == [] then []
    else Kept(row[..|row| - 1], u, n) + (var v := row[|row| - 1]; if v < n && v != u then [v] else [])
  }

  lemma {:induction false} KeptCount(row: seq<nat>, u: nat, n: nat, v: nat)
    ensures multiset(Kept(row, u, n))[v] == if v < n && v != u then multiset(row)[v] else 0
  {
    if row != [] {
      KeptCount(row[..|row| - 1], u, n, v);
      assert row == row[..|row| - 1] + [row[|row| - 1]];
    }
  }

  lemma LastIsLargest(s: seq<nat>, x: nat)
    requires Ascending(s) && x in multiset(s)
    ensures s != [] && x <= s[|s| - 1]
  {
    assert x in s;
  }

  lemma WithoutLast(s: seq<nat>)
    requires s != []
    ensures var k := |s| - 1; s == s[..k] + [s[k]] && multiset(s[..k]) == multiset(s) - multiset{s[k]}
    ensures Ascending(s) ==> Ascending(s[..|s| - 1])
  {
    assert s == s[..|s| - 1] + [s[|s| - 1]];
  }

  /** Two ascending lists with the same elements are the same list. */
  lemma {:induction false} AscendingUnique(a: seq<nat>, b: seq<nat>)
    requires Ascending(a) && Ascending(b) && multiset(a) == multiset(b)
    ensures a == b
  {
    hide Ascending;
    assert |a| == |multiset(a)| == |multiset(b)| == |b|;
    if a != [] {
      var k := |a| - 1;
      assert a[k] in multiset(a) && b[k] in multiset(b);
      LastIsLargest(a, b[k]);
      LastIsLargest(b, a[k]);
      assert a[k] == b[k];
      WithoutLast(a);
      WithoutLast(b);
      AscendingUnique(a[..k], b[..k]);
    }
  }

  /** Transposing twice sorts every row after dropping what is not kept: the result is
      the one ascending list with the same targets, duplicates included. */
  lemma TransposedTwice(rows: Rows, u: nat, sorted: seq<nat>)
    requires u < |rows| && Ascending(sorted) && multiset(sorted) == multiset(Kept(rows[u], u, |rows|))
    ensures Transposed(Transposed(rows))[u] == sorted
  {
    var t := Transposed(rows);
    var twice: seq<nat> := Incoming(t, u, |t|);
    IncomingAscending(t, u, |t|);
    forall v: nat ensures multiset(twice)[v] == multiset(sorted)[v] {
      IncomingCount(t, u, |t|, v);
      if v < |rows| { IncomingCount(rows, v, |rows|, u); }
      KeptCount(rows[u], u, |rows|, v);
    }
    assert multiset(twice) == multiset(sorted);
    AscendingUnique(twice, sorted);
  }
}
