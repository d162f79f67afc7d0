/** The adjacency storage the tools read, and the digraphs it stands for. */
module Adjacency {
  import opened Digraphs
  import opened Products

  /** The largest 32-bit signed integer. */
  const INT_MAX := 0x7FFF_FFFF

  /** One list of targets per row; targets at or above `|rows|` are invalid and ignored. */
  type Rows = seq<seq<nat>>

  lemma SlotsInBounds(n: nat, d: nat, u: nat)
    requires u < n
    ensures 0 <= u * d && u * d + d <= n * d
  {
    assert (u + 1) * d <= n * d;
  }

  lemma SlotPosition(n: nat, d: nat, i: nat)
    requires d > 0 && i < n * d
    ensures i / d < n && i == i / d * d + i % d
  {
    if n <= i / d { TimesMono(n, i / d, d); }
  }

  /** The fixed-capacity graph of the fda2 tools: row `u` owns `maxDegree` slots of
      `adj`, of which the first `rowDegree[u]` are valid. */
  datatype Graph = Graph(nRows: nat, maxDegree: nat, rowDegree: seq<nat>, adj: seq<nat>) {

    /** What `load_graph` establishes, with row ids that fit 32 bits. */
    ghost predicate Valid() {
      && nRows < 0x1_0000_0000
      && |rowDegree| == nRows
      && |adj| == nRows * maxDegree
      && (forall u :: 0 <= u < nRows ==> rowDegree[u] <= maxDegree)
    }

    /** The valid slots of row `u`. */
    function Neighbors(u: nat): (row: seq<nat>)
      requires Valid() && u < nRows
      ensures |row| == rowDegree[u]
    {
      SlotsInBounds(nRows, maxDegree, u);
      adj[u * maxDegree..u * maxDegree + rowDegree[u]]
    }

    ghost function AllRows(): (rows: Rows)
      requires Valid()
      ensures |rows| == nRows && forall u :: 0 <= u < nRows ==> rows[u] == Neighbors(u)
    {
      seq(nRows, u requires 0 <= u < nRows => Neighbors(u))
    }

    lemma RowSlot(u: nat, j: nat)
      requires Valid() && u < nRows && j < rowDegree[u]
      ensures 0 <= u * maxDegree + j < |adj| && AllRows()[u][j] == adj[u * maxDegree + j]
    {
      SlotsInBounds(nRows, maxDegree, u);
    }

    /** Slot `i` is entry `i % maxDegree` of row `i / maxDegree`, if it is a valid one. */
    lemma RowsAreSlots(i: nat)
      requires Valid() && maxDegree > 0 && i < |adj|
      ensures i / maxDegree < nRows
      ensures i % maxDegree < rowDegree[i / maxDegree] ==> AllRows()[i / maxDegree][i % maxDegree] == adj[i]
    {
      hide Neighbors;
      SlotPosition(nRows, maxDegree, i);
      var u, j := i / maxDegree, i % maxDegree;
      if j < rowDegree[u] { RowSlot(u, j); }
    }
  }

  /** The cuVS graph: every row has exactly `degree` slots. */
  datatype CagraGraph = CagraGraph(nRows: nat, degree: nat, adj: seq<nat>) {

    /** The layout; the loops over rows count in 32-bit signed integers. */
    ghost predicate Valid() {
      nRows <= INT_MAX && |adj| == nRows * degree
    }

    /** The component tools also keep slot offsets and targets in such integers. */
    ghost predicate FitsInt() {
      Valid() && |adj| <= INT_MAX && forall i :: 0 <= i < |adj| ==> adj[i] <= INT_MAX
    }

    function Neighbors(u: nat): (row: seq<nat>)
      requires Valid() && u < nRows
      ensures |row| == degree
    {
      SlotsInBounds(nRows, degree, u);
      adj[u * degree..u * degree + degree]
    }

    ghost function AllRows(): (rows: Rows)
      requires Valid()
      ensures |rows| == nRows && forall u :: 0 <= u < nRows ==> rows[u] == Neighbors(u)
    {
      seq(nRows, u requires 0 <= u < nRows => Neighbors(u))
    }

    lemma RowSlot(u: nat, j: nat)
      requires Valid() && u < nRows && j < degree
      ensures 0 <= u * degree + j < |adj| && AllRows()[u][j] == adj[u * degree + j]
    {
      SlotsInBounds(nRows, degree, u);
    }

    /** Slot `i` is entry `i % degree` of row `i / degree`. */
    lemma RowsAreSlots(i: nat)
      requires Valid() && degree > 0 && i < |adj|
      ensures i / degree < nRows && AllRows()[i / degree][i % degree] == adj[i]
    {
      hide Neighbors;
      SlotPosition(nRows, degree, i);
      RowSlot(i / degree, i % degree);
    }
  }

  /** An optional inclusive row range, as given with `--row-range`. */
  datatype Range = Range(s: int, e: int, on: bool) {

    predicate Contains(x: int) {
      !on || s <= x <= e
    }

    /** What `main` checks before any traversal. */
    predicate Valid(n: nat) {
      on ==> 0 <= s <= e < n
    }

    function First(): int {
      if on then s else 0
    }

    function Last(n: nat): int {
      if on then e else n - 1
    }
  }

  /** A row of a graph with `n` rows that lies in the range. */
  ghost predicate InRange(n: nat, r: Range, v: nat) {
    v < n && r.Contains(v)
  }

  /** All valid edges. */
  ghost function Whole(rows: Rows): (g: Digraph)
    ensures |g| == |rows|
    ensures forall u: nat, v: nat :: Edge(g, u, v) <==> u < |rows| && v < |rows| && v in rows[u]
  {
    seq(|rows|, u requires 0 <= u < |rows| => set v | v in rows[u])
  }

  /** The valid edges with both ends in the range. */
  ghost function Induced(rows: Rows, r: Range): (g: Digraph)
    ensures |g| == |rows|
    ensures forall u: nat, v: nat :: Edge(g, u, v) <==>
      u < |rows| && v < |rows| && v in rows[u] && r.Contains(u) && r.Contains(v)
  {
    seq(|rows|, u requires 0 <= u < |rows| => if r.Contains(u) then set v | v in rows[u] && r.Contains(v) else {})
  }

  lemma InducedByAll(rows: Rows, r: Range)
    requires !r.on
    ensures Induced(rows, r) == Whole(rows)
  {
    forall u | 0 <= u < |rows| ensures Induced(rows, r)[u] == Whole(rows)[u] {}
  }
}
