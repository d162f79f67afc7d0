/** The level-counting breadth-first search of fda2/fda2_tools/bfs_level_counts.cpp. */
module BfsLevels {
  import opened Digraphs
  import opened FiniteSets
  import opened Adjacency
  import opened FinishingOrder
  import opened Levels

  /** One printed line. */
  datatype Line = Line(level: nat, visited: nat, cumulative: nat)

  ghost predicate RightLine(g: Digraph, start: nat, line: Line, l: nat) {
    line == Line(l, |Sphere(g, start, l)|, |Ball(g, start, l)|)
  }

  /** The state between two levels: what is printed is right, every printed level was
      inhabited, and `cum` counts the vertices seen. */
  ghost predicate Printed(g: Digraph, start: nat, lines: seq<Line>, level: nat, vis: seq<bool>, q: seq<nat>, cum: nat) {
    && |lines| == level
    && (forall l :: 0 <= l < level ==> RightLine(g, start, lines[l], l) && lines[l].visited > 0)
    && LevelStart(g, start, level, vis, q)
    && (q != [] ==> cum == |Ball(g, start, level)|)
    && (q == [] ==> level > 0 && cum == |Ball(g, start, level - 1)|)
  }

  /** The whole output: one line for each distance that occurs, the last total is the
      number of reachable vertices, and the warning appears when some vertex is missed. */
  ghost predicate CorrectOutput(g: Digraph, start: nat, lines: seq<Line>, cum: nat, warned: bool) {
    && lines != [] && cum == lines[|lines| - 1].cumulative == |Ball(g, start, |lines| - 1)|
    && (forall l :: 0 <= l < |lines| ==> RightLine(g, start, lines[l], l) && lines[l].visited > 0)
    && (forall v: nat :: v in Ball(g, start, |lines| - 1) <==> Reach(g, start, v))
    && (warned <==> exists v: nat :: v < |g| && !Reach(g, start, v))
  }

  lemma NextLevel(g: Digraph, start: nat, lines: seq<Line>, level: nat, vis: seq<bool>, q: seq<nat>, cum: nat,
      vis': seq<bool>, found: seq<nat>)
    requires Printed(g, start, lines, level, vis, q, cum) && q != []
    requires MidLevel(g, start, level, vis', [], found)
    ensures Printed(g, start, lines + [Line(level, |q|, cum)], level + 1, vis', found, cum + |found|)
  {
    hide Ball, Sphere, NoDuplicates;
    LevelSizes(g, start, level, vis, q);
    MidDone(g, start, level, vis', found);
    LevelSizes(g, start, level + 1, vis', found);
  }

  lemma CountsReachable(g: Digraph, start: nat, l: nat)
    requires start < |g| && Sphere(g, start, l) == {}
    ensures l > 0 && Ball(g, start, l - 1) == Ball(g, start, l)
    ensures forall v: nat :: v in Ball(g, start, l) <==> Reach(g, start, v)
    ensures |Ball(g, start, l)| != |g| <==> exists v: nat :: v < |g| && !Reach(g, start, v)
  {
    assert l > 0;
    hide Ball, Reach;
    var b := Ball(g, start, l);
    BallGrows(g, start, l - 1, l);
    forall v | v in b ensures v in Ball(g, start, l - 1) {
      assert v !in Sphere(g, start, l);
    }
    forall v: nat ensures v in b <==> Reach(g, start, v) {
      BallSaturated(g, start, l, v);
    }
    forall v | v in b ensures v in Below(|g|) {
      BallInside(g, start, l, v);
    }
    SubsetSize(b, Below(|g|));
    if |b| != |g| {
      assert b != Below(|g|);
      var v :| v in Below(|g|) && v !in b;
    }
  }

  lemma Complete(g: Digraph, start: nat, lines: seq<Line>, level: nat, vis: seq<bool>, cum: nat)
    requires Printed(g, start, lines, level, vis, [], cum)
    ensures CorrectOutput(g, start, lines, cum, cum != |g|)
  {
    hide Ball, Reach;
    assert Elements([]) == {};
    CountsReachable(g, start, level);
  }

  lemma NoFurtherLevel(g: Digraph, start: nat, lines: seq<Line>, cum: nat, warned: bool, l: nat)
    requires CorrectOutput(g, start, lines, cum, warned) && l >= |lines|
    ensures Sphere(g, start, l) == {}
  {
    hide Ball, Reach;
    forall v | v in Sphere(g, start, l) ensures false {
      BallReach(g, start, l, v);
      BallGrows(g, start, |lines| - 1, l - 1);
    }
  }

  /** Line `l` counts the vertices at distance `l` and those within it, and there is such a
      line exactly for every distance that occurs. */
  lemma LinesByDistance(g: Digraph, start: nat, lines: seq<Line>, cum: nat, warned: bool, l: nat)
    returns (at: set<nat>, within: set<nat>)
    requires CorrectOutput(g, start, lines, cum, warned)
    ensures forall v: nat :: v in at <==> AtDistance(g, start, v, l)
    ensures forall v: nat :: v in within <==> Within(g, start, v, l)
    ensures l < |lines| <==> at != {}
    ensures l < |lines| ==> lines[l] == Line(l, |at|, |within|)
  {
    hide Ball, Sphere, Reach, Within, AtDistance;
    at, within := Sphere(g, start, l), Ball(g, start, l);
    forall v: nat ensures (v in at <==> AtDistance(g, start, v, l)) && (v in within <==> Within(g, start, v, l)) {
      LevelsAreDistances(g, start, l, v);
    }
    if l < |lines| {
      assert RightLine(g, start, lines[l], l);
    } else {
      NoFurtherLevel(g, start, lines, cum, warned, l);
    }
  }

  /** No vertex has the distance that the level counter cannot get past. */
  ghost predicate ShortDistances(g: Digraph, start: nat) {
    Sphere(g, start, INT_MAX) == {}
  }

  /** The level counter, which ends as the number of lines, fits a 32-bit signed integer
      exactly when no vertex is `INT_MAX` edges away. */
  lemma LevelFitsExactly(g: Digraph, start: nat, lines: seq<Line>, cum: nat, warned: bool)
    requires CorrectOutput(g, start, lines, cum, warned)
    ensures |lines| <= INT_MAX <==> ShortDistances(g, start)
  {
    hide Ball, Reach;
    if |lines| <= INT_MAX {
      forall v | v in Sphere(g, start, INT_MAX) ensures false {
        BallReach(g, start, INT_MAX, v);
        BallGrows(g, start, |lines| - 1, INT_MAX - 1);
      }
    } else {
      assert RightLine(g, start, lines[INT_MAX], INT_MAX);
    }
  }

  /** No more lines than vertices. */
  lemma LinesBounded(g: Digraph, start: nat, lines: seq<Line>, cum: nat, warned: bool)
    requires CorrectOutput(g, start, lines, cum, warned) && start < |g|
    ensures |lines| <= |g|
  {
    hide Ball, Reach;
    var l := |lines| - 1;
    var k := EmptyLevelOrGrowth(g, start, l);
    forall j: nat | j <= l ensures Sphere(g, start, j) != {} { assert RightLine(g, start, lines[j], j); }
    forall x | x in Ball(g, start, l) ensures x in Below(|g|) { BallInside(g, start, l, x); }
    SubsetSize(Ball(g, start, l), Below(|g|));
  }

  /** The path 0 -> 1 -> ... has one vertex at each distance. */
  ghost predicate IsPath(g: Digraph) {
    forall u: nat, v: nat :: Edge(g, u, v) <==> u + 1 == v < |g|
  }

  lemma {:induction false} PathWalk(g: Digraph, k: nat, v: nat)
    requires IsPath(g) && k < |g|
    ensures Walk(g, 0, v, k) <==> v == k
  {
    if k > 0 {
      if Walk(g, 0, v, k) {
        var w: nat :| Walk(g, 0, w, k - 1) && Edge(g, w, v);
        PathWalk(g, k - 1, w);
      } else {
        PathWalk(g, k - 1, k - 1);
        assert Edge(g, k - 1, k);
      }
    }
  }

  /** On a path of 2^31 vertices the level counter does not fit. */
  lemma LongPathDoesNotFit(rows: Rows)
    requires |rows| == 0x8000_0000 && forall u: nat :: u < |rows| ==> rows[u] == [u + 1]
    ensures !ShortDistances(Whole(rows), 0)
  {
    hide Ball, Walk;
    var g := Whole(rows);
    assert IsPath(g);
    BallIsWalks(g, 0, INT_MAX, INT_MAX);
    PathWalk(g, INT_MAX, INT_MAX);
    BallIsWalks(g, 0, INT_MAX - 1, INT_MAX);
    forall k: nat | k <= INT_MAX - 1 ensures !Walk(g, 0, INT_MAX, k) { PathWalk(g, k, INT_MAX); }
    assert INT_MAX in Sphere(g, 0, INT_MAX);
  }

  lemma RowEdges(g: Graph, u: nat)
    requires g.Valid() && u < g.nRows
    ensures forall v: nat :: Edge(Whole(g.AllRows()), u, v) <==> v in g.Neighbors(u) && v < g.nRows
  {
  }

  lemma MidBounds(g: Digraph, s: nat, l: nat, vis: seq<bool>, todo: seq<nat>, found: seq<nat>)
    requires MidLevel(g, s, l, vis, todo, found) && todo != []
    ensures |vis| == |g| && todo[0] < |g|
  {
    assert todo[0] in Elements(todo);
    BallInside(g, s, l, todo[0]);
  }

  lemma PrintedStart(g: Digraph, s: nat, vis: seq<bool>)
    requires LevelStart(g, s, 0, vis, [s])
    ensures Printed(g, s, [], 0, vis, [s], 1)
  {
  }

  lemma PrintedStarts(g: Digraph, start: nat, lines: seq<Line>, level: nat, vis: seq<bool>, q: seq<nat>, cum: nat)
    requires Printed(g, start, lines, level, vis, q, cum)
    ensures LevelStart(g, start, level, vis, q)
  {
  }

  method Run(g: Graph, start: nat) returns (lines: seq<Line>, cum: nat, warned: bool)
    requires g.Valid() && start < g.nRows
    ensures CorrectOutput(Whole(g.AllRows()), start, lines, cum, warned)
    // the program's level counter is wide enough exactly on these graphs
    ensures |lines| <= INT_MAX <==> ShortDistances(Whole(g.AllRows()), start)
  {
    hide Printed, LevelStart, MidLevel, CorrectOutput, ShortDistances;
    ghost var h := Whole(g.AllRows());
    var seen := new bool[g.nRows](_ => false);
    ghost var vis := seen[..];
    SearchStart(h, start, vis);
    seen[start] := true;
    vis := vis[start := true];
    assert seen[..] == vis;
    var q: seq<nat> := [start];
    cum := 1;
    var level := 0;
    lines := [];
    PrintedStart(h, start, vis);
    while q != []
      invariant seen[..] == vis && level >= 0 && Printed(h, start, lines, level, vis, q, cum)
      decreases Unmarked(vis), |q|
    {
      var fs, next := |q|, 0;
      ghost var vis0, q0, lines0 := vis, q, lines;
      lines := lines + [Line(level, fs, cum)];
      PrintedStarts(h, start, lines0, level, vis, q, cum);
      MidStart(h, start, level, vis, q);
      ghost var found: seq<nat> := [];
      for k := 0 to fs
        invariant seen[..] == vis && q == q0[k..] + found && next == |found|
        invariant MidLevel(h, start, level, vis, q0[k..], found)
        invariant Unmarked(vis) < Unmarked(vis0) || (vis == vis0 && found == [])
      {
        assert q0[k..] == [q0[k]] + q0[k + 1..];
        var u := q[0];
        q := q[1..];
        MidBounds(h, start, level, vis, q0[k..], found);
        RowEdges(g, u);
        var p := g.Neighbors(u);
        for j := 0 to g.rowDegree[u]
          invariant seen[..] == vis && |vis| == g.nRows && q == q0[k + 1..] + found && next == |found|
          invariant MidLevel(h, start, level, vis, q0[k..], found)
          invariant Unmarked(vis) < Unmarked(vis0) || (vis == vis0 && found == [])
          invariant forall i :: 0 <= i < j && p[i] < g.nRows ==> vis[p[i]]
        {
          var v := p[j];
          if v < g.nRows && !seen[v] {
            MidPush(h, start, level, vis, q0[k..], found, v);
            UnmarkedShrinks(vis, v);
            seen[v] := true;
            vis := vis[v := true];
            assert seen[..] == vis;
            q := q + [v];
            found := found + [v];
            next := next + 1;
          }
        }
        MidPop(h, start, level, vis, q0[k..], found);
      }
      assert q0[fs..] == [] && q == found;
      NextLevel(h, start, lines0, level, vis0, q0, cum, vis, found);
      cum := cum + next;
      level := level + 1;
    }
    warned := cum != g.nRows;
    Complete(h, start, lines, level, vis, cum);
    LevelFitsExactly(h, start, lines, cum, warned);
  }
}
