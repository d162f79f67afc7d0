/** `run_target` of fda2/fda2_tools/discover_vamana_graph.cpp: how many of a vertex's
    in-neighbours a forward breadth-first search from it finds, level by level. */
module Discovery {
  import opened Digraphs
  import opened FiniteSets
  import opened Adjacency
  import opened FinishingOrder
  import opened Levels
  import opened Transpose

  /** The edges the search may follow: those whose target lies in `[rs, re]`. */
  ghost function Scannable(rows: Rows, rs: nat, re: nat): (g: Digraph)
    ensures |g| == |rows|
  {
    seq(|rows|, u requires 0 <= u < |rows| => set v | v in rows[u] && rs <= v <= re)
  }

  lemma ScannableEdge(rows: Rows, rs: nat, re: nat, u: nat, v: nat)
    requires re < |rows|
    ensures Edge(Scannable(rows, rs, re), u, v) <==> u < |rows| && v in rows[u] && rs <= v <= re
  {
  }

  /** The true in-neighbours of `target`, itself excluded. */
  ghost predicate InNeighbor(rows: Rows, target: nat, u: nat) {
    u < |rows| && u != target && target in rows[u]
  }

  /** One printed line. */
  datatype Line = Line(level: nat, frontier: nat, visited: nat, recoveredHere: nat, recovered: nat)

  datatype Outcome = Outcome(recovered: set<nat>, total: nat, visited: nat, completed: int)

  /** The vertices seen once level `l` has been worked through: the next level has been
      queued, unless `l` is the last level allowed. */
  ghost function SeenAfter(g: Digraph, target: nat, l: nat, maxLevels: int): set<nat> {
    Ball(g, target, if l < maxLevels then l + 1 else l)
  }

  ghost predicate RightLine(g: Digraph, target: nat, gt: set<nat>, maxLevels: int, line: Line, l: nat) {
    line == Line(l, |Sphere(g, target, l)|, |SeenAfter(g, target, l, maxLevels)|,
                 |gt * Sphere(g, target, l)|, |gt * Ball(g, target, l)|)
  }

  /** All of `gt` is found exactly when level `l` is reached. */
  ghost predicate CompletesAt(g: Digraph, target: nat, gt: set<nat>, l: nat) {
    gt <= Ball(g, target, l) && forall k: nat :: k < l ==> !(gt <= Ball(g, target, k))
  }

  ghost predicate CorrectOutcome(g: Digraph, target: nat, gt: set<nat>, maxLevels: int, lines: seq<Line>,
      out: Outcome) {
    && out.total == |gt|
    && (forall l :: 0 <= l < |lines| ==> RightLine(g, target, gt, maxLevels, lines[l], l) && lines[l].frontier > 0)
    && (if out.completed >= 0 then
          && out.completed <= maxLevels && |lines| == out.completed + 1
          && CompletesAt(g, target, gt, out.completed)
          && out.recovered == gt && out.visited == |SeenAfter(g, target, out.completed, maxLevels)|
        else
          && out.completed == -1 && |lines| <= (if maxLevels < 0 then 0 else maxLevels + 1)
          && (|lines| <= maxLevels ==> Sphere(g, target, |lines|) == {})
          && (forall l: nat :: l <= maxLevels ==> !(gt <= Ball(g, target, l)))
          && out.recovered == (if maxLevels < 0 then {} else gt * Ball(g, target, maxLevels))
          && out.visited == (if maxLevels < 0 then 1 else |Ball(g, target, maxLevels)|))
  }

  /** The search stands before level `cur`. After the last level the queue has been
      drained without queueing another, so only the marks are known. */
  ghost predicate Standing(g: Digraph, target: nat, gt: set<nat>, maxLevels: int, lines: seq<Line>, cur: nat,
                           vis: seq<bool>, q: seq<nat>, recovered: set<nat>, visited: nat) {
    && |lines| == cur && target < |g| && cur <= (if maxLevels < 0 then 0 else maxLevels + 1)
    && (forall l :: 0 <= l < cur ==> RightLine(g, target, gt, maxLevels, lines[l], l) && lines[l].frontier > 0)
    && (forall l: nat :: l < cur ==> !(gt <= Ball(g, target, l)))
    && recovered == (if cur == 0 then {} else gt * Ball(g, target, cur - 1))
    && visited == (if cur == 0 then 1 else |SeenAfter(g, target, cur - 1, maxLevels)|)
    && (cur == 0 || cur <= maxLevels ==> LevelStart(g, target, cur, vis, q))
  }

  /** The marks within a level: as they were if no further level may be queued. */
  ghost predicate Marks(g: Digraph, target: nat, last: bool, cur: nat, vis0: seq<bool>, vis: seq<bool>,
      todo: seq<nat>, found: seq<nat>) {
    && |vis| == |g|
    && if last then vis == vis0 && found == [] else MidLevel(g, target, cur, vis, todo, found)
  }

  /** The first `j` slots of a row need no further look. */
  ghost predicate RowDone(rs: nat, re: nat, last: bool, vis: seq<bool>, row: seq<nat>, j: nat) {
    !last ==> re < |vis| && forall i :: 0 <= i < j <= |row| && rs <= row[i] <= re ==> vis[row[i]]
  }

  /** What the first `j` slots of the row of `u` add to the recovered set. */
  ghost function Hits(gt: set<nat>, target: nat, u: nat, row: seq<nat>, j: nat): set<nat>
    requires j <= |row|
  {
    if target in row[..j] then gt * {u} else {}
  }

  lemma HitsStep(gt: set<nat>, target: nat, u: nat, row: seq<nat>, j: nat)
    requires j < |row|
    ensures Hits(gt, target, u, row, 0) == {}
    ensures Hits(gt, target, u, row, j + 1) == Hits(gt, target, u, row, j) + if row[j] == target && u in gt then {u} else {}
  {
    assert row[..j + 1] == row[..j] + [row[j]];
    if u in gt { assert gt * {u} == {u}; }
  }

  /** The recovered set and its growth after `j` slots of the row of `u`. */
  ghost predicate RowHits(gt: set<nat>, target: nat, u: nat, row: seq<nat>, j: nat, before: set<nat>,
      recovered: set<nat>, here: int) {
    j <= |row| && recovered == before + Hits(gt, target, u, row, j) && here == |recovered| - |before|
  }

  lemma RowHitsStart(gt: set<nat>, target: nat, u: nat, row: seq<nat>, before: set<nat>)
    ensures RowHits(gt, target, u, row, 0, before, before, 0)
  {
  }

  lemma RowHitsStep(gt: set<nat>, target: nat, u: nat, row: seq<nat>, j: nat, before: set<nat>, recovered: set<nat>,
      here: int)
    requires RowHits(gt, target, u, row, j, before, recovered, here) && j < |row|
    ensures if row[j] == target && u in gt
      then RowHits(gt, target, u, row, j + 1, before, recovered + {u}, here + if u in recovered then 0 else 1)
      else RowHits(gt, target, u, row, j + 1, before, recovered, here)
  {
    hide Hits;
    HitsStep(gt, target, u, row, j);
    var hit := Hits(gt, target, u, row, j);
    if row[j] == target && u in gt {
      assert before + (hit + {u}) == recovered + {u};
      assert u in recovered ==> recovered + {u} == recovered;
      assert u !in recovered ==> |recovered + {u}| == |recovered| + 1;
    } else {
      assert before + (hit + {}) == recovered;
    }
  }

  lemma RowHitsDone(rows: Rows, target: nat, gt: set<nat>, u: nat, before: set<nat>, recovered: set<nat>, here: int)
    requires u < |rows| && RowHits(gt, target, u, rows[u], |rows[u]|, before, recovered, here)
    requires forall x :: x in gt ==> InNeighbor(rows, target, x)
    ensures recovered == before + gt * {u} && here == |recovered| - |before|
  {
    assert rows[u][..|rows[u]|] == rows[u];
  }

  /** The recovered set and its growth after the vertices `done` of a level. */
  ghost predicate LevelHits(gt: set<nat>, done: seq<nat>, before: set<nat>, recovered: set<nat>, here: int) {
    recovered == before + gt * Elements(done) && here == |recovered| - |before|
  }

  lemma LevelHitsStep(gt: set<nat>, done: seq<nat>, u: nat, before: set<nat>, mid: set<nat>, recovered: set<nat>,
      here: int)
    requires LevelHits(gt, done, before, mid, here) && recovered == mid + gt * {u}
    ensures LevelHits(gt, done + [u], before, recovered, here + |recovered| - |mid|)
  {
    assert Elements(done + [u]) == Elements(done) + {u};
  }

  lemma SlotPush(rows: Rows, rs: nat, re: nat, target: nat, last: bool, cur: nat, vis0: seq<bool>, vis: seq<bool>,
                 todo: seq<nat>, found: seq<nat>, j: nat)
    requires Marks(Scannable(rows, rs, re), target, last, cur, vis0, vis, todo, found) && !last && re < |rows|
    requires todo != [] && todo[0] < |rows| && j < |rows[todo[0]]| && RowDone(rs, re, last, vis, rows[todo[0]], j)
    requires var v := rows[todo[0]][j]; rs <= v <= re && !vis[v]
    ensures var v := rows[todo[0]][j];
      && Marks(Scannable(rows, rs, re), target, last, cur, vis0, vis[v := true], todo, found + [v])
      && RowDone(rs, re, last, vis[v := true], rows[todo[0]], j + 1)
      && Unmarked(vis[v := true]) < Unmarked(vis)
  {
    hide MidLevel, Scannable;
    var v := rows[todo[0]][j];
    ScannableEdge(rows, rs, re, todo[0], v);
    MidPush(Scannable(rows, rs, re), target, cur, vis, todo, found, v);
    UnmarkedShrinks(vis, v);
  }

  lemma RowPop(rows: Rows, rs: nat, re: nat, target: nat, last: bool, cur: nat, vis0: seq<bool>, vis: seq<bool>,
               todo: seq<nat>, found: seq<nat>)
    requires Marks(Scannable(rows, rs, re), target, last, cur, vis0, vis, todo, found) && re < |rows|
    requires todo != [] && todo[0] < |rows| && RowDone(rs, re, last, vis, rows[todo[0]], |rows[todo[0]]|)
    ensures Marks(Scannable(rows, rs, re), target, last, cur, vis0, vis, todo[1..], found)
  {
    hide MidLevel, Scannable;
    if !last {
      var u := todo[0];
      forall v: nat | Edge(Scannable(rows, rs, re), u, v) ensures vis[v] {
        ScannableEdge(rows, rs, re, u, v);
        var i :| 0 <= i < |rows[u]| && rows[u][i] == v;
      }
      MidPop(Scannable(rows, rs, re), target, cur, vis, todo, found);
    }
  }

  lemma LevelSets(g: Digraph, target: nat, gt: set<nat>, cur: nat, before: set<nat>, recovered: set<nat>)
    requires before == (if cur == 0 then {} else gt * Ball(g, target, cur - 1))
    requires recovered == before + gt * Sphere(g, target, cur)
    ensures recovered == gt * Ball(g, target, cur)
    ensures |recovered| == |before| + |gt * Sphere(g, target, cur)|
  {
    if cur > 0 {
      BallGrows(g, target, cur - 1, cur);
      hide Ball;
      assert Ball(g, target, cur) == Ball(g, target, cur - 1) + Sphere(g, target, cur);
      assert before !! gt * Sphere(g, target, cur);
    }
  }

  /** Sizes and sets at the end of level `cur`. */
  lemma LevelEnd(g: Digraph, target: nat, gt: set<nat>, maxLevels: int, lines: seq<Line>, cur: nat, vis0: seq<bool>,
      q0: seq<nat>,
                 before: set<nat>, visited0: nat, vis: seq<bool>, found: seq<nat>, recovered: set<nat>, here: int)
    requires Standing(g, target, gt, maxLevels, lines, cur, vis0, q0, before, visited0) && cur <= maxLevels
    requires Marks(g, target, cur == maxLevels, cur, vis0, vis, [], found)
    requires LevelHits(gt, q0, before, recovered, here)
    ensures recovered == gt * Ball(g, target, cur) && here >= 0
    ensures var line := Line(cur, |q0|, visited0 + |found|, here, |recovered|);
      RightLine(g, target, gt, maxLevels, line, cur)
    ensures cur < maxLevels ==> LevelStart(g, target, cur + 1, vis, found)
  {
    hide Ball, Sphere, Edge, NoDuplicates, MidLevel;
    LevelSizes(g, target, cur, vis0, q0);
    LevelSets(g, target, gt, cur, before, recovered);
    if cur < maxLevels {
      MidDone(g, target, cur, vis, found);
      LevelSizes(g, target, cur + 1, vis, found);
    }
  }

  lemma StandingStart(g: Digraph, target: nat, gt: set<nat>, maxLevels: int, vis: seq<bool>)
    requires LevelStart(g, target, 0, vis, [target])
    ensures Standing(g, target, gt, maxLevels, [], 0, vis, [target], {}, 1)
  {
  }

  lemma StandingNext(g: Digraph, target: nat, gt: set<nat>, maxLevels: int, lines: seq<Line>, cur: nat,
      vis0: seq<bool>, q0: seq<nat>,
                     before: set<nat>, visited0: nat, vis: seq<bool>, q: seq<nat>, recovered: set<nat>, line: Line)
    requires Standing(g, target, gt, maxLevels, lines, cur, vis0, q0, before, visited0) && cur <= maxLevels
    requires recovered == gt * Ball(g, target, cur) && |recovered| != |gt|
    requires RightLine(g, target, gt, maxLevels, line, cur) && line.frontier > 0
    requires cur < maxLevels ==> LevelStart(g, target, cur + 1, vis, q)
    ensures Standing(g, target, gt, maxLevels, lines + [line], cur + 1, vis, q, recovered, line.visited)
  {
    hide Ball, Sphere, LevelStart;
    assert gt <= Ball(g, target, cur) ==> recovered == gt;
  }

  lemma Completed(g: Digraph, target: nat, gt: set<nat>, maxLevels: int, lines: seq<Line>, cur: nat,
      vis0: seq<bool>, q0: seq<nat>,
                  before: set<nat>, visited0: nat, recovered: set<nat>, line: Line)
    requires Standing(g, target, gt, maxLevels, lines, cur, vis0, q0, before, visited0) && cur <= maxLevels
    requires recovered == gt * Ball(g, target, cur) && |recovered| == |gt|
    requires RightLine(g, target, gt, maxLevels, line, cur) && line.frontier > 0
    ensures CorrectOutcome(g, target, gt, maxLevels, lines + [line], Outcome(recovered, |gt|, line.visited, cur))
  {
    hide Ball, Sphere, LevelStart;
    SubsetSize(recovered, gt);
  }

  lemma SameBall(g: Digraph, s: nat, k: nat, l: nat)
    requires k > 0 && Sphere(g, s, k) == {} && k - 1 <= l
    ensures Ball(g, s, l) == Ball(g, s, k - 1)
  {
    hide Ball, Sphere, Reach;
    BallGrows(g, s, k - 1, l);
    forall v | v in Ball(g, s, l) ensures v in Ball(g, s, k - 1) {
      SphereIsNew(g, s, k, v);
      BallReach(g, s, l, v);
      BallSaturated(g, s, k, v);
      assert v !in Sphere(g, s, k);
    }
  }

  lemma GivenUp(g: Digraph, target: nat, gt: set<nat>, maxLevels: int, lines: seq<Line>, cur: nat, vis: seq<bool>,
      q: seq<nat>,
                recovered: set<nat>, visited: nat)
    requires Standing(g, target, gt, maxLevels, lines, cur, vis, q, recovered, visited)
    requires q == [] || cur > maxLevels
    ensures CorrectOutcome(g, target, gt, maxLevels, lines, Outcome(recovered, |gt|, visited, -1))
  {
    if cur <= maxLevels {
      LevelSizes(g, target, cur, vis, q);
      var b := Ball(g, target, cur - 1);
      forall l: nat | cur - 1 <= l ensures Ball(g, target, l) == b {
        SameBall(g, target, cur, l);
      }
      forall l: nat ensures !(gt <= Ball(g, target, l)) {
        if l >= cur { assert Ball(g, target, l) == b; }
      }
    }
  }

  lemma LevelHitsStart(gt: set<nat>, before: set<nat>)
    ensures LevelHits(gt, [], before, before, 0)
  {
  }

  lemma RowStart(rs: nat, re: nat, last: bool, vis: seq<bool>, row: seq<nat>)
    requires re < |vis|
    ensures RowDone(rs, re, last, vis, row, 0)
  {
  }

  lemma RowSkip(rs: nat, re: nat, last: bool, vis: seq<bool>, row: seq<nat>, j: nat)
    requires RowDone(rs, re, last, vis, row, j) && j < |row| && re < |vis|
    requires last || row[j] < rs || row[j] > re || vis[row[j]]
    ensures RowDone(rs, re, last, vis, row, j + 1)
  {
  }

  /** The loop over the slots of one row: record a hit on the target, queue what is new. */
  method ExpandRow(g: Graph, target: nat, rs: nat, re: nat, last: bool, ghost cur: nat, gt: set<nat>, seen: array<bool>,
                   u: nat, ghost vis0: seq<bool>, ghost todo: seq<nat>, ghost found: seq<nat>,
                   q0: seq<nat>, recovered0: set<nat>, visited0: nat, recoveredHere0: int)
    returns (q: seq<nat>, recovered: set<nat>, visited: nat, recoveredHere: int, ghost more: seq<nat>)
    requires g.Valid() && re < g.nRows == seen.Length && u < g.nRows
    requires forall x :: x in gt ==> InNeighbor(g.AllRows(), target, x)
    requires Marks(Scannable(g.AllRows(), rs, re), target, last, cur, vis0, seen[..], [u] + todo, found)
    modifies seen
    ensures Marks(Scannable(g.AllRows(), rs, re), target, last, cur, vis0, seen[..], todo, found + more)
    ensures recovered == recovered0 + gt * {u} && recoveredHere == recoveredHere0 + |recovered| - |recovered0|
    ensures q == q0 + more && visited == visited0 + |more|
  {
    hide Marks, RowDone, RowHits, Scannable, InNeighbor;
    ghost var rows := g.AllRows();
    ghost var vis, all := seen[..], found;
    var neighbors := g.Neighbors(u);
    q, recovered, visited, recoveredHere, more := q0, recovered0, visited0, recoveredHere0, [];
    RowStart(rs, re, last, vis, neighbors);
    RowHitsStart(gt, target, u, neighbors, recovered0);
    assert all == found + more && q == q0 + more;
    for j := 0 to |neighbors|
      invariant seen[..] == vis && q == q0 + more && all == found + more && visited == visited0 + |more|
      invariant Marks(Scannable(rows, rs, re), target, last, cur, vis0, vis, [u] + todo, all)
      invariant RowDone(rs, re, last, vis, neighbors, j)
      invariant RowHits(gt, target, u, neighbors, j, recovered0, recovered, recoveredHere - recoveredHere0)
    {
      var v := neighbors[j];
      RowHitsStep(gt, target, u, neighbors, j, recovered0, recovered, recoveredHere - recoveredHere0);
      if v == target && u in gt {
        if u !in recovered { recoveredHere := recoveredHere + 1; }
        recovered := recovered + {u};
      }
      if last || v < rs || v > re || seen[v] {
        RowSkip(rs, re, last, vis, neighbors, j);
        continue;
      }
      SlotPush(rows, rs, re, target, last, cur, vis0, vis, [u] + todo, all, j);
      seen[v] := true;
      vis := vis[v := true];
      q := q + [v];
      more := more + [v];
      all := all + [v];
      visited := visited + 1;
      assert seen[..] == vis && q == q0 + more && all == found + more;
    }
    RowHitsDone(rows, target, gt, u, recovered0, recovered, recoveredHere - recoveredHere0);
    RowPop(rows, rs, re, target, last, cur, vis0, vis, [u] + todo, all);
    assert ([u] + todo)[1..] == todo;
  }

  /** The loop over the `|q0|` vertices of one level. */
  method ExpandLevel(g: Graph, target: nat, rs: nat, re: nat, last: bool, ghost cur: nat, gt: set<nat>,
      seen: array<bool>,
                     q0: seq<nat>, before: set<nat>, visited0: nat)
    returns (q: seq<nat>, recovered: set<nat>, visited: nat, recoveredHere: int)
    requires g.Valid() && re < g.nRows == seen.Length
    requires forall x :: x in gt ==> InNeighbor(g.AllRows(), target, x)
    requires Marks(Scannable(g.AllRows(), rs, re), target, last, cur, seen[..], seen[..], q0, [])
    requires forall x :: x in q0 ==> x < g.nRows
    modifies seen
    ensures Marks(Scannable(g.AllRows(), rs, re), target, last, cur, old(seen[..]), seen[..], [], q)
    ensures LevelHits(gt, q0, before, recovered, recoveredHere)
    ensures visited == visited0 + |q|
  {
    hide Marks, Scannable, InNeighbor, LevelHits;
    ghost var h := Scannable(g.AllRows(), rs, re);
    ghost var vis0 := seen[..];
    ghost var done, todo, found: seq<nat> := [], q0, [];
    q, recovered, visited, recoveredHere := q0, before, visited0, 0;
    LevelHitsStart(gt, before);
    assert q == todo + found && done + todo == q0;
    var k := 0;
    while k < |q0|
      invariant 0 <= k == |done| <= |q0| && done + todo == q0
      invariant q == todo + found && visited == visited0 + |found|
      invariant Marks(h, target, last, cur, vis0, seen[..], todo, found)
      invariant LevelHits(gt, done, before, recovered, recoveredHere)
    {
      var u := q[0];
      assert u == todo[0] == q0[k] && u in q0 && todo == [u] + todo[1..];
      q := q[1..];
      todo := todo[1..];
      assert q == todo + found && done + [u] + todo == q0;
      ghost var more, mid, here := [], recovered, recoveredHere;
      q, recovered, visited, recoveredHere, more :=
        ExpandRow(g, target, rs, re, last, cur, gt, seen, u, vis0, todo, found, q, recovered, visited, recoveredHere);
      LevelHitsStep(gt, done, u, before, mid, recovered, here);
      done := done + [u];
      assert q == todo + (found + more);
      found := found + more;
      k := k + 1;
    }
    assert todo == [] && done == q0 && q == found;
  }

  lemma GroundTruth(rows: Rows, target: nat, gt: set<nat>)
    requires target < |rows| && gt == set u | u in Transposed(rows)[target]
    ensures forall u: nat :: u in gt <==> InNeighbor(rows, target, u)
  {
    forall u: nat ensures u in gt <==> InNeighbor(rows, target, u) {
      IncomingMember(rows, target, |rows|, u);
    }
  }

  lemma MarksStart(g: Digraph, target: nat, gt: set<nat>, maxLevels: int, lines: seq<Line>, cur: nat,
      vis: seq<bool>, q: seq<nat>,
                   recovered: set<nat>, visited: nat)
    requires Standing(g, target, gt, maxLevels, lines, cur, vis, q, recovered, visited) && cur <= maxLevels
    ensures Marks(g, target, cur == maxLevels, cur, vis, vis, q, [])
  {
    MidStart(g, target, cur, vis, q);
  }

  lemma FrontierInside(g: Digraph, target: nat, gt: set<nat>, maxLevels: int, lines: seq<Line>, cur: nat,
      vis: seq<bool>, q: seq<nat>,
                       recovered: set<nat>, visited: nat)
    requires Standing(g, target, gt, maxLevels, lines, cur, vis, q, recovered, visited) && cur <= maxLevels
    ensures forall x :: x in q ==> x < |g|
  {
    forall x | x in q ensures x < |g| {
      assert x in Elements(q);
      BallInside(g, target, cur, x);
    }
  }

  method RunTarget(g: Graph, target: nat, rs: nat, re: nat, maxLevels: int, rev: Rows)
    returns (out: Outcome, lines: seq<Line>)
    requires g.Valid() && target < g.nRows && rs <= re < g.nRows && rev == Transposed(g.AllRows())
    ensures CorrectOutcome(Scannable(g.AllRows(), rs, re), target, Elements(rev[target]), maxLevels, lines, out)
  {
    hide Standing, Marks, CorrectOutcome, RightLine, LevelStart, LevelHits, Scannable, InNeighbor, Ball, Sphere;
    ghost var h := Scannable(g.AllRows(), rs, re);
    var gt := set u | u in rev[target];
    GroundTruth(g.AllRows(), target, gt);
    var recovered: set<nat> := {};
    var seen := new bool[g.nRows](_ => false);
    ghost var vis := seen[..];
    SearchStart(h, target, vis);
    var q: seq<nat> := [target];
    seen[target] := true;
    vis := vis[target := true];
    assert seen[..] == vis;
    var visited, cur := 1, 0;
    lines := [];
    StandingStart(h, target, gt, maxLevels, vis);
    while q != [] && cur <= maxLevels
      invariant seen[..] == vis && cur >= 0 && visited >= 0
      invariant Standing(h, target, gt, maxLevels, lines, cur, vis, q, recovered, visited)
      decreases maxLevels + 1 - cur
    {
      var frontierSize, visited0 := |q|, visited;
      ghost var vis0, q0, before := vis, q, recovered;
      MarksStart(h, target, gt, maxLevels, lines, cur, vis, q, recovered, visited);
      FrontierInside(h, target, gt, maxLevels, lines, cur, vis, q, recovered, visited);
      var recoveredThisLevel;
      q, recovered, visited, recoveredThisLevel := ExpandLevel(g, target, rs, re, cur == maxLevels, cur, gt, seen, q, recovered, visited);
      vis := seen[..];
      LevelEnd(h, target, gt, maxLevels, lines, cur, vis0, q0, before, visited0, vis, q, recovered, recoveredThisLevel);
      var line := Line(cur, frontierSize, visited, recoveredThisLevel, |recovered|);
      if |recovered| == |gt| {
        Completed(h, target, gt, maxLevels, lines, cur, vis0, q0, before, visited0, recovered, line);
        return Outcome(recovered, |gt|, visited, cur), lines + [line];
      }
      StandingNext(h, target, gt, maxLevels, lines, cur, vis0, q0, before, visited0, vis, q, recovered, line);
      lines := lines + [line];
      cur := cur + 1;
    }
    GivenUp(h, target, gt, maxLevels, lines, cur, vis, q, recovered, visited);
    out := Outcome(recovered, |gt|, visited, -1);
  }

  /** Line `l` counts the vertices at distance `l`, those queued by the end of the level,
      and the in-neighbours at that distance and within it; `queued` is one more than `l`
      unless that is the last level. */
  lemma LinesByDistance(g: Digraph, target: nat, gt: set<nat>, maxLevels: int, lines: seq<Line>, out: Outcome,
      l: nat, queued: nat) returns (at: set<nat>, within: set<nat>, seen: set<nat>)
    requires CorrectOutcome(g, target, gt, maxLevels, lines, out) && l < |lines|
    requires queued == if l < maxLevels then l + 1 else l
    ensures forall v: nat :: v in at <==> AtDistance(g, target, v, l)
    ensures forall v: nat :: v in within <==> Within(g, target, v, l)
    ensures forall v: nat :: v in seen <==> Within(g, target, v, queued)
    ensures lines[l] == Line(l, |at|, |seen|, |gt * at|, |gt * within|) && at != {}
  {
    hide Ball, Sphere, Within, AtDistance;
    at, within, seen := Sphere(g, target, l), Ball(g, target, l), Ball(g, target, queued);
    assert RightLine(g, target, gt, maxLevels, lines[l], l);
    forall v: nat ensures (v in at <==> AtDistance(g, target, v, l)) && (v in within <==> Within(g, target, v, l)) {
      LevelsAreDistances(g, target, l, v);
    }
    forall v: nat ensures v in seen <==> Within(g, target, v, queued) {
      LevelsAreDistances(g, target, queued, v);
    }
  }

  /** Whether or not the search stopped early, it has recovered exactly the in-neighbours
      within `maxLevels` edges of the target. */
  lemma RecoveredIsWithinReach(g: Digraph, target: nat, gt: set<nat>, maxLevels: nat, lines: seq<Line>, out: Outcome)
    requires CorrectOutcome(g, target, gt, maxLevels, lines, out)
    ensures out.recovered == gt * Ball(g, target, maxLevels)
  {
    if out.completed >= 0 {
      BallGrows(g, target, out.completed, maxLevels);
    }
  }

  /** Scanning every row with enough levels recovers exactly the in-neighbours that lie
      in the strongly connected component of the target. */
  lemma FullScanFindsComponent(rows: Rows, target: nat, maxLevels: nat, lines: seq<Line>, out: Outcome, u: nat)
    requires target < |rows| <= maxLevels + 1
    requires CorrectOutcome(Scannable(rows, 0, |rows| - 1), target, Elements(Transposed(rows)[target]), maxLevels, lines, out)
    ensures u in out.recovered <==> InNeighbor(rows, target, u) && Scc(Whole(rows), u, target)
  {
    hide Ball, CorrectOutcome;
    var g, h, gt := Scannable(rows, 0, |rows| - 1), Whole(rows), Elements(Transposed(rows)[target]);
    RecoveredIsWithinReach(g, target, gt, maxLevels, lines, out);
    GroundTruth(rows, target, gt);
    BallFull(g, target, maxLevels, u);
    forall a: nat, b: nat ensures Edge(g, a, b) <==> Edge(h, a, b) {
      ScannableEdge(rows, 0, |rows| - 1, a, b);
    }
    if Reach(g, target, u) { ReachMono(g, h, target, u); }
    if Reach(h, target, u) { ReachMono(h, g, target, u); }
    if InNeighbor(rows, target, u) { EdgeReach(h, u, target); }
  }
}
