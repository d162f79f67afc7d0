/** Breadth-first levels: distance as the least number of edges, and the invariants of a
    search that works through one level at a time. */
module Levels {
  import opened Digraphs
  import opened FiniteSets

  ghost predicate Follows(g: Digraph, from: set<nat>, v: nat) {
    exists u :: u in from && Edge(g, u, v)
  }

  ghost function Next(g: Digraph, from: set<nat>): set<nat> {
    set v: nat | v < |g| && Follows(g, from, v)
  }

  /** The vertices reached from `s` by at most `l` edges. */
  ghost function Ball(g: Digraph, s: nat, l: nat): set<nat> {
    if l == 0 then {s} else Ball(g, s, l - 1) + Next(g, Ball(g, s, l - 1))
  }

  /** The vertices at distance exactly `l`. */
  ghost function Sphere(g: Digraph, s: nat, l: nat): set<nat> {
    if l == 0 then {s} else Ball(g, s, l) - Ball(g, s, l - 1)
  }

  lemma {:induction false} WalkOfBall(g: Digraph, s: nat, l: nat, v: nat) returns (k: nat)
    requires v in Ball(g, s, l)
    ensures k <= l && Walk(g, s, v, k)
  {
    if l == 0 {
      k := 0;
    } else if v in Ball(g, s, l - 1) {
      k := WalkOfBall(g, s, l - 1, v);
    } else {
      assert Follows(g, Ball(g, s, l - 1), v);
      var u :| u in Ball(g, s, l - 1) && Edge(g, u, v);
      k := WalkOfBall(g, s, l - 1, u);
      k := k + 1;
    }
  }

  lemma {:induction false} BallOfWalk(g: Digraph, s: nat, l: nat, v: nat, k: nat)
    requires k <= l && Walk(g, s, v, k)
    ensures v in Ball(g, s, l)
    decreases l
  {
    if k < l {
      BallOfWalk(g, s, l - 1, v, k);
    } else if k > 0 {
      var w: nat :| Walk(g, s, w, k - 1) && Edge(g, w, v);
      BallOfWalk(g, s, l - 1, w, k - 1);
    }
  }

  lemma {:induction false} BallIsWalks(g: Digraph, s: nat, l: nat, v: nat)
    ensures v in Ball(g, s, l) <==> exists k: nat :: k <= l && Walk(g, s, v, k)
  {
    if v in Ball(g, s, l) {
      var k := WalkOfBall(g, s, l, v);
      assert k <= l && Walk(g, s, v, k);
    }
    if k: nat :| k <= l && Walk(g, s, v, k) {
      BallOfWalk(g, s, l, v, k);
    }
  }

  ghost predicate Within(g: Digraph, s: nat, v: nat, l: nat) {
    exists k: nat :: k <= l && Walk(g, s, v, k)
  }

  /** `v` is reached by `l` edges and not by fewer. */
  ghost predicate AtDistance(g: Digraph, s: nat, v: nat, l: nat) {
    Walk(g, s, v, l) && forall k: nat :: k < l ==> !Walk(g, s, v, k)
  }

  lemma BallIsWithin(g: Digraph, s: nat, l: nat, v: nat)
    ensures v in Ball(g, s, l) <==> Within(g, s, v, l)
  {
    hide Ball;
    if v in Ball(g, s, l) {
      var k := WalkOfBall(g, s, l, v);
    }
    if Within(g, s, v, l) {
      var k: nat :| k <= l && Walk(g, s, v, k);
      BallOfWalk(g, s, l, v, k);
    }
  }

  lemma DistanceIsNew(g: Digraph, s: nat, v: nat, l: nat)
    ensures AtDistance(g, s, v, l) <==> Within(g, s, v, l) && (l > 0 ==> !Within(g, s, v, l - 1))
  {
    hide Walk;
    if Within(g, s, v, l) && (l > 0 ==> !Within(g, s, v, l - 1)) {
      var k: nat :| k <= l && Walk(g, s, v, k);
      assert k == l;
    }
  }

  lemma SphereIsNew(g: Digraph, s: nat, l: nat, v: nat)
    ensures v in Sphere(g, s, l) <==> v in Ball(g, s, l) && (l > 0 ==> v !in Ball(g, s, l - 1))
  {
  }

  /** The balls and spheres are the vertices within a distance and at it. */
  lemma LevelsAreDistances(g: Digraph, s: nat, l: nat, v: nat)
    ensures v in Ball(g, s, l) <==> Within(g, s, v, l)
    ensures v in Sphere(g, s, l) <==> AtDistance(g, s, v, l)
  {
    hide Ball, Sphere, Within, AtDistance;
    BallIsWithin(g, s, l, v);
    if l > 0 { BallIsWithin(g, s, l - 1, v); }
    DistanceIsNew(g, s, v, l);
    SphereIsNew(g, s, l, v);
  }

  lemma {:induction false} BallGrows(g: Digraph, s: nat, k: nat, l: nat)
    requires k <= l
    ensures Ball(g, s, k) <= Ball(g, s, l)
    decreases l - k
  {
    if k < l {
      BallGrows(g, s, k + 1, l);
    }
  }

  lemma {:induction false} BallInside(g: Digraph, s: nat, l: nat, v: nat)
    requires s < |g| && v in Ball(g, s, l)
    ensures v < |g|
  {
    if l > 0 && v in Ball(g, s, l - 1) {
      BallInside(g, s, l - 1, v);
    }
  }

  /** Once a level is empty, the ball holds everything reachable. */
  lemma {:induction false} BallSaturated(g: Digraph, s: nat, l: nat, v: nat)
    requires Sphere(g, s, l) == {}
    ensures v in Ball(g, s, l) <==> Reach(g, s, v)
  {
    if v in Ball(g, s, l) {
      var k := WalkOfBall(g, s, l, v);
    }
    if Reach(g, s, v) {
      var b := Ball(g, s, l - 1);
      forall x: nat, y: nat | x in b && Edge(g, x, y) ensures y in b {
        assert Follows(g, b, y);
        assert y !in Sphere(g, s, l);
      }
      BallGrows(g, s, 0, l - 1);
      ClosedReach(g, b, s, v);
    }
  }

  lemma LevelGrowth(g: Digraph, s: nat, l: nat)
    requires l > 0
    ensures |Ball(g, s, l)| == |Ball(g, s, l - 1)| + |Sphere(g, s, l)|
  {
    BallGrows(g, s, l - 1, l);
    hide Ball;
    assert Ball(g, s, l) == Ball(g, s, l - 1) + Sphere(g, s, l);
  }

  lemma {:induction false} EmptyLevelOrGrowth(g: Digraph, s: nat, l: nat) returns (k: nat)
    ensures k <= l + 1
    ensures if k <= l then Sphere(g, s, k) == {} else |Ball(g, s, l)| >= l + 1
  {
    hide Sphere, Next;
    if l == 0 {
      k := 1;
    } else {
      k := EmptyLevelOrGrowth(g, s, l - 1);
      if k == l && Sphere(g, s, l) != {} {
        k := l + 1;
        LevelGrowth(g, s, l);
      }
    }
  }

  lemma BallReach(g: Digraph, s: nat, l: nat, v: nat)
    requires v in Ball(g, s, l)
    ensures Reach(g, s, v)
  {
    var k := WalkOfBall(g, s, l, v);
  }

  /** No distance exceeds the number of vertices: `|g| - 1` levels reach everything. */
  lemma BallFull(g: Digraph, s: nat, l: nat, v: nat)
    requires s < |g| && l + 1 >= |g|
    ensures v in Ball(g, s, l) <==> Reach(g, s, v)
  {
    hide Ball, Reach, Sphere;
    var k := EmptyLevelOrGrowth(g, s, l);
    BallIsWalks(g, s, l, v);
    if k <= l {
      BallSaturated(g, s, k, v);
      BallGrows(g, s, k, l);
      if v in Ball(g, s, l) { BallReach(g, s, l, v); }
    } else {
      forall x | x in Ball(g, s, l) ensures x in Below(|g|) { BallInside(g, s, l, x); }
      SubsetSize(Ball(g, s, l), Below(|g|));
      if Reach(g, s, v) { ReachInside(g, s, v); }
      if v in Ball(g, s, l) { BallReach(g, s, l, v); }
    }
  }

  ghost function Marked(vis: seq<bool>): set<nat> {
    set x: nat | x < |vis| && vis[x]
  }

  /** The search stands at the start of level `l`: the queue holds that level. */
  ghost predicate LevelStart(g: Digraph, s: nat, l: nat, vis: seq<bool>, q: seq<nat>) {
    && |vis| == |g| && s < |g|
    && NoDuplicates(q) && Elements(q) == Sphere(g, s, l)
    && Marked(vis) == Ball(g, s, l)
  }

  /** Within level `l`: `todo` is what is left of the level, `found` the next level so far. */
  ghost predicate MidLevel(g: Digraph, s: nat, l: nat, vis: seq<bool>, todo: seq<nat>, found: seq<nat>) {
    && |vis| == |g| && s < |g|
    && Elements(todo) <= Ball(g, s, l)
    && NoDuplicates(found) && Elements(found) !! Ball(g, s, l)
    && Elements(found) <= Next(g, Ball(g, s, l))
    && Marked(vis) == Ball(g, s, l) + Elements(found)
    && forall u: nat, v: nat :: u in Ball(g, s, l) && u !in todo && Edge(g, u, v) ==> vis[v]
  }

  lemma SearchStart(g: Digraph, s: nat, vis: seq<bool>)
    requires |vis| == |g| && s < |g| && forall x :: 0 <= x < |vis| ==> !vis[x]
    ensures LevelStart(g, s, 0, vis[s := true], [s])
  {
    assert Elements([s]) == {s};
  }

  lemma MidStart(g: Digraph, s: nat, l: nat, vis: seq<bool>, q: seq<nat>)
    requires LevelStart(g, s, l, vis, q)
    ensures MidLevel(g, s, l, vis, q, [])
  {
    forall u: nat, v: nat | u in Ball(g, s, l) && u !in q && Edge(g, u, v) ensures vis[v] {
      assert u !in Elements(q);
      assert v in Ball(g, s, l);
    }
  }

  lemma MidPush(g: Digraph, s: nat, l: nat, vis: seq<bool>, todo: seq<nat>, found: seq<nat>, v: nat)
    requires MidLevel(g, s, l, vis, todo, found)
    requires todo != [] && Edge(g, todo[0], v) && !vis[v]
    ensures MidLevel(g, s, l, vis[v := true], todo, found + [v])
  {
    assert todo[0] in Elements(todo);
    assert v !in Marked(vis) && Marked(vis[v := true]) == Marked(vis) + {v};
    assert Elements(found + [v]) == Elements(found) + {v};
    assert v !in found by { assert v !in Elements(found); }
  }

  lemma MidPop(g: Digraph, s: nat, l: nat, vis: seq<bool>, todo: seq<nat>, found: seq<nat>)
    requires MidLevel(g, s, l, vis, todo, found) && todo != []
    requires forall v: nat :: Edge(g, todo[0], v) ==> vis[v]
    ensures MidLevel(g, s, l, vis, todo[1..], found)
  {
    assert forall x :: x in todo ==> x == todo[0] || x in todo[1..];
  }

  lemma MidDone(g: Digraph, s: nat, l: nat, vis: seq<bool>, found: seq<nat>)
    requires MidLevel(g, s, l, vis, [], found)
    ensures LevelStart(g, s, l + 1, vis, found)
  {
    var b := Ball(g, s, l);
    forall v | v in Next(g, b) ensures v in Marked(vis) {
      var u :| u in b && Edge(g, u, v);
    }
    assert Ball(g, s, l + 1) == b + Next(g, b);
    assert Sphere(g, s, l + 1) == Elements(found);
  }

  /** Sizes at the start of a level. */
  lemma LevelSizes(g: Digraph, s: nat, l: nat, vis: seq<bool>, q: seq<nat>)
    requires LevelStart(g, s, l, vis, q)
    ensures |q| == |Sphere(g, s, l)|
    ensures l > 0 ==> |Ball(g, s, l)| == |Ball(g, s, l - 1)| + |q|
    ensures l == 0 ==> |Ball(g, s, l)| == 1
  {
    ElementsSize(q);
    if l > 0 {
      BallGrows(g, s, l - 1, l);
      assert Ball(g, s, l) == Ball(g, s, l - 1) + Sphere(g, s, l);
    }
  }
}
