/** The low-link invariants of Tarjan's algorithm, as predicates over snapshots of its
    tables, with one lemma for each thing the recursive search does to them. */
module LowLink {
  import opened Digraphs
  import opened Components

  /** A snapshot; the low-links themselves are passed separately. */
  datatype Tables = Tables(
    index: seq<int>, onstack: seq<bool>, comp: seq<int>, stack: seq<nat>, next: nat, cnt: nat)

  ghost predicate Visited(t: Tables, x: nat) {
    x < |t.index| && t.index[x] != -1
  }

  ghost predicate Stacked(t: Tables, x: nat) {
    x < |t.onstack| && t.onstack[x]
  }

  ghost predicate Labelled(t: Tables, x: nat) {
    x < |t.comp| && t.comp[x] != -1
  }

  ghost predicate Earlier(t: Tables, x: nat, y: nat) {
    Visited(t, x) && Visited(t, y) && t.index[x] < t.index[y]
  }

  ghost predicate WellFormed(g: Digraph, t: Tables) {
    && |t.index| == |t.onstack| == |t.comp| == |g|
    && (forall x: nat :: Visited(t, x) ==> 0 <= t.index[x] < t.next)
    && (forall x: nat :: Labelled(t, x) ==> 0 <= t.comp[x] < t.cnt)
    && (forall x: nat :: Visited(t, x) <==> Stacked(t, x) || Labelled(t, x))
    && (forall x: nat :: Stacked(t, x) ==> !Labelled(t, x))
    && (forall x: nat :: x in t.stack <==> Stacked(t, x))
    && (forall i, j :: 0 <= i < j < |t.stack| ==> Earlier(t, t.stack[i], t.stack[j]))
  }

  /** An open vertex at or below `y` on the stack that `y` reaches. */
  ghost predicate Anchored(g: Digraph, t: Tables, gray: set<nat>, y: nat) {
    exists w :: w in gray && (w == y || Earlier(t, w, y)) && Reach(g, y, w)
  }

  /** The labelled vertices are whole components, numbered from the sinks up. */
  ghost predicate LabelsRight(g: Digraph, comp: seq<int>, cnt: nat) {
    && |comp| == |g|
    && (forall c :: 0 <= c < cnt ==> HasLabel(comp, c))
    && (forall x: nat :: x < |g| ==> -1 <= comp[x] < cnt)
    && (forall x: nat, y: nat :: Edge(g, x, y) && comp[x] != -1 ==> comp[y] != -1 && comp[y] <= comp[x])
    && (forall x: nat, y: nat :: x < |g| && y < |g| && comp[x] != -1 && comp[y] != -1 ==>
      (comp[x] == comp[y] <==> Scc(g, x, y)))
  }

  /** `gray` holds the open vertices, those whose call has not returned. */
  ghost predicate Inv(g: Digraph, t: Tables, gray: set<nat>) {
    && WellFormed(g, t)
    && (forall x :: x in gray ==> Stacked(t, x))
    && (forall x: nat, y: nat :: Stacked(t, x) && Stacked(t, y) && Earlier(t, x, y) ==> Reach(g, x, y))
    && (forall y: nat :: Stacked(t, y) ==> Anchored(g, t, gray, y))
    && (forall x: nat, y: nat :: Visited(t, x) && x !in gray && Edge(g, x, y) ==> Visited(t, y))
    && LabelsRight(g, t.comp, t.cnt)
  }

  /** `t'` continues `t`: old entries are kept, the stack only grew, and everything
      newly visited is reached from `v`. */
  ghost predicate Continues(g: Digraph, t: Tables, t': Tables, v: nat) {
    && t.next <= t'.next && t.cnt <= t'.cnt && t.stack <= t'.stack
    && (forall x: nat :: Visited(t, x) ==> Visited(t', x) && t'.index[x] == t.index[x])
    && (forall x: nat :: Visited(t, x) ==> (Stacked(t', x) <==> Stacked(t, x)))
    && (forall x: nat :: Visited(t', x) && !Visited(t, x) ==> t.next <= t'.index[x] && Reach(g, v, x))
  }

  /** `low` bounds the indices of old stack vertices that newly stacked ones, `but` aside, point to. */
  ghost predicate Bounds(g: Digraph, t: Tables, t': Tables, but: set<nat>, low: int) {
    forall x: nat, y: nat :: Stacked(t', x) && !Visited(t, x) && x !in but && Edge(g, x, y) && Stacked(t, y) && Visited(t, y) ==>
      low <= t.index[y]
  }

  /** `low` is the index of a stacked vertex that `v` reaches. */
  ghost predicate Attained(g: Digraph, t: Tables, v: nat, low: int) {
    exists y: nat :: Stacked(t, y) && Visited(t, y) && t.index[y] == low && Reach(g, v, y)
  }

  /** What a finished call on `v`, made in `t`, has achieved in `t'`. */
  ghost predicate Returned(g: Digraph, t: Tables, t': Tables, v: nat, low: int) {
    && Visited(t', v) && low <= t'.index[v]
    && (if Stacked(t', v) then Attained(g, t, v, low) else t'.stack == t.stack && low == t'.index[v])
    && Bounds(g, t, t', {}, low)
  }

  /** A target already examined: visited, and accounted for in `low` if it was on the stack. */
  ghost predicate Seen(t0: Tables, t: Tables, y: nat, low: int) {
    Visited(t, y) && (Stacked(t0, y) && Visited(t0, y) ==> low <= t0.index[y])
  }

  /** The call on `v`, made in `t0`, has examined the first `j` slots of `row`. */
  ghost predicate Scanning(g: Digraph, t0: Tables, t: Tables, gray: set<nat>, v: nat, row: seq<nat>, j: nat, low: int) {
    && Inv(g, t, gray + {v}) && Continues(g, t0, t, v)
    && t0.stack + [v] <= t.stack
    && Visited(t, v) && t.index[v] == t0.next && low <= t.index[v]
    && Attained(g, t, v, low)
    && Bounds(g, t0, t, {v}, low)
    && j <= |row|
    && (forall k :: 0 <= k < j && row[k] < |g| ==> Seen(t0, t, row[k], low))
  }

  /** The low-links of the vertices visited in `t` are the same in `a` and `b`. */
  ghost predicate LowsKept(t: Tables, a: seq<int>, b: seq<int>) {
    |a| == |b| && forall x: nat :: x < |a| && Visited(t, x) ==> a[x] == b[x]
  }

  lemma LowsTrans(g: Digraph, t0: Tables, t: Tables, v: nat, a: seq<int>, b: seq<int>, c: seq<int>)
    requires Continues(g, t0, t, v) && LowsKept(t0, a, b) && LowsKept(t, b, c)
    ensures LowsKept(t0, a, c)
  {
  }

  lemma LowsSet(t: Tables, a: seq<int>, b: seq<int>, v: nat, low: int)
    requires LowsKept(t, a, b) && !Visited(t, v) && v < |b|
    ensures LowsKept(t, a, b[v := low])
  {
  }

  lemma LowsOwn(g: Digraph, t0: Tables, t: Tables, gray: set<nat>, v: nat, row: seq<nat>, j: nat, low: int,
      a: seq<int>, b: seq<int>)
    requires Scanning(g, t0, t, gray, v, row, j, low) && LowsKept(t, a, b) && v < |a|
    ensures a[v] == b[v] && Continues(g, t0, t, v)
  {
  }

  /** A call on `v` may start. */
  ghost predicate Callable(g: Digraph, t: Tables, gray: set<nat>, v: nat) {
    && Inv(g, t, gray) && v < |g| == |t.index| == |t.onstack| && !Visited(t, v)
    && forall w :: w in gray ==> Reach(g, w, v)
  }

  function Push(t: Tables, v: nat): Tables
    requires v < |t.index| && v < |t.onstack|
  {
    t.(index := t.index[v := t.next], onstack := t.onstack[v := true], stack := t.stack + [v], next := t.next + 1)
  }

  lemma PushWellFormed(g: Digraph, t: Tables, v: nat)
    requires WellFormed(g, t) && v < |g| && !Visited(t, v)
    ensures WellFormed(g, Push(t, v))
    ensures forall x: nat :: Visited(Push(t, v), x) <==> Visited(t, x) || x == v
    ensures forall x: nat :: Stacked(Push(t, v), x) <==> Stacked(t, x) || x == v
    ensures forall x: nat, y: nat :: Earlier(Push(t, v), x, y) <==> Earlier(t, x, y) || (Visited(t, x) && y == v)
  {
    var t' := Push(t, v);
    forall x: nat ensures x in t'.stack <==> Stacked(t', x) {
      assert x in t'.stack <==> x in t.stack || x == v;
    }
    forall i, j | 0 <= i < j < |t'.stack| ensures Earlier(t', t'.stack[i], t'.stack[j]) {
      assert t.stack[i] in t.stack && Stacked(t, t.stack[i]);
      if j < |t.stack| {
        assert Earlier(t, t.stack[i], t.stack[j]);
      }
    }
  }

  lemma PushAnchored(g: Digraph, t: Tables, gray: set<nat>, v: nat, y: nat)
    requires WellFormed(g, t) && v < |g| && !Visited(t, v)
    requires y == v || Anchored(g, t, gray, y)
    ensures Anchored(g, Push(t, v), gray + {v}, y)
  {
    PushWellFormed(g, t, v);
    if y == v {
      ReachSelf(g, v);
    } else {
      var w :| w in gray && (w == y || Earlier(t, w, y)) && Reach(g, y, w);
      assert w in gray + {v} && (w == y || Earlier(Push(t, v), w, y));
    }
  }

  lemma AnchorReaches(g: Digraph, t: Tables, gray: set<nat>, x: nat, v: nat)
    requires Anchored(g, t, gray, x) && forall w :: w in gray ==> Reach(g, w, v)
    ensures Reach(g, x, v)
  {
    var w :| w in gray && (w == x || Earlier(t, w, x)) && Reach(g, x, w);
    ReachTrans(g, x, w, v);
  }

  lemma PushInv(g: Digraph, t: Tables, gray: set<nat>, v: nat)
    requires Callable(g, t, gray, v)
    ensures Inv(g, Push(t, v), gray + {v})
  {
    hide WellFormed, Visited, Stacked, Anchored, LabelsRight;
    var t' := Push(t, v);
    PushWellFormed(g, t, v);
    forall y: nat | Stacked(t', y) ensures Anchored(g, t', gray + {v}, y) {
      PushAnchored(g, t, gray, v, y);
    }
    forall x: nat, y: nat | Stacked(t', x) && Stacked(t', y) && Earlier(t', x, y) ensures Reach(g, x, y) {
      if !Earlier(t, x, y) {
        AnchorReaches(g, t, gray, x, v);
      }
    }
  }

  lemma InvBasics(g: Digraph, t: Tables, gray: set<nat>)
    requires Inv(g, t, gray)
    ensures WellFormed(g, t)
    ensures forall x: nat :: Stacked(t, x) ==> Visited(t, x)
  {
  }

  lemma Enter(g: Digraph, t: Tables, gray: set<nat>, v: nat, row: seq<nat>)
    requires Callable(g, t, gray, v)
    ensures Scanning(g, t, Push(t, v), gray, v, row, 0, t.next)
  {
    hide Inv, WellFormed, Reach, Edge;
    PushInv(g, t, gray, v);
    ReachSelf(g, v);
    InvBasics(g, t, gray);
    var t' := Push(t, v);
    assert Stacked(t', v) && Visited(t', v);
    assert Continues(g, t, t', v);
    assert Attained(g, t', v, t.next);
    assert Bounds(g, t, t', {v}, t.next);
  }

  lemma SkipInvalid(g: Digraph, t0: Tables, t: Tables, gray: set<nat>, v: nat, row: seq<nat>, j: nat, low: int)
    requires Scanning(g, t0, t, gray, v, row, j, low) && j < |row| && row[j] >= |g|
    ensures Scanning(g, t0, t, gray, v, row, j + 1, low)
  {
  }

  lemma OldTarget(g: Digraph, t0: Tables, t: Tables, gray: set<nat>, v: nat, row: seq<nat>, j: nat, low: int)
    requires Callable(g, t0, gray, v)
    requires Scanning(g, t0, t, gray, v, row, j, low) && j < |row|
    requires var w := row[j]; Visited(t, w) && Edge(g, v, w)
    ensures var w := row[j];
      Scanning(g, t0, t, gray, v, row, j + 1, if Stacked(t, w) && t.index[w] < low then t.index[w] else low)
  {
    hide Inv, Edge, Reach;
    var w := row[j];
    EdgeReach(g, v, w);
    var low' := if Stacked(t, w) && t.index[w] < low then t.index[w] else low;
    assert Attained(g, t, v, low');
    assert Seen(t0, t, w, low');
    forall k | 0 <= k < j + 1 && row[k] < |g| ensures Seen(t0, t, row[k], low') {
      assert k < j ==> Seen(t0, t, row[k], low);
    }
  }

  lemma ContinuesTrans(g: Digraph, t0: Tables, t: Tables, t': Tables, v: nat, w: nat)
    requires Continues(g, t0, t, v) && Continues(g, t, t', w) && Edge(g, v, w)
    ensures Continues(g, t0, t', v)
  {
    hide Reach, Edge;
    forall x: nat | Visited(t', x) && !Visited(t0, x) ensures t0.next <= t'.index[x] && Reach(g, v, x) {
      if !Visited(t, x) {
        EdgeReach(g, v, w);
        ReachTrans(g, v, w, x);
      }
    }
  }

  lemma CallAttains(g: Digraph, t: Tables, t': Tables, v: nat, w: nat, low: int, lw: int)
    requires WellFormed(g, t) && Visited(t, v) && low <= t.index[v] && Attained(g, t, v, low)
    requires Edge(g, v, w) && !Visited(t, w) && Continues(g, t, t', w) && Returned(g, t, t', w, lw)
    ensures Attained(g, t', v, if lw < low then lw else low)
  {
    hide Reach, Edge;
    if lw < low {
      assert Attained(g, t, w, lw);
      var y: nat :| Stacked(t, y) && Visited(t, y) && t.index[y] == lw && Reach(g, w, y);
      EdgeReach(g, v, w);
      ReachTrans(g, v, w, y);
      assert Stacked(t', y) && Visited(t', y) && t'.index[y] == lw;
    } else {
      var y: nat :| Stacked(t, y) && Visited(t, y) && t.index[y] == low && Reach(g, v, y);
      assert Stacked(t', y) && Visited(t', y) && t'.index[y] == low;
    }
  }

  ghost function Unvisited(t: Tables): set<nat> {
    set x: nat | x < |t.index| && t.index[x] == -1
  }

  /** The recursive call on an unvisited target may start, on fewer unvisited vertices. */
  lemma PrepareCall(g: Digraph, t0: Tables, t: Tables, gray: set<nat>, v: nat, row: seq<nat>, j: nat, low: int)
    requires Callable(g, t0, gray, v) && Scanning(g, t0, t, gray, v, row, j, low) && j < |row|
    requires Edge(g, v, row[j]) && !Visited(t, row[j])
    ensures Callable(g, t, gray + {v}, row[j])
    ensures Unvisited(t) < Unvisited(t0)
  {
    hide Reach, Bounds, Attained, Anchored, LabelsRight;
    EdgeReach(g, v, row[j]);
    forall w | w in gray + {v} ensures Reach(g, w, row[j]) {
      if w != v {
        ReachTrans(g, w, v, row[j]);
      }
    }
    assert v in Unvisited(t0) && v !in Unvisited(t);
  }

  lemma NewTarget(g: Digraph, t0: Tables, t: Tables, t': Tables, gray: set<nat>, v: nat, row: seq<nat>, j: nat,
      low: int, lw: int)
    requires Callable(g, t0, gray, v) && Scanning(g, t0, t, gray, v, row, j, low) && j < |row|
    requires Edge(g, v, row[j]) && !Visited(t, row[j])
    requires Inv(g, t', gray + {v}) && Continues(g, t, t', row[j]) && Returned(g, t, t', row[j], lw)
    ensures Scanning(g, t0, t', gray, v, row, j + 1, if lw < low then lw else low)
  {
    hide Inv, WellFormed, Edge, Reach, Attained;
    var w := row[j];
    InvBasics(g, t, gray + {v});
    CallAttains(g, t, t', v, w, low, lw);
    ContinuesTrans(g, t0, t, t', v, w);
    var low' := if lw < low then lw else low;
    forall k | 0 <= k < j + 1 && row[k] < |g| ensures Seen(t0, t', row[k], low') {
      assert k < j ==> Seen(t0, t, row[k], low);
    }
    assert Bounds(g, t0, t', {v}, low');
  }

  /** The call on `v` has examined all of its slots, which hold its whole row. */
  ghost predicate Scanned(g: Digraph, t0: Tables, t: Tables, gray: set<nat>, v: nat, row: seq<nat>, low: int) {
    && Callable(g, t0, gray, v) && Scanning(g, t0, t, gray, v, row, |row|, low)
    && forall y: nat :: Edge(g, v, y) ==> y in row
  }

  lemma AllSeen(g: Digraph, t0: Tables, t: Tables, gray: set<nat>, v: nat, row: seq<nat>, low: int, y: nat)
    requires Scanned(g, t0, t, gray, v, row, low) && Edge(g, v, y)
    ensures Seen(t0, t, y, low)
  {
    var k :| 0 <= k < |row| && row[k] == y;
  }

  lemma InvAnchored(g: Digraph, t: Tables, gray: set<nat>, x: nat)
    requires Inv(g, t, gray) && Stacked(t, x)
    ensures Anchored(g, t, gray, x)
  {
  }

  /** Every stacked vertex reaches `v` when the call on `v` returns. */
  lemma StackedReaches(g: Digraph, t0: Tables, t: Tables, gray: set<nat>, v: nat, row: seq<nat>, low: int, x: nat)
    requires Scanned(g, t0, t, gray, v, row, low) && Stacked(t, x)
    ensures Reach(g, x, v)
  {
    hide Inv, Reach, Anchored, Continues, Bounds, Attained;
    ReachSelf(g, v);
    InvAnchored(g, t, gray + {v}, x);
    AnchorReaches(g, t, gray + {v}, x, v);
  }

  /** With a low-link below the index of `v`, its component is still open below `v`. */
  lemma ReAnchor(g: Digraph, t0: Tables, t: Tables, gray: set<nat>, v: nat, row: seq<nat>, low: int, y: nat)
    requires Scanned(g, t0, t, gray, v, row, low) && low < t.index[v] && Stacked(t, y)
    ensures Anchored(g, t, gray, y)
  {
    hide Reach, Inv, Continues, Bounds;
    InvAnchored(g, t, gray + {v}, y);
    var w :| w in gray + {v} && (w == y || Earlier(t, w, y)) && Reach(g, y, w);
    if w == v {
      var y0: nat :| Stacked(t, y0) && Visited(t, y0) && t.index[y0] == low && Reach(g, v, y0);
      InvAnchored(g, t, gray + {v}, y0);
      var w0 :| w0 in gray + {v} && (w0 == y0 || Earlier(t, w0, y0)) && Reach(g, y0, w0);
      ReachTrans(g, y, v, y0);
      ReachTrans(g, y, y0, w0);
      assert Earlier(t, w0, y);
    }
  }

  lemma OldAttained(g: Digraph, t0: Tables, t: Tables, gray: set<nat>, v: nat, row: seq<nat>, low: int)
    requires Scanned(g, t0, t, gray, v, row, low) && low < t.index[v]
    ensures Attained(g, t0, v, low)
  {
    hide Reach, Inv, Bounds;
    var y: nat :| Stacked(t, y) && Visited(t, y) && t.index[y] == low && Reach(g, v, y);
    assert Visited(t0, y) && Stacked(t0, y);
  }

  lemma LeaveOpen(g: Digraph, t0: Tables, t: Tables, gray: set<nat>, v: nat, row: seq<nat>, low: int)
    requires Scanned(g, t0, t, gray, v, row, low) && low != t.index[v]
    ensures Inv(g, t, gray) && Continues(g, t0, t, v) && Returned(g, t0, t, v, low)
  {
    hide Reach, LabelsRight, Anchored, Attained, Edge;
    forall y: nat | Stacked(t, y) ensures Anchored(g, t, gray, y) {
      ReAnchor(g, t0, t, gray, v, row, low, y);
    }
    forall y: nat | Edge(g, v, y) ensures Seen(t0, t, y, low) {
      AllSeen(g, t0, t, gray, v, row, low, y);
    }
    OldAttained(g, t0, t, gray, v, row, low);
    assert Bounds(g, t0, t, {}, low);
  }

  /** Stacked since the call started: what closing the component of `v` pops. */
  ghost predicate Popping(t0: Tables, t: Tables, x: nat) {
    Stacked(t, x) && !Visited(t0, x)
  }

  ghost predicate Popped(t0: Tables, t: Tables, t': Tables) {
    && t'.index == t.index && t'.next == t.next && t'.cnt == t.cnt + 1 && t'.stack == t0.stack
    && |t'.onstack| == |t.onstack| && |t'.comp| == |t.comp|
    && (forall x: nat :: Stacked(t', x) <==> Stacked(t, x) && Visited(t0, x))
    && (forall x: nat :: x < |t.comp| ==> t'.comp[x] == if Popping(t0, t, x) then t.cnt else t.comp[x])
  }

  /** The popped vertices are exactly the stack from `v` up. */
  lemma PoppingIsSuffix(g: Digraph, t0: Tables, t: Tables, gray: set<nat>, v: nat, row: seq<nat>, low: int, x: nat)
    requires Scanned(g, t0, t, gray, v, row, low)
    ensures x in t.stack[|t0.stack|..] <==> Popping(t0, t, x)
    ensures |t0.stack| < |t.stack| && t.stack[|t0.stack|] == v && t.stack[..|t0.stack|] == t0.stack
  {
    hide Reach, Anchored, LabelsRight, Bounds, Attained;
    var b := |t0.stack|;
    assert t.stack[b] == (t0.stack + [v])[b];
    if x in t.stack[b..] {
      var k :| b <= k < |t.stack| && t.stack[k] == x;
      assert x in t.stack;
      assert k > b ==> Earlier(t, t.stack[b], t.stack[k]);
    }
    if Popping(t0, t, x) {
      forall i | 0 <= i < b ensures t.stack[i] in t0.stack { assert t.stack[i] == t0.stack[i]; }
      var k :| 0 <= k < |t.stack| && t.stack[k] == x;
    }
  }

  /** Stack flags and labels after popping `stack[k..]` into component `cnt`. */
  ghost predicate PoppedDown(t: Tables, k: nat, onstack: seq<bool>, comp: seq<int>) {
    && k <= |t.stack|
    && |onstack| == |t.onstack| && |comp| == |t.comp|
    && (forall x :: 0 <= x < |onstack| ==> onstack[x] == (t.onstack[x] && x !in t.stack[k..]))
    && (forall x :: 0 <= x < |comp| ==> comp[x] == if x in t.stack[k..] then t.cnt else t.comp[x])
  }

  lemma NothingPopped(t: Tables)
    ensures PoppedDown(t, |t.stack|, t.onstack, t.comp)
  {
  }

  lemma PopOne(t: Tables, k: nat, onstack: seq<bool>, comp: seq<int>)
    requires PoppedDown(t, k + 1, onstack, comp)
    requires var w := t.stack[k]; w < |onstack| && w < |comp|
    ensures var w := t.stack[k]; PoppedDown(t, k, onstack[w := false], comp[w := t.cnt])
  {
    var w := t.stack[k];
    assert t.stack[k..] == [w] + t.stack[k + 1..];
    forall x: int ensures x in t.stack[k..] <==> x == w || x in t.stack[k + 1..] {}
  }

  ghost predicate PoppedFrom(t: Tables, base: nat, t': Tables) {
    && PoppedDown(t, base, t'.onstack, t'.comp)
    && t'.index == t.index && t'.next == t.next && t'.cnt == t.cnt + 1 && t'.stack == t.stack[..base]
  }

  /** The stack from `base` up can be popped until `v` comes off, which happens last. */
  ghost predicate Poppable(t: Tables, base: nat, v: nat) {
    && base < |t.stack| && t.stack[base] == v
    && (forall i :: 0 <= i < |t.stack| ==> t.stack[i] < |t.onstack| == |t.comp|)
    && (forall i, j :: 0 <= i < j < |t.stack| ==> t.stack[i] != t.stack[j])
  }

  lemma ReadyToPop(g: Digraph, t0: Tables, t: Tables, gray: set<nat>, v: nat, row: seq<nat>, low: int)
    requires Scanned(g, t0, t, gray, v, row, low)
    ensures Poppable(t, |t0.stack|, v)
  {
    hide Reach, Anchored, LabelsRight, Bounds, Attained, Continues;
    PoppingIsSuffix(g, t0, t, gray, v, row, low, v);
    forall i, j | 0 <= i < j < |t.stack| ensures t.stack[i] != t.stack[j] {
      assert Earlier(t, t.stack[i], t.stack[j]);
    }
    forall i | 0 <= i < |t.stack| ensures t.stack[i] < |t.onstack| {
      assert t.stack[i] in t.stack;
    }
  }

  lemma PoppedRight(g: Digraph, t0: Tables, t: Tables, t': Tables, gray: set<nat>, v: nat, row: seq<nat>, low: int)
    requires Scanned(g, t0, t, gray, v, row, low) && PoppedFrom(t, |t0.stack|, t')
    ensures Popped(t0, t, t')
  {
    hide Reach, Anchored, LabelsRight, Bounds, Attained, Scanned;
    forall x: nat ensures x in t.stack[|t0.stack|..] <==> Popping(t0, t, x) {
      PoppingIsSuffix(g, t0, t, gray, v, row, low, x);
    }
    PoppingIsSuffix(g, t0, t, gray, v, row, low, v);
  }

  /** No edge leads from the component being closed to what stays on the stack. */
  lemma ClosedEdge(g: Digraph, t0: Tables, t: Tables, gray: set<nat>, v: nat, row: seq<nat>, low: int, x: nat, y: nat)
    requires Scanned(g, t0, t, gray, v, row, low) && low == t.index[v]
    requires Popping(t0, t, x) && Edge(g, x, y)
    ensures Popping(t0, t, y) || Labelled(t, y)
  {
    hide Reach, Anchored, LabelsRight, Attained;
    if x == v {
      AllSeen(g, t0, t, gray, v, row, low, y);
    } else {
      assert Visited(t, y);
    }
  }

  lemma {:induction false} LabelsClosed(g: Digraph, comp: seq<int>, cnt: nat, x: nat, y: nat)
    requires LabelsRight(g, comp, cnt) && x < |g| && y < |g| && comp[x] != -1 && Reach(g, x, y)
    ensures comp[y] != -1
  {
    if comp[y] == -1 {
      var s := set z: nat | z < |comp| && comp[z] != -1;
      var a, b := Exit(g, s, x, y);
    }
  }

  lemma PoppedPair(g: Digraph, t0: Tables, t: Tables, gray: set<nat>, v: nat, row: seq<nat>, low: int, x: nat, y: nat)
    requires Scanned(g, t0, t, gray, v, row, low) && x < |g| && y < |g|
    ensures Popping(t0, t, x) && Popping(t0, t, y) ==> Scc(g, x, y)
    ensures Popping(t0, t, x) && Labelled(t, y) ==> !Scc(g, x, y)
    ensures Popping(t0, t, y) && Labelled(t, x) ==> !Scc(g, x, y)
  {
    hide Reach, Anchored, Attained, Bounds;
    if Popping(t0, t, x) {
      StackedReaches(g, t0, t, gray, v, row, low, x);
    }
    if Popping(t0, t, y) {
      StackedReaches(g, t0, t, gray, v, row, low, y);
    }
    if Popping(t0, t, x) && Popping(t0, t, y) {
      SccTrans(g, x, v, y);
    } else if Popping(t0, t, x) && Labelled(t, y) && Scc(g, x, y) {
      LabelsClosed(g, t.comp, t.cnt, y, x);
    } else if Popping(t0, t, y) && Labelled(t, x) && Scc(g, x, y) {
      LabelsClosed(g, t.comp, t.cnt, x, y);
    }
  }

  lemma PoppedLabels(g: Digraph, t0: Tables, t: Tables, t': Tables, gray: set<nat>, v: nat, row: seq<nat>, low: int)
    requires Scanned(g, t0, t, gray, v, row, low) && low == t.index[v] && Popped(t0, t, t')
    ensures LabelsRight(g, t'.comp, t'.cnt)
  {
    hide Reach, Anchored, Attained, Bounds;
    forall c | 0 <= c < t'.cnt ensures HasLabel(t'.comp, c) {
      if c < t.cnt {
        assert HasLabel(t.comp, c);
        var x: nat :| x < |t.comp| && t.comp[x] == c;
        assert t'.comp[x] == c;
      } else {
        assert t'.comp[v] == c;
      }
    }
    forall x: nat, y: nat | Edge(g, x, y) && t'.comp[x] != -1 ensures t'.comp[y] != -1 && t'.comp[y] <= t'.comp[x] {
      if Popping(t0, t, x) {
        ClosedEdge(g, t0, t, gray, v, row, low, x, y);
      }
    }
    forall x: nat, y: nat | x < |g| && y < |g| && t'.comp[x] != -1 && t'.comp[y] != -1
      ensures t'.comp[x] == t'.comp[y] <==> Scc(g, x, y)
    {
      PoppedPair(g, t0, t, gray, v, row, low, x, y);
    }
  }

  lemma KeepAnchor(g: Digraph, t0: Tables, t: Tables, t': Tables, gray: set<nat>, v: nat, row: seq<nat>, low: int,
      y: nat)
    requires Scanned(g, t0, t, gray, v, row, low) && Popped(t0, t, t') && Stacked(t', y)
    ensures Anchored(g, t', gray, y)
  {
    hide Reach, Bounds, Attained, LabelsRight, Inv;
    InvBasics(g, t0, gray);
    InvAnchored(g, t, gray + {v}, y);
    var w :| w in gray + {v} && (w == y || Earlier(t, w, y)) && Reach(g, y, w);
    assert w != v;
    assert w == y || Earlier(t', w, y);
  }

  lemma PoppedWellFormed(g: Digraph, t0: Tables, t: Tables, t': Tables, gray: set<nat>, v: nat, row: seq<nat>, low: int)
    requires Scanned(g, t0, t, gray, v, row, low) && Popped(t0, t, t')
    ensures WellFormed(g, t')
  {
    hide Reach, Anchored, Attained, LabelsRight, Bounds, Edge;
    assert |t'.index| == |t'.onstack| == |t'.comp| == |g|;
    forall x: nat ensures Labelled(t', x) <==> Labelled(t, x) || Popping(t0, t, x) {
    }
    forall x: nat ensures Stacked(t', x) <==> Stacked(t0, x) {
    }
    forall i, j | 0 <= i < j < |t'.stack| ensures Earlier(t', t'.stack[i], t'.stack[j]) {
      assert Earlier(t0, t0.stack[i], t0.stack[j]);
    }
  }

  lemma LeaveClosed(g: Digraph, t0: Tables, t: Tables, t': Tables, gray: set<nat>, v: nat, row: seq<nat>, low: int)
    requires Scanned(g, t0, t, gray, v, row, low) && low == t.index[v] && Popped(t0, t, t')
    ensures Inv(g, t', gray) && Continues(g, t0, t', v) && Returned(g, t0, t', v, low)
  {
    hide Reach, Anchored, Attained, LabelsRight, Edge;
    PoppedLabels(g, t0, t, t', gray, v, row, low);
    PoppedWellFormed(g, t0, t, t', gray, v, row, low);
    forall y: nat | Stacked(t', y) ensures Anchored(g, t', gray, y) {
      KeepAnchor(g, t0, t, t', gray, v, row, low, y);
    }
    forall x: nat, y: nat | Visited(t', x) && x !in gray && Edge(g, x, y) ensures Visited(t', y) {
      if x == v {
        AllSeen(g, t0, t, gray, v, row, low, y);
      } else {
        assert Visited(t, x) && x !in gray + {v};
      }
    }
  }
}
