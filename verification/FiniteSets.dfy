/** Finite sets of numbers, their sizes, and lists seen as sets. */
module FiniteSets {

  ghost function Below(n: nat): (s: set<nat>)
    ensures |s| == n && forall x: nat :: x in s <==> x < n
  {
    if n == 0 then {} else Below(n - 1) + {n - 1}
  }

  lemma SubsetSize<T>(a: set<T>, b: set<T>)
    requires a <= b
    ensures |a| <= |b| && (|a| == |b| ==> a == b)
  {
    assert b == a + (b - a);
    assert |b| == |a| + |b - a|;
  }

  ghost predicate NoDuplicates(s: seq<nat>) {
    forall i, j :: 0 <= i < j < |s| ==> s[i] != s[j]
  }

  ghost predicate Ascending(s: seq<nat>) {
    forall i, j :: 0 <= i < j < |s| ==> s[i] <= s[j]
  }

  /** `w` is what is left of `v` when exactly the entries at the positions `at` are kept. */
  ghost predicate KeepsAt(v: seq<nat>, at: seq<nat>, w: seq<nat>) {
    && |at| == |w|
    && (forall i :: 0 <= i < |at| ==> at[i] < |v| && w[i] == v[at[i]])
    && (forall i, j :: 0 <= i < j < |at| ==> at[i] < at[j])
  }

  lemma KeepsPush(v: seq<nat>, at: seq<nat>, w: seq<nat>, x: nat)
    requires KeepsAt(v, at, w)
    ensures KeepsAt(v + [x], at, w) && KeepsAt(v + [x], at + [|v|], w + [x])
    ensures forall i :: i in at ==> i < |v|
  {
  }

  ghost function Elements(s: seq<nat>): set<nat> {
    set x | x in s
  }

  lemma {:induction false} ElementsSize(s: seq<nat>)
    requires NoDuplicates(s)
    ensures |Elements(s)| == |s|
  {
    if s == [] {
      assert Elements(s) == {};
    } else {
      var t := s[..|s| - 1];
      ElementsSize(t);
      assert s == t + [s[|s| - 1]];
      assert Elements(s) == Elements(t) + {s[|s| - 1]};
    }
  }
}
