/** The size tables that follow a labelling: how many in-range vertices carry each label. */
module ComponentSizes {

  /** The vertices in `[lo, hi)` that carry label `c`. */
  ghost function Members(comp: seq<int>, lo: int, hi: int, c: int): set<int>
    requires 0 <= lo && hi <= |comp|
  {
    set x | lo <= x < hi && comp[x] == c
  }

  /** How many vertices in `[lo, hi)` carry any label. */
  ghost function LabelledIn(comp: seq<int>, lo: int, hi: int): set<int>
    requires 0 <= lo && hi <= |comp|
  {
    set x | lo <= x < hi && comp[x] >= 0
  }

  ghost function Sum(s: seq<nat>): nat {
    if s == [] then 0 else Sum(s[..|s| - 1]) + s[|s| - 1]
  }

  ghost predicate Counts(comp: seq<int>, lo: int, hi: int, sizes: seq<nat>) {
    && 0 <= lo && hi <= |comp|
    && (forall c :: 0 <= c < |sizes| ==> sizes[c] == |Members(comp, lo, hi, c)|)
    && Sum(sizes) == |LabelledIn(comp, lo, hi)|
  }

  lemma {:induction false} SumBump(s: seq<nat>, i: nat)
    requires i < |s|
    ensures Sum(s[i := s[i] + 1]) == Sum(s) + 1
  {
    var s' := s[i := s[i] + 1];
    if i == |s| - 1 {
      assert s'[..i] == s[..i];
    } else {
      assert s'[..|s| - 1] == s[..|s| - 1][i := s[i] + 1];
      SumBump(s[..|s| - 1], i);
    }
  }

  lemma {:induction false} SumZeros(s: seq<nat>)
    requires forall i :: 0 <= i < |s| ==> s[i] == 0
    ensures Sum(s) == 0
  {
    if s != [] {
      SumZeros(s[..|s| - 1]);
    }
  }

  lemma MembersStep(comp: seq<int>, lo: int, v: int, c: int)
    requires 0 <= lo <= v < |comp|
    ensures |Members(comp, lo, v + 1, c)| == |Members(comp, lo, v, c)| + if comp[v] == c then 1 else 0
  {
    if comp[v] == c {
      assert Members(comp, lo, v + 1, c) == Members(comp, lo, v, c) + {v};
    } else {
      assert Members(comp, lo, v + 1, c) == Members(comp, lo, v, c);
    }
  }

  lemma CountsStep(comp: seq<int>, lo: int, v: int, sizes: seq<nat>)
    requires Counts(comp, lo, v, sizes) && lo <= v < |comp| && comp[v] < |sizes|
    ensures Counts(comp, lo, v + 1, if comp[v] >= 0 then sizes[comp[v] := sizes[comp[v]] + 1] else sizes)
  {
    forall c ensures |Members(comp, lo, v + 1, c)| == |Members(comp, lo, v, c)| + if comp[v] == c then 1 else 0 {
      MembersStep(comp, lo, v, c);
    }
    if comp[v] >= 0 {
      SumBump(sizes, comp[v]);
      assert LabelledIn(comp, lo, v + 1) == LabelledIn(comp, lo, v) + {v};
    } else {
      assert LabelledIn(comp, lo, v + 1) == LabelledIn(comp, lo, v);
    }
  }

  lemma {:induction false} AllLabelled(comp: seq<int>, lo: int, hi: int)
    requires 0 <= lo <= hi <= |comp| && forall x :: lo <= x < hi ==> comp[x] >= 0
    ensures |LabelledIn(comp, lo, hi)| == hi - lo
    decreases hi
  {
    if lo < hi {
      AllLabelled(comp, lo, hi - 1);
      assert LabelledIn(comp, lo, hi) == LabelledIn(comp, lo, hi - 1) + {hi - 1};
    } else {
      assert LabelledIn(comp, lo, hi) == {};
    }
  }

  /** The vertices labelled below `k`. */
  ghost function LabelledBelow(comp: seq<int>, lo: int, hi: int, k: int): set<int>
    requires 0 <= lo && hi <= |comp|
  {
    set x | lo <= x < hi && 0 <= comp[x] < k
  }

  /** Correct class sizes add up to the number of labelled vertices. */
  lemma {:induction false} SumOfClasses(comp: seq<int>, lo: int, hi: int, sizes: seq<nat>)
    requires 0 <= lo && hi <= |comp|
    requires forall c :: 0 <= c < |sizes| ==> sizes[c] == |Members(comp, lo, hi, c)|
    ensures Sum(sizes) == |LabelledBelow(comp, lo, hi, |sizes|)|
  {
    if sizes == [] {
      assert LabelledBelow(comp, lo, hi, 0) == {};
    } else {
      var k := |sizes| - 1;
      SumOfClasses(comp, lo, hi, sizes[..k]);
      assert LabelledBelow(comp, lo, hi, k + 1) == LabelledBelow(comp, lo, hi, k) + Members(comp, lo, hi, k);
    }
  }

  method CountSizes(comp: array<int>, cnt: nat, start: int, end: int) returns (sizes: seq<nat>)
    requires 0 <= start <= end + 1 <= comp.Length
    requires forall x :: 0 <= x < comp.Length ==> comp[x] < cnt
    ensures |sizes| == cnt && Counts(comp[..], start, end + 1, sizes)
  {
    sizes := seq(cnt, _ => 0);
    SumZeros(sizes);
    forall c ensures Members(comp[..], start, start, c) == {} {}
    assert LabelledIn(comp[..], start, start) == {};
    for v := start to end + 1
      invariant |sizes| == cnt && Counts(comp[..], start, v, sizes)
    {
      CountsStep(comp[..], start, v, sizes);
      if comp[v] >= 0 {
        sizes := sizes[comp[v] := sizes[comp[v]] + 1];
      }
    }
  }
}
