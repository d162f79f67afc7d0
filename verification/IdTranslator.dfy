/** The loops of bench_harness/v11_to_svf_clustered.py. */
module IdTranslator {
  import opened FiniteSets
  import opened IdTranslation
  import opened Optional

  // --- the seed ---

  /** At least one insert event, and none without ids: otherwise `min` raises an error. */
  ghost predicate HasRange(events: seq<Event>) {
    && (exists k :: 0 <= k < |events| && events[k].Insert?)
    && forall k :: 0 <= k < |events| && events[k].Insert? ==> events[k].ids != []
  }

  ghost predicate Inserted(events: seq<Event>, b: nat) {
    exists k :: 0 <= k < |events| && events[k].Insert? && b in events[k].ids
  }

  ghost predicate Extremes(events: seq<Event>, least: nat, greatest: nat) {
    && Inserted(events, least) && Inserted(events, greatest)
    && forall b: nat :: Inserted(events, b) ==> least <= b <= greatest
  }

  method Bounds(v: seq<nat>) returns (least: nat, greatest: nat)
    requires v != []
    ensures least in v && greatest in v && forall b :: b in v ==> least <= b <= greatest
  {
    least, greatest := v[0], v[0];
    for i := 1 to |v|
      invariant least in v && greatest in v && forall j :: 0 <= j < i ==> least <= v[j] <= greatest
    {
      if v[i] < least { least := v[i]; }
      if v[i] > greatest { greatest := v[i]; }
    }
  }

  lemma InsertedStep(before: seq<Event>, e: Event, after: seq<Event>)
    requires after == before + [e]
    ensures forall b: nat :: (Inserted(after, b) <==> Inserted(before, b) || (e.Insert? && b in e.ids))
  {
    forall b: nat ensures Inserted(after, b) <==> Inserted(before, b) || (e.Insert? && b in e.ids) {
      if Inserted(before, b) {
        var j :| 0 <= j < |before| && before[j].Insert? && b in before[j].ids;
        assert after[j] == before[j];
      }
      if e.Insert? && b in e.ids {
        assert after[|before|] == e;
      }
    }
  }

  lemma ExtremesStep(before: seq<Event>, e: Event, after: seq<Event>, least: nat, greatest: nat, l: nat, g: nat)
    requires after == before + [e] && Extremes(before, least, greatest)
    requires e.Insert? && l in e.ids && g in e.ids && forall b :: b in e.ids ==> l <= b <= g
    ensures Extremes(after, if least < l then least else l, if greatest > g then greatest else g)
  {
    hide Inserted;
    InsertedStep(before, e, after);
  }

  lemma FirstExtremes(before: seq<Event>, e: Event, after: seq<Event>, l: nat, g: nat)
    requires after == before + [e] && forall j :: 0 <= j < |before| ==> !before[j].Insert?
    requires e.Insert? && l in e.ids && g in e.ids && forall b :: b in e.ids ==> l <= b <= g
    ensures Extremes(after, l, g)
  {
    InsertedStep(before, e, after);
  }

  /** The least and the greatest inserted id. */
  method BaseRange(events: seq<Event>) returns (range: Option<(nat, nat)>)
    ensures range.Some? <==> HasRange(events)
    ensures range.Some? ==> Extremes(events, range.value.0, range.value.1)
  {
    hide Inserted;
    range := None;
    for k := 0 to |events|
      invariant forall j :: 0 <= j < k && events[j].Insert? ==> events[j].ids != []
      invariant range.None? <==> forall j :: 0 <= j < k ==> !events[j].Insert?
      invariant range.Some? ==> Extremes(events[..k], range.value.0, range.value.1)
    {
      var e := events[k];
      assert events[..k + 1] == events[..k] + [e];
      if e.Insert? {
        if e.ids == [] { return None; }
        var least, greatest := Bounds(e.ids);
        if range.Some? {
          ExtremesStep(events[..k], e, events[..k + 1], range.value.0, range.value.1, least, greatest);
          least := if range.value.0 < least then range.value.0 else least;
          greatest := if range.value.1 > greatest then range.value.1 else greatest;
        } else {
          FirstExtremes(events[..k], e, events[..k + 1], least, greatest);
        }
        range := Some((least, greatest));
      } else if range.Some? {
        InsertedStep(events[..k], e, events[..k + 1]);
      }
    }
    assert events[..|events|] == events;
  }

  /** The offset if it is positive; otherwise the configured seed, or half of the id range. */
  function ChooseSeed(off: nat, maxBase: nat, configured: Option<nat>): (seed: nat)
    ensures off > 0 ==> seed == off
    ensures off == 0 && configured.Some? ==> seed == configured.value
    ensures off == 0 && configured.None? ==> 2 * seed <= maxBase <= 2 * seed + 1
  {
    if off > 0 then off
    else match configured
      case Some(seed) => seed
      case None => maxBase / 2
  }

  // --- the event loop ---

  lemma InsertedBelow(x: nat, s: seq<nat>, r: seq<nat>)
    requires Ascending(s) && s != [] && x < s[|s| - 1] && r != [] && r[|r| - 1] == s[|s| - 1]
    requires var front := r[..|r| - 1]; Ascending(front) && multiset(front) == multiset(s[..|s| - 1]) + multiset{x}
    ensures Ascending(r)
  {
    var front := r[..|r| - 1];
    forall i | 0 <= i < |front| ensures front[i] <= s[|s| - 1] {
      assert front[i] in multiset(front);
      assert front[i] == x || front[i] in s[..|s| - 1];
    }
  }

  function InsertSorted(x: nat, s: seq<nat>): (r: seq<nat>)
    requires Ascending(s)
    ensures Ascending(r) && multiset(r) == multiset(s) + multiset{x}
  {
    if s == [] then [x]
    else if s[|s| - 1] <= x then s + [x]
    else
      assert s == s[..|s| - 1] + [s[|s| - 1]];
      var r := InsertSorted(x, s[..|s| - 1]) + [s[|s| - 1]];
      assert Ascending(r) by { InsertedBelow(x, s, r); }
      r
  }

  /** `sorted`. */
  method Sorted(v: seq<nat>) returns (r: seq<nat>)
    ensures Ascending(r) && multiset(r) == multiset(v)
  {
    r := [];
    for i := 0 to |v|
      invariant Ascending(r) && multiset(r) == multiset(v[..i])
    {
      assert v[..i + 1] == v[..i] + [v[i]];
      r := InsertSorted(v[i], r);
    }
    assert v[..|v|] == v;
  }

  method KeepUnseeded(ids: seq<nat>, seed: nat) returns (v: seq<nat>)
    ensures v == Unseeded(ids, seed)
  {
    v := [];
    for i := 0 to |ids|
      invariant v == Unseeded(ids[..i], seed)
    {
      assert ids[..i + 1][..i] == ids[..i];
      if ids[i] >= seed { v := v + [ids[i]]; }
    }
    assert ids[..|ids|] == ids;
  }

  method LookUp(m: map<nat, nat>, ids: seq<nat>) returns (v: seq<nat>)
    ensures v == Internals(m, ids)
  {
    v := [];
    for i := 0 to |ids|
      invariant v == Internals(m, ids[..i])
    {
      assert ids[..i + 1][..i] == ids[..i];
      if ids[i] in m { v := v + [m[ids[i]]]; }
    }
    assert ids[..|ids|] == ids;
  }

  /** The tables and the counter, changed event by event. */
  class Translator {
    var base2int: map<nat, nat>
    var int2base: seq<nat>
    var internal: nat
    var ops: seq<Op>

    ghost function State(): Translation
      reads this
    {
      Translation(base2int, int2base, internal, ops)
    }

    constructor (seed: nat)
      ensures Start(State(), seed)
    {
      var m: map<nat, nat> := map[];
      var t: seq<nat> := [];
      for b := 0 to seed
        invariant |t| == b && (forall x: nat :: x in m <==> x < b) && forall x: nat :: x < b ==> m[x] == x && t[x] == x
      {
        m := m[b := b];
        t := t + [b];
      }
      base2int, int2base, internal, ops := m, t, seed, [];
    }

    method Handle(e: Event, seed: nat)
      modifies this
      ensures Step(old(State()), e, seed, State())
    {
      match e
      case Insert(ids) =>
        var v := KeepUnseeded(ids, seed);
        if v == [] { return; }
        for i := 0 to |v|
          invariant State() == PlaceAll(old(State()), v[..i])
        {
          assert v[..i + 1][..i] == v[..i];
          base2int := base2int[v[i] := internal];
          int2base := int2base + [v[i]];
          internal := internal + 1;
        }
        assert v[..|v|] == v;
        ops := ops + [InsertIds(v)];
      case Delete(ids) =>
        var iids := LookUp(base2int, ids);
        var sorted := Sorted(iids);
        ops := ops + [DeleteIds(sorted)];
      case Search =>
        ops := ops + [SearchOp];
      case Other =>
    }
  }

  /** The whole script: no result where it raises an error, otherwise the offset, the
      seed and the tables after the last event. */
  method Translate(events: seq<Event>, configured: Option<nat>)
    returns (off: nat, seed: nat, result: Option<Translator>, ghost trace: seq<Translation>)
    ensures result.Some? <==> HasRange(events)
    ensures result.Some? ==>
      && (exists greatest: nat :: Extremes(events, off, greatest) && seed == ChooseSeed(off, greatest + 1, configured))
      && Run(events, seed, trace) && result.value.State() == trace[|events|]
  {
    hide Step, Start;
    off, seed, result, trace := 0, 0, None, [];
    var range := BaseRange(events);
    if range.None? { return; }
    off, seed := range.value.0, ChooseSeed(range.value.0, range.value.1 + 1, configured);
    var translator := new Translator(seed);
    trace := [translator.State()];
    for k := 0 to |events|
      invariant fresh(translator) && |trace| == k + 1 && trace[k] == translator.State()
      invariant Start(trace[0], seed) && forall j :: 0 <= j < k ==> Step(trace[j], events[j], seed, trace[j + 1])
    {
      translator.Handle(events[k], seed);
      trace := trace + [translator.State()];
    }
    result := Some(translator);
  }

  // --- what the script promises ---

  lemma LeastIsBelow(events: seq<Event>, least: nat, greatest: nat)
    requires Extremes(events, least, greatest)
    ensures AllAbove(events, least)
  {
    forall k, i | 0 <= k < |events| && events[k].Insert? && 0 <= i < |events[k].ids| ensures events[k].ids[i] >= least {
      assert Inserted(events, events[k].ids[i]);
    }
  }

  /** The runbook simulates the stream exactly when the least inserted id is positive (or
      the seed chosen otherwise is 0) and no id inserted while live is later deleted. */
  lemma ScriptSimulatesExactly(events: seq<Event>, off: nat, greatest: nat, configured: Option<nat>,
      trace: seq<Translation>)
    requires Extremes(events, off, greatest)
    requires Run(events, ChooseSeed(off, greatest + 1, configured), trace)
    ensures Simulates(events, off, ChooseSeed(off, greatest + 1, configured), trace)
      <==> (off > 0 || ChooseSeed(off, greatest + 1, configured) == 0) && NoDoubledDelete(events, off)
  {
    LeastIsBelow(events, off, greatest);
    SimulatesExactly(events, off, ChooseSeed(off, greatest + 1, configured), trace);
  }

  /** A stream that inserts from id 0 on is already misrepresented before its first event. */
  lemma InsertingFromZeroFails(trace: seq<Translation>)
    requires Run([Insert([0, 1])], ChooseSeed(0, 2, None), trace)
    ensures !Simulates([Insert([0, 1])], 0, ChooseSeed(0, 2, None), trace)
  {
    SimulatesExactly([Insert([0, 1])], 0, 1, trace);
  }

  /** An id inserted twice and then deleted stays live under its first number. */
  lemma InsertTwiceThenDeleteFails(trace: seq<Translation>)
    requires Run([Insert([1]), Insert([1]), Delete([1])], 1, trace)
    ensures !Simulates([Insert([1]), Insert([1]), Delete([1])], 1, 1, trace)
  {
    var events := [Insert([1]), Insert([1]), Delete([1])];
    PlayedStep(events, 1, 0);
    PlayedStep(events, 1, 1);
    assert events[..0] == [] && events[..1] == [Insert([1])];
    var o := ArriveAll(Played([], 1), [1]);
    assert ArriveAll(Played([], 1), []) == Played([], 1);
    assert 1 in o.live;
    assert ArriveAll(o, []) == o;
    assert 1 in ArriveAll(o, [1]).doubled;
    assert 1 in Elements(events[2].ids) && 1 in Played(events[..2], 1).doubled;
    SimulatesExactly(events, 1, 1, trace);
  }
}
