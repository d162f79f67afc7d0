/** bench_harness/v11_to_svf_clustered.py: the event stream over base ids becomes a runbook
    over fresh internal ids. What the runbook keeps live is compared with what the
    original stream keeps live. */
module IdTranslation {
  import opened FiniteSets

  datatype Event = Insert(ids: seq<nat>) | Delete(ids: seq<nat>) | Search | Other

  /** The steps of the runbook; an insert step takes the next free internal numbers. */
  datatype Op = InsertIds(baseIds: seq<nat>) | DeleteIds(internals: seq<nat>) | SearchOp

  datatype Translation = Translation(base2int: map<nat, nat>, int2base: seq<nat>, internal: nat, ops: seq<Op>)

  // --- the translation, as functions ---

  function Place(s: Translation, b: nat): Translation {
    s.(base2int := s.base2int[b := s.internal], int2base := s.int2base + [b], internal := s.internal + 1)
  }

  function PlaceAll(s: Translation, v: seq<nat>): (r: Translation)
    ensures r.ops == s.ops
  {
    if v == [] then s else Place(PlaceAll(s, v[..|v| - 1]), v[|v| - 1])
  }

  /** The ids at or above the seed. */
  function Unseeded(v: seq<nat>, seed: nat): seq<nat> {
    if v == [] then []
    else Unseeded(v[..|v| - 1], seed) + if v[|v| - 1] >= seed then [v[|v| - 1]] else []
  }

  /** The internal numbers of the ids that have one. */
  function Internals(m: map<nat, nat>, v: seq<nat>): seq<nat> {
    if v == [] then []
    else Internals(m, v[..|v| - 1]) + if v[|v| - 1] in m then [m[v[|v| - 1]]] else []
  }

  /** What is written for one event; the order within a delete file is ascending. */
  ghost predicate Step(s: Translation, e: Event, seed: nat, t: Translation) {
    match e
    case Insert(ids) =>
      var v := Unseeded(ids, seed);
      if v == [] then t == s
      else t == PlaceAll(s, v).(ops := s.ops + [InsertIds(v)])
    case Delete(ids) =>
      && |t.ops| == |s.ops| + 1 && t.ops[|s.ops|].DeleteIds?
      && t == s.(ops := s.ops + [t.ops[|s.ops|]])
      && multiset(t.ops[|s.ops|].internals) == multiset(Internals(s.base2int, ids)) && Ascending(t.ops[|s.ops|].internals)
    case Search => t == s.(ops := s.ops + [SearchOp])
    case Other => t == s
  }

  /** The state before the first event: internal and base numbers agree below the seed. */
  ghost predicate Start(s: Translation, seed: nat) {
    && s.internal == seed == |s.int2base| && s.ops == []
    && (forall b: nat :: b in s.base2int <==> b < seed)
    && forall b: nat :: b < seed ==> s.base2int[b] == b && s.int2base[b] == b
  }

  /** All states of a run over `events`, the start first. */
  ghost predicate Run(events: seq<Event>, seed: nat, trace: seq<Translation>) {
    && |trace| == |events| + 1 && Start(trace[0], seed)
    && forall k :: 0 <= k < |events| ==> Step(trace[k], events[k], seed, trace[k + 1])
  }

  // --- what the runbook keeps live ---

  ghost function Span(n: nat, m: nat): set<nat> {
    Below(n + m) - Below(n)
  }

  /** All written insert ids, in order. */
  ghost function Written(ops: seq<Op>): seq<nat> {
    if ops == [] then []
    else Written(ops[..|ops| - 1]) + if ops[|ops| - 1].InsertIds? then ops[|ops| - 1].baseIds else []
  }

  /** What one step does to the live internal numbers, when `next` is the next free one. */
  ghost function AfterOp(live: set<nat>, next: nat, op: Op): set<nat> {
    match op
    case InsertIds(v) => live + Span(next, |v|)
    case DeleteIds(w) => live - Elements(w)
    case SearchOp => live
  }

  ghost function LiveInternals(ops: seq<Op>, seed: nat): set<nat> {
    if ops == [] then Below(seed)
    else
      var front := ops[..|ops| - 1];
      AfterOp(LiveInternals(front, seed), seed + |Written(front)|, ops[|ops| - 1])
  }

  /** The base ids that the live internal numbers stand for. */
  ghost function Image(t: seq<nat>, live: set<nat>): set<nat> {
    set i | i in live && i < |t| :: t[i]
  }

  // --- what the original stream keeps live ---

  /** The live ids, and those that were ever inserted while live. */
  datatype Original = Original(live: set<nat>, doubled: set<nat>)

  ghost function Arrive(o: Original, b: nat): Original {
    Original(o.live + {b}, if b in o.live then o.doubled + {b} else o.doubled)
  }

  ghost function ArriveAll(o: Original, v: seq<nat>): Original {
    if v == [] then o else Arrive(ArriveAll(o, v[..|v| - 1]), v[|v| - 1])
  }

  ghost function After(o: Original, e: Event): Original {
    match e
    case Insert(ids) => ArriveAll(o, ids)
    case Delete(ids) => o.(live := o.live - Elements(ids))
    case Search => o
    case Other => o
  }

  /** The stream starts with the ids below `off` loaded. */
  ghost function Played(events: seq<Event>, off: nat): Original {
    if events == [] then Original(Below(off), {})
    else After(Played(events[..|events| - 1], off), events[|events| - 1])
  }

  /** Every named id becomes live; one that is live already, or is named twice, is doubled. */
  lemma {:induction false} ArrivedExactly(o: Original, v: seq<nat>, b: nat)
    ensures b in ArriveAll(o, v).live <==> b in o.live || b in v
    ensures b in ArriveAll(o, v).doubled <==> b in o.doubled || multiset(v)[b] > (if b in o.live then 0 else 1)
  {
    if v != [] {
      ArrivedExactly(o, v[..|v| - 1], b);
      assert v == v[..|v| - 1] + [v[|v| - 1]];
    }
  }

  /** No delete event names an id that was ever inserted while live. */
  ghost predicate NoDoubledDelete(events: seq<Event>, off: nat) {
    forall k :: 0 <= k < |events| && events[k].Delete? ==> Elements(events[k].ids) !! Played(events[..k], off).doubled
  }

  /** After every event the two live sets agree. */
  ghost predicate Simulates(events: seq<Event>, off: nat, seed: nat, trace: seq<Translation>)
    requires |trace| == |events| + 1
  {
    forall k :: 0 <= k <= |events| ==>
      Played(events[..k], off).live == Image(trace[k].int2base, LiveInternals(trace[k].ops, seed))
  }

  // --- bookkeeping that every run keeps ---

  /** The tables point at each other. */
  ghost predicate Paired(m: map<nat, nat>, t: seq<nat>) {
    && (forall b: nat :: b in m ==> m[b] < |t| && t[m[b]] == b)
    && (forall i: nat :: i < |t| ==> t[i] in m)
  }

  /** Both tables agree, the counter is the length, written ids are numbered in order. */
  ghost predicate Booked(s: Translation, seed: nat) {
    && s.internal == |s.int2base| == seed + |Written(s.ops)|
    && Paired(s.base2int, s.int2base)
    && (forall j: nat :: j < |Written(s.ops)| ==> s.int2base[seed + j] == Written(s.ops)[j])
  }

  lemma {:induction false} PlaceAllTables(s: Translation, v: seq<nat>)
    requires s.internal == |s.int2base|
    ensures var t := PlaceAll(s, v); t.int2base == s.int2base + v && t.internal == |t.int2base|
    ensures forall b: nat :: b in s.base2int ==> b in PlaceAll(s, v).base2int
  {
    if v != [] {
      PlaceAllTables(s, v[..|v| - 1]);
      assert v == v[..|v| - 1] + [v[|v| - 1]];
    }
  }

  lemma {:induction false} PlaceAllPaired(s: Translation, v: seq<nat>)
    requires s.internal == |s.int2base| && Paired(s.base2int, s.int2base)
    ensures Paired(PlaceAll(s, v).base2int, PlaceAll(s, v).int2base)
  {
    if v != [] {
      PlaceAllPaired(s, v[..|v| - 1]);
      PlaceAllTables(s, v[..|v| - 1]);
    }
  }

  lemma WrittenPush(ops: seq<Op>, op: Op)
    ensures Written(ops + [op]) == Written(ops) + if op.InsertIds? then op.baseIds else []
  {
    assert (ops + [op])[..|ops|] == ops;
  }

  lemma StepKeepsBooks(s: Translation, e: Event, seed: nat, t: Translation)
    requires Booked(s, seed) && Step(s, e, seed, t)
    ensures Booked(t, seed)
  {
    hide Paired, PlaceAll, Internals, Ascending, Written;
    if e.Insert? && Unseeded(e.ids, seed) != [] {
      var v := Unseeded(e.ids, seed);
      PlaceAllTables(s, v);
      PlaceAllPaired(s, v);
      WrittenPush(s.ops, InsertIds(v));
    } else if e.Delete? {
      WrittenPush(s.ops, t.ops[|s.ops|]);
    } else if e.Search? {
      WrittenPush(s.ops, SearchOp);
    }
  }

  /** Throughout a run the tables are inverse to each other, the counter is the number of
      internal ids, and the `j`-th written insert id has internal number `seed + j`. */
  lemma {:induction false} AlwaysBooked(events: seq<Event>, seed: nat, trace: seq<Translation>, k: nat)
    requires Run(events, seed, trace) && k <= |events|
    ensures Booked(trace[k], seed)
  {
    if k > 0 {
      AlwaysBooked(events, seed, trace, k - 1);
      assert Step(trace[k - 1], events[k - 1], seed, trace[k - 1 + 1]);
      StepKeepsBooks(trace[k - 1], events[k - 1], seed, trace[k]);
    }
  }

  ghost predicate KeepsFrom(v: seq<nat>, at: seq<nat>, seed: nat) {
    forall i: nat :: i < |v| ==> (i in at <==> v[i] >= seed)
  }

  lemma KeepsFromPush(v: seq<nat>, at: seq<nat>, seed: nat, x: nat)
    requires KeepsFrom(v, at, seed) && forall i :: i in at ==> i < |v|
    ensures KeepsFrom(v + [x], if x >= seed then at + [|v|] else at, seed)
  {
  }

  lemma KeepsNothing(seed: nat)
    ensures KeepsAt([], [], []) && KeepsFrom([], [], seed)
  {
  }

  lemma {:induction false} UnseededKeeps(v: seq<nat>, seed: nat) returns (at: seq<nat>)
    ensures KeepsAt(v, at, Unseeded(v, seed)) && KeepsFrom(v, at, seed)
  {
    hide KeepsAt, KeepsFrom;
    if v == [] {
      KeepsNothing(seed);
      at := [];
    } else {
      var k := |v| - 1;
      var front := UnseededKeeps(v[..k], seed);
      assert v == v[..k] + [v[k]];
      KeepsPush(v[..k], front, Unseeded(v[..k], seed), v[k]);
      KeepsFromPush(v[..k], front, seed, v[k]);
      assert Unseeded(v[..k], seed) + [] == Unseeded(v[..k], seed);
      at := if v[k] >= seed then front + [k] else front;
    }
  }

  lemma {:induction false} UnseededCount(v: seq<nat>, seed: nat, b: nat)
    ensures multiset(Unseeded(v, seed))[b] == if b >= seed then multiset(v)[b] else 0
  {
    if v != [] {
      UnseededCount(v[..|v| - 1], seed, b);
      assert v == v[..|v| - 1] + [v[|v| - 1]];
    }
  }

  lemma UnseededMembers(v: seq<nat>, seed: nat)
    ensures forall b: nat :: multiset(Unseeded(v, seed))[b] == if b >= seed then multiset(v)[b] else 0
    ensures forall b :: b in Unseeded(v, seed) ==> b >= seed
    ensures Unseeded(v, seed) == [] <==> forall b :: b in v ==> b < seed
  {
    hide Unseeded;
    var w := Unseeded(v, seed);
    forall b: nat ensures multiset(w)[b] == if b >= seed then multiset(v)[b] else 0 {
      UnseededCount(v, seed, b);
    }
    forall b | b in w ensures b >= seed {
      assert b in multiset(w);
    }
    if w == [] {
      forall b | b in v ensures b < seed {
        assert multiset(v)[b] > 0 && multiset(w)[b] == 0;
      }
    } else {
      assert w[0] in multiset(w);
      assert w[0] in multiset(v) && w[0] in v;
    }
  }

  lemma InsertStep(s: Translation, ids: seq<nat>, seed: nat, t: Translation)
    requires Booked(s, seed) && Step(s, Insert(ids), seed, t)
    ensures var w := Unseeded(ids, seed);
      && t.ops == s.ops + (if w == [] then [] else [InsertIds(w)])
      && Written(t.ops) == Written(s.ops) + w
      && t.int2base == s.int2base + w && t.internal == s.internal + |w|
  {
    hide Paired, Unseeded, PlaceAll, Written;
    PlaceAllTables(s, Unseeded(ids, seed));
    WrittenPush(s.ops, InsertIds(Unseeded(ids, seed)));
  }

  /** An insert event writes the ids at or above the seed, each as often as the event names
      it and in the order of the event, and nothing exactly if there are none. */
  lemma InsertWrites(events: seq<Event>, seed: nat, trace: seq<Translation>, k: nat) returns (w: seq<nat>, at: seq<nat>)
    requires Run(events, seed, trace) && k < |events| && events[k].Insert?
    ensures trace[k + 1].ops == trace[k].ops + (if w == [] then [] else [InsertIds(w)])
    ensures Written(trace[k + 1].ops) == Written(trace[k].ops) + w
    ensures trace[k + 1].int2base == trace[k].int2base + w && trace[k + 1].internal == trace[k].internal + |w|
    ensures KeepsAt(events[k].ids, at, w) && KeepsFrom(events[k].ids, at, seed)
    ensures forall b :: b in w ==> b >= seed
    ensures forall b: nat :: b >= seed ==> multiset(w)[b] == multiset(events[k].ids)[b]
    ensures w == [] <==> forall b :: b in events[k].ids ==> b < seed
  {
    hide Booked, Step, Start, Written, Unseeded, KeepsAt, KeepsFrom;
    AlwaysBooked(events, seed, trace, k);
    assert Step(trace[k], events[k], seed, trace[k + 1]);
    InsertStep(trace[k], events[k].ids, seed, trace[k + 1]);
    UnseededMembers(events[k].ids, seed);
    w := Unseeded(events[k].ids, seed);
    at := UnseededKeeps(events[k].ids, seed);
  }

  /** How often a delete event that names `ids` writes the number `i`: as often as it names
      the id whose current number is `i`. */
  ghost function Named(s: Translation, ids: seq<nat>, i: nat): nat {
    if i < |s.int2base| && s.int2base[i] in s.base2int && s.base2int[s.int2base[i]] == i
    then multiset(ids)[s.int2base[i]]
    else 0
  }

  lemma NamedPush(s: Translation, v: seq<nat>, b: nat, i: nat)
    requires Paired(s.base2int, s.int2base)
    ensures Named(s, v + [b], i) == Named(s, v, i) + if b in s.base2int && s.base2int[b] == i then 1 else 0
  {
  }

  lemma {:induction false} InternalsCount(s: Translation, v: seq<nat>, i: nat)
    requires Paired(s.base2int, s.int2base)
    ensures multiset(Internals(s.base2int, v))[i] == Named(s, v, i)
  {
    hide Paired;
    if v == [] {
    } else {
      var k := |v| - 1;
      InternalsCount(s, v[..k], i);
      NamedPush(s, v[..k], v[k], i);
      assert v == v[..k] + [v[k]];
    }
  }

  /** A delete event writes, in ascending order, the current numbers of the ids it names that
      have one, each as often as the event names the id; the tables stay. */
  lemma DeleteWrites(events: seq<Event>, seed: nat, trace: seq<Translation>, k: nat) returns (w: seq<nat>)
    requires Run(events, seed, trace) && k < |events| && events[k].Delete?
    ensures trace[k + 1] == trace[k].(ops := trace[k].ops + [DeleteIds(w)]) && Ascending(w)
    ensures forall i: nat :: multiset(w)[i] == Named(trace[k], events[k].ids, i)
  {
    hide Paired, Written, Internals, Ascending;
    AlwaysBooked(events, seed, trace, k);
    assert Step(trace[k], events[k], seed, trace[k + 1]);
    w := trace[k + 1].ops[|trace[k].ops|].internals;
    forall i: nat ensures multiset(w)[i] == Named(trace[k], events[k].ids, i) {
      InternalsCount(trace[k], events[k].ids, i);
    }
  }

  /** A search event adds a search step and leaves the tables, other events change nothing. */
  lemma SearchWrites(events: seq<Event>, seed: nat, trace: seq<Translation>, k: nat)
    requires Run(events, seed, trace) && k < |events| && !events[k].Insert? && !events[k].Delete?
    ensures events[k] == Search ==> trace[k + 1] == trace[k].(ops := trace[k].ops + [SearchOp])
    ensures events[k] == Other ==> trace[k + 1] == trace[k]
  {
    assert Step(trace[k], events[k], seed, trace[k + 1]);
  }

  // --- when the live sets agree ---

  ghost predicate Outdated(m: map<nat, nat>, t: seq<nat>, live: set<nat>, b: nat) {
    exists i :: i in live && i < |t| && t[i] == b && b in m && m[b] != i
  }

  /** Holds in every run that starts with the right seed: a live base id is live under its
      current number, and a doubled one is also live under an outdated number. */
  ghost predicate Linked(m: map<nat, nat>, t: seq<nat>, live: set<nat>, o: Original) {
    && Paired(m, t)
    && (forall i :: i in live ==> i < |t|)
    && (forall b :: b in o.live ==> b in m && m[b] in live)
    && (forall b :: b in o.doubled ==> Outdated(m, t, live, b))
  }

  /** Holds as long as no doubled id is deleted. */
  ghost predicate Exact(m: map<nat, nat>, t: seq<nat>, live: set<nat>, o: Original) {
    && (forall i :: i in live && i < |t| ==> t[i] in o.live)
    && (forall i :: i in live && i < |t| && t[i] in m && m[t[i]] != i ==> t[i] in o.doubled)
  }

  lemma PlaceLinked(m: map<nat, nat>, t: seq<nat>, live: set<nat>, o: Original, b: nat)
    requires Linked(m, t, live, o)
    ensures Linked(m[b := |t|], t + [b], live + {|t|}, Arrive(o, b))
    ensures Exact(m, t, live, o) ==> Exact(m[b := |t|], t + [b], live + {|t|}, Arrive(o, b))
  {
    var m', t', live', o' := m[b := |t|], t + [b], live + {|t|}, Arrive(o, b);
    forall x | x in o'.doubled ensures Outdated(m', t', live', x) {
      if x == b && b in o.live {
        assert m[b] in live' && t'[m[b]] == b && m'[b] != m[b];
      } else {
        var i :| i in live && i < |t| && t[i] == x && x in m && m[x] != i;
        assert i in live' && t'[i] == x && m'[x] != i;
      }
    }
  }

  lemma SpanPush(live: set<nat>, n: nat, m: nat)
    ensures live + Span(n, m + 1) == live + Span(n, m) + {n + m}
    ensures live + Span(n, 0) == live
  {
  }

  lemma {:induction false} PlaceAllLinked(s: Translation, live: set<nat>, o: Original, v: seq<nat>)
    requires s.internal == |s.int2base| && Linked(s.base2int, s.int2base, live, o)
    ensures var t := PlaceAll(s, v);
      && Linked(t.base2int, t.int2base, live + Span(|s.int2base|, |v|), ArriveAll(o, v))
      && (Exact(s.base2int, s.int2base, live, o) ==> Exact(t.base2int, t.int2base, live + Span(|s.int2base|, |v|), ArriveAll(o, v)))
  {
    hide Linked, Exact, Span, Arrive;
    var n := |s.int2base|;
    if v == [] {
      SpanPush(live, n, 0);
    } else {
      var front := v[..|v| - 1];
      PlaceAllLinked(s, live, o, front);
      PlaceAllTables(s, front);
      var t := PlaceAll(s, front);
      PlaceLinked(t.base2int, t.int2base, live + Span(n, |front|), ArriveAll(o, front), v[|v| - 1]);
      SpanPush(live, n, |front|);
    }
  }

  lemma {:induction false} InternalsMember(m: map<nat, nat>, v: seq<nat>, i: nat)
    ensures i in Internals(m, v) <==> exists b: nat :: b in v && b in m && m[b] == i
  {
    if v != [] {
      var front, last := v[..|v| - 1], v[|v| - 1];
      assert v == front + [last];
      InternalsMember(m, front, i);
    }
  }

  lemma SameElements(a: seq<nat>, b: seq<nat>)
    requires multiset(a) == multiset(b)
    ensures Elements(a) == Elements(b)
  {
    forall x ensures x in a <==> x in b { assert x in multiset(a) <==> x in multiset(b); }
  }

  lemma GoneIds(m: map<nat, nat>, t: seq<nat>, v: seq<nat>, gone: set<nat>)
    requires Paired(m, t) && forall i: nat :: i in gone <==> exists b: nat :: b in v && b in m && m[b] == i
    ensures forall i :: i in gone ==> i < |t| && t[i] in v && t[i] in m && m[t[i]] == i
    ensures forall b :: b in v && b in m ==> m[b] in gone
  {
    forall i | i in gone ensures i < |t| && t[i] in v && t[i] in m && m[t[i]] == i {
      var b: nat :| b in v && b in m && m[b] == i;
    }
  }

  lemma DeleteLinked(m: map<nat, nat>, t: seq<nat>, live: set<nat>, o: Original, v: seq<nat>, gone: set<nat>)
    requires Linked(m, t, live, o)
    requires forall i: nat :: i in gone <==> exists b: nat :: b in v && b in m && m[b] == i
    ensures Linked(m, t, live - gone, o.(live := o.live - Elements(v)))
    ensures Exact(m, t, live, o) && Elements(v) !! o.doubled ==> Exact(m, t, live - gone, o.(live := o.live - Elements(v)))
  {
    var live', o' := live - gone, o.(live := o.live - Elements(v));
    GoneIds(m, t, v, gone);
    forall b | b in o.doubled ensures Outdated(m, t, live', b) {
      var i :| i in live && i < |t| && t[i] == b && b in m && m[b] != i;
      assert i in live';
    }
    assert forall i :: i in live' && i < |t| && t[i] in v ==> t[i] in Elements(v);
  }

  lemma {:induction false} UnseededAll(v: seq<nat>, seed: nat)
    requires forall i :: 0 <= i < |v| ==> v[i] >= seed
    ensures Unseeded(v, seed) == v
  {
    if v != [] {
      assert v == v[..|v| - 1] + [v[|v| - 1]];
      UnseededAll(v[..|v| - 1], seed);
    }
  }

  lemma LivePush(ops: seq<Op>, op: Op, seed: nat)
    ensures LiveInternals(ops + [op], seed) == AfterOp(LiveInternals(ops, seed), seed + |Written(ops)|, op)
  {
    assert (ops + [op])[..|ops|] == ops;
  }

  ghost predicate LinkedTo(s: Translation, seed: nat, o: Original) {
    Linked(s.base2int, s.int2base, LiveInternals(s.ops, seed), o)
  }

  ghost predicate ExactTo(s: Translation, seed: nat, o: Original) {
    Exact(s.base2int, s.int2base, LiveInternals(s.ops, seed), o)
  }

  lemma InsertLinked(s: Translation, ids: seq<nat>, seed: nat, t: Translation, o: Original)
    requires Booked(s, seed) && LinkedTo(s, seed, o) && forall i :: 0 <= i < |ids| ==> ids[i] >= seed
    requires Step(s, Insert(ids), seed, t)
    ensures LinkedTo(t, seed, ArriveAll(o, ids)) && (ExactTo(s, seed, o) ==> ExactTo(t, seed, ArriveAll(o, ids)))
  {
    hide Linked, Exact, Paired, PlaceAll, Written, LiveInternals, Span;
    UnseededAll(ids, seed);
    PlaceAllLinked(s, LiveInternals(s.ops, seed), o, ids);
    LivePush(s.ops, InsertIds(ids), seed);
  }

  lemma DeleteStepLinked(s: Translation, ids: seq<nat>, seed: nat, t: Translation, o: Original)
    requires LinkedTo(s, seed, o) && Step(s, Delete(ids), seed, t)
    ensures LinkedTo(t, seed, After(o, Delete(ids)))
    ensures ExactTo(s, seed, o) && Elements(ids) !! o.doubled ==> ExactTo(t, seed, After(o, Delete(ids)))
  {
    hide Linked, Exact, Written, LiveInternals, Internals;
    var live, w := LiveInternals(s.ops, seed), t.ops[|s.ops|].internals;
    SameElements(w, Internals(s.base2int, ids));
    forall i: nat ensures i in Elements(w) <==> exists b: nat :: b in ids && b in s.base2int && s.base2int[b] == i {
      InternalsMember(s.base2int, ids, i);
      assert i in Elements(w) <==> i in Elements(Internals(s.base2int, ids));
    }
    DeleteLinked(s.base2int, s.int2base, live, o, ids, Elements(w));
    LivePush(s.ops, DeleteIds(w), seed);
  }

  lemma StepLinked(s: Translation, e: Event, seed: nat, t: Translation, o: Original)
    requires Booked(s, seed) && Step(s, e, seed, t) && LinkedTo(s, seed, o)
    requires e.Insert? ==> forall i :: 0 <= i < |e.ids| ==> e.ids[i] >= seed
    ensures LinkedTo(t, seed, After(o, e))
    ensures ExactTo(s, seed, o) && (e.Delete? ==> Elements(e.ids) !! o.doubled) ==> ExactTo(t, seed, After(o, e))
  {
    hide Linked, Exact, LiveInternals, ArriveAll, PlaceAll, Booked;
    match e
    case Insert(ids) => InsertLinked(s, ids, seed, t, o);
    case Delete(ids) => DeleteStepLinked(s, ids, seed, t, o);
    case Search => LivePush(s.ops, SearchOp, seed);
    case Other =>
  }

  /** Every inserted id is at or above `off`. */
  ghost predicate AllAbove(events: seq<Event>, off: nat) {
    forall k, i :: 0 <= k < |events| && events[k].Insert? && 0 <= i < |events[k].ids| ==> events[k].ids[i] >= off
  }

  lemma PlayedStep(events: seq<Event>, off: nat, k: nat)
    requires k < |events|
    ensures Played(events[..k + 1], off) == After(Played(events[..k], off), events[k])
  {
    assert events[..k + 1][..k] == events[..k];
  }

  lemma {:induction false} AlwaysLinked(events: seq<Event>, off: nat, trace: seq<Translation>, k: nat)
    requires Run(events, off, trace) && AllAbove(events, off) && k <= |events|
    ensures LinkedTo(trace[k], off, Played(events[..k], off))
    ensures (forall j :: 0 <= j < k && events[j].Delete? ==> Elements(events[j].ids) !! Played(events[..j], off).doubled)
      ==> ExactTo(trace[k], off, Played(events[..k], off))
  {
    if k == 0 {
      assert events[..0] == [];
    } else {
      var j := k - 1;
      AlwaysLinked(events, off, trace, j);
      AlwaysBooked(events, off, trace, j);
      assert Step(trace[j], events[j], off, trace[j + 1]);
      PlayedStep(events, off, j);
      StepLinked(trace[j], events[j], off, trace[k], Played(events[..j], off));
    }
  }

  lemma ExactIsEqual(s: Translation, seed: nat, o: Original)
    requires LinkedTo(s, seed, o) && ExactTo(s, seed, o)
    ensures o.live == Image(s.int2base, LiveInternals(s.ops, seed))
  {
    var live := LiveInternals(s.ops, seed);
    forall b | b in o.live ensures b in Image(s.int2base, live) {
      assert s.base2int[b] in live && s.int2base[s.base2int[b]] == b;
    }
  }

  /** Deleting a doubled id leaves its outdated number live. */
  lemma DoubledDeleteBreaks(events: seq<Event>, off: nat, trace: seq<Translation>, k: nat)
    requires Run(events, off, trace) && AllAbove(events, off) && k < |events| && events[k].Delete?
    requires !(Elements(events[k].ids) !! Played(events[..k], off).doubled)
    ensures Played(events[..k + 1], off).live != Image(trace[k + 1].int2base, LiveInternals(trace[k + 1].ops, off))
  {
    AlwaysLinked(events, off, trace, k + 1);
    PlayedStep(events, off, k);
    var o, o' := Played(events[..k], off), Played(events[..k + 1], off);
    var b :| b in Elements(events[k].ids) && b in o.doubled;
    assert b in o'.doubled && b !in o'.live;
    var s, live := trace[k + 1], LiveInternals(trace[k + 1].ops, off);
    assert Outdated(s.base2int, s.int2base, live, b);
    assert b in Image(s.int2base, live);
  }

  lemma WrongSeedBreaks(events: seq<Event>, off: nat, seed: nat, trace: seq<Translation>)
    requires Run(events, seed, trace) && seed != off
    ensures Played(events[..0], off).live != Image(trace[0].int2base, LiveInternals(trace[0].ops, seed))
  {
    var image := Image(trace[0].int2base, Below(seed));
    forall b: nat ensures b in image <==> b < seed {
      if b < seed { assert trace[0].int2base[b] == b && b in Below(seed); }
    }
    var x := if seed < off then seed else off;
    assert x in image <==> x < seed;
    assert x in Below(off) <==> x < off;
  }

  /** The runbook simulates the stream exactly when the seed is the number of ids the
      stream starts with and no id that was ever inserted while live is later deleted. */
  lemma SimulatesExactly(events: seq<Event>, off: nat, seed: nat, trace: seq<Translation>)
    requires Run(events, seed, trace) && AllAbove(events, off)
    ensures Simulates(events, off, seed, trace) <==> seed == off && NoDoubledDelete(events, off)
  {
    hide LinkedTo, ExactTo, AllAbove, LiveInternals, Step, Start;
    if seed != off {
      WrongSeedBreaks(events, off, seed, trace);
    } else if NoDoubledDelete(events, off) {
      forall k | 0 <= k <= |events|
        ensures Played(events[..k], off).live == Image(trace[k].int2base, LiveInternals(trace[k].ops, seed))
      {
        AlwaysLinked(events, off, trace, k);
        ExactIsEqual(trace[k], off, Played(events[..k], off));
      }
    } else {
      var k :| 0 <= k < |events| && events[k].Delete? && !(Elements(events[k].ids) !! Played(events[..k], off).doubled);
      DoubledDeleteBreaks(events, off, trace, k);
    }
  }
}
