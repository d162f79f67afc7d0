/** `AlgoCacheSingleton` of freshbang_wrapper.cpp: a cache that owns what it is given.
    Deleter calls are recorded in the order in which they happen. */
module AlgoCache {
  import opened FiniteSets
  import opened Optional

  type Pointer = nat

  /** `ptr` is 0 for the null pointer; times are in nanoseconds. */
  datatype Entry = Entry(ptr: Pointer, algoName: string, dtype: string, dim: int, timestamp: int, hasDeleter: bool) {

    /** The cache is responsible for deleting the pointer. */
    predicate Owned() {
      ptr != 0 && hasDeleter
    }
  }

  const NANOSECONDS_PER_MINUTE := 60_000_000_000

  /** `duration_cast` truncates toward zero. */
  function Minutes(elapsed: int): int {
    if elapsed >= 0 then elapsed / NANOSECONDS_PER_MINUTE else -(-elapsed / NANOSECONDS_PER_MINUTE)
  }

  datatype Query = Query(key: string, algoName: string, dtype: string, dim: int, maxAge: int, now: int) {

    predicate Matches(e: Entry) {
      e.algoName == algoName && e.dtype == dtype && e.dim == dim
    }

    predicate Expired(e: Entry) {
      Minutes(now - e.timestamp) >= maxAge
    }
  }

  datatype State = State(cache: map<string, Entry>, deleted: seq<Pointer>)

  /** One call; a clear visits the keys in an order of its own. */
  datatype Call = Get(q: Query, answer: Option<Entry>) | Put(key: string, entry: Entry) | Clear(order: seq<string>)

  ghost function Dropped(s: State, key: string): (deleted: seq<Pointer>) {
    if key in s.cache && s.cache[key].Owned() then s.deleted + [s.cache[key].ptr] else s.deleted
  }

  ghost function OwnedBy(e: Entry): seq<Pointer> {
    if e.Owned() then [e.ptr] else []
  }

  /** The deleter calls of a clear that visits `order`. */
  ghost function OwnedIn(cache: map<string, Entry>, order: seq<string>): seq<Pointer>
    requires forall i :: 0 <= i < |order| ==> order[i] in cache
  {
    if order == [] then []
    else OwnedIn(cache, order[..|order| - 1]) + OwnedBy(cache[order[|order| - 1]])
  }

  ghost predicate Enumerates(order: seq<string>, cache: map<string, Entry>) {
    && (forall i, j :: 0 <= i < j < |order| ==> order[i] != order[j])
    && (forall i :: 0 <= i < |order| ==> order[i] in cache)
    && forall k :: k in cache ==> k in order
  }

  /** The effect of one call. */
  ghost predicate Step(s: State, c: Call, t: State) {
    match c
    case Get(q, answer) =>
      if q.key !in s.cache || !q.Matches(s.cache[q.key]) then answer == None && t == s
      else if q.Expired(s.cache[q.key]) then answer == None && t == State(s.cache - {q.key}, Dropped(s, q.key))
      else answer == Some(s.cache[q.key]) && t == s
    case Put(key, entry) => t == State(s.cache[key := entry], Dropped(s, key))
    case Clear(order) => Enumerates(order, s.cache) && t == State(map[], s.deleted + OwnedIn(s.cache, order))
  }

  /** A run from the empty cache. */
  ghost predicate Run(calls: seq<Call>, trace: seq<State>) {
    && |trace| == |calls| + 1 && trace[0] == State(map[], [])
    && forall i :: 0 <= i < |calls| ==> Step(trace[i], calls[i], trace[i + 1])
  }

  ghost function Hands(c: Call): set<Pointer> {
    if c.Put? && c.entry.Owned() then {c.entry.ptr} else {}
  }

  /** The owned pointers handed over by the first `n` calls. */
  ghost function Given(calls: seq<Call>, n: nat): set<Pointer>
    requires n <= |calls|
  {
    if n == 0 then {}
    else Given(calls, n - 1) + Hands(calls[n - 1])
  }

  /** Every put hands over a pointer that was never handed over before. */
  ghost predicate FreshPuts(calls: seq<Call>) {
    forall i :: 0 <= i < |calls| ==> Hands(calls[i]) !! Given(calls, i)
  }

  ghost predicate Caches(s: State, key: string, p: Pointer) {
    key in s.cache && s.cache[key].Owned() && s.cache[key].ptr == p
  }

  /** Every pointer given is either cached under exactly one key or deleted exactly once. */
  ghost predicate Ownership(s: State, given: set<Pointer>) {
    && NoDuplicates(s.deleted)
    && (forall p :: p in s.deleted ==> p in given)
    && (forall k, p :: Caches(s, k, p) ==> p in given && p !in s.deleted)
    && (forall k, l, p :: Caches(s, k, p) && Caches(s, l, p) ==> k == l)
    && (forall p :: p in given && p !in s.deleted ==> exists k :: Caches(s, k, p))
  }

  /** The entry at `key` is deleted and erased. */
  lemma DropKeeps(s: State, key: string, given: set<Pointer>)
    requires Ownership(s, given)
    ensures Ownership(State(s.cache - {key}, Dropped(s, key)), given)
  {
    var t := State(s.cache - {key}, Dropped(s, key));
    assert key in s.cache && s.cache[key].Owned() ==> Caches(s, key, s.cache[key].ptr);
    forall k, p | Caches(t, k, p) ensures p in given && p !in t.deleted { assert Caches(s, k, p); }
    forall k, l, p | Caches(t, k, p) && Caches(t, l, p) ensures k == l { assert Caches(s, k, p) && Caches(s, l, p); }
    forall p | p in given && p !in t.deleted ensures exists k :: Caches(t, k, p) {
      var k :| Caches(s, k, p);
      assert Caches(t, k, p);
    }
  }

  /** A fresh entry takes a free key. */
  lemma AddKeeps(s: State, key: string, entry: Entry, given: set<Pointer>)
    requires Ownership(s, given) && key !in s.cache && Hands(Put(key, entry)) !! given
    ensures Ownership(s.(cache := s.cache[key := entry]), given + Hands(Put(key, entry)))
  {
    var t, more := s.(cache := s.cache[key := entry]), Hands(Put(key, entry));
    assert entry.Owned() ==> entry.ptr in more;
    forall k, p | Caches(t, k, p) ensures p in given + more && p !in t.deleted { assert k != key ==> Caches(s, k, p); }
    forall k, l, p | Caches(t, k, p) && Caches(t, l, p) ensures k == l {
      assert (k != key ==> Caches(s, k, p)) && (l != key ==> Caches(s, l, p));
    }
    forall p | p in given + more && p !in t.deleted ensures exists k :: Caches(t, k, p) {
      if p in more {
        assert Caches(t, key, p);
      } else {
        var k :| Caches(s, k, p);
        assert Caches(t, k, p);
      }
    }
  }

  /** The state after a clear has visited `order`. */
  ghost function Cleared(s: State, order: seq<string>): State
    requires forall i :: 0 <= i < |order| ==> order[i] in s.cache
  {
    State(s.cache - (set k | k in order), s.deleted + OwnedIn(s.cache, order))
  }

  lemma ClearNone(s: State)
    ensures Cleared(s, []) == s
  {
    assert s.cache - (set k | k in []) == s.cache;
  }

  lemma ClearNext(s: State, front: seq<string>, key: string)
    requires (forall i :: 0 <= i < |front| ==> front[i] in s.cache) && key in s.cache && key !in front
    ensures var t := Cleared(s, front); Cleared(s, front + [key]) == State(t.cache - {key}, Dropped(t, key))
  {
    var t, order := Cleared(s, front), front + [key];
    assert order[..|front|] == front;
    assert t.cache - {key} == s.cache - (set k | k in order);
    assert Dropped(t, key) == s.deleted + OwnedIn(s.cache, order);
  }

  lemma {:induction false} ClearKeeps(s: State, order: seq<string>, given: set<Pointer>)
    requires Ownership(s, given) && (forall i :: 0 <= i < |order| ==> order[i] in s.cache)
    requires forall i, j :: 0 <= i < j < |order| ==> order[i] != order[j]
    ensures Ownership(Cleared(s, order), given)
  {
    hide Ownership, OwnedIn, Dropped;
    if order == [] {
      ClearNone(s);
    } else {
      var front, key := order[..|order| - 1], order[|order| - 1];
      assert order == front + [key];
      ClearKeeps(s, front, given);
      ClearNext(s, front, key);
      DropKeeps(Cleared(s, front), key, given);
    }
  }

  lemma StepKeeps(s: State, c: Call, t: State, given: set<Pointer>)
    requires Step(s, c, t) && Ownership(s, given) && Hands(c) !! given
    ensures Ownership(t, given + Hands(c))
  {
    hide Ownership;
    match c
    case Get(q, answer) =>
      DropKeeps(s, q.key, given);
      assert given + Hands(c) == given;
    case Put(key, entry) =>
      DropKeeps(s, key, given);
      var dropped := State(s.cache - {key}, Dropped(s, key));
      AddKeeps(dropped, key, entry, given);
      assert dropped.cache[key := entry] == s.cache[key := entry];
    case Clear(order) =>
      ClearKeeps(s, order, given);
      assert s.cache - (set k | k in order) == map[];
      assert given + Hands(c) == given;
  }

  /** What is given: the non-null pointers put with a deleter. */
  lemma {:induction false} GivenExactly(calls: seq<Call>, n: nat, p: Pointer)
    requires n <= |calls|
    ensures p in Given(calls, n) <==>
      p != 0 && exists j :: 0 <= j < n && calls[j].Put? && calls[j].entry.hasDeleter && calls[j].entry.ptr == p
  {
    if n > 0 { GivenExactly(calls, n - 1, p); }
  }

  /** Ownership over whole runs: nothing leaks and nothing is deleted twice. */
  lemma {:induction false} OwnershipInEveryRun(calls: seq<Call>, trace: seq<State>, n: nat)
    requires Run(calls, trace) && FreshPuts(calls) && n <= |calls|
    ensures Ownership(trace[n], Given(calls, n))
  {
    hide Step;
    if n > 0 {
      OwnershipInEveryRun(calls, trace, n - 1);
      assert Step(trace[n - 1], calls[n - 1], trace[n - 1 + 1]);
      StepKeeps(trace[n - 1], calls[n - 1], trace[n], Given(calls, n - 1));
    }
  }

  /** In nanoseconds: with a positive maximum age of `m` minutes an entry is valid for less
      than `m` minutes; otherwise only if its time stamp lies that far in the future. */
  lemma ExpiresExactly(q: Query, e: Entry)
    ensures q.maxAge > 0 ==> (q.Expired(e) <==> q.now - e.timestamp >= q.maxAge * 60_000_000_000)
    ensures q.maxAge <= 0 ==> (q.Expired(e) <==> q.now - e.timestamp > (q.maxAge - 1) * 60_000_000_000)
  {
  }

  /** Between calls `i` and `n` the entry at `key` is neither replaced nor dropped. */
  ghost predicate Untouched(calls: seq<Call>, key: string, i: nat, n: nat)
    requires i < n <= |calls|
  {
    forall j :: i < j < n ==>
      match calls[j]
      case Get(q, answer) => q.key != key || answer.Some?
      case Put(other, _) => other != key
      case Clear(_) => false
  }

  lemma {:induction false} StaysCached(calls: seq<Call>, trace: seq<State>, key: string, i: nat, n: nat)
    requires Run(calls, trace) && i < n <= |calls| && calls[i].Put? && calls[i].key == key && Untouched(calls, key, i, n)
    ensures key in trace[n].cache && trace[n].cache[key] == calls[i].entry
  {
    assert Step(trace[n - 1], calls[n - 1], trace[n - 1 + 1]);
    if i < n - 1 { StaysCached(calls, trace, key, i, n - 1); }
  }

  /** A `get` after a `put` answers exactly when name, type and dimension agree and the entry
      is young enough, and with that entry. A `get` that asks for something else changes
      nothing, one that comes too late erases the entry and deletes what it owns. */
  lemma GetAfterPut(calls: seq<Call>, trace: seq<State>, i: nat, n: nat)
    requires Run(calls, trace) && i < n < |calls| && calls[i].Put? && calls[n].Get?
    requires calls[n].q.key == calls[i].key && Untouched(calls, calls[i].key, i, n)
    ensures var q, e, answer := calls[n].q, calls[i].entry, calls[n].answer;
      var same := e.algoName == q.algoName && e.dtype == q.dtype && e.dim == q.dim;
      var limit := if q.maxAge > 0 then q.maxAge * 60_000_000_000 else (q.maxAge - 1) * 60_000_000_000 + 1;
      var owned := if e.ptr != 0 && e.hasDeleter then [e.ptr] else [];
      if !same then answer == None && trace[n + 1] == trace[n]
      else if q.now - e.timestamp < limit then answer == Some(e) && trace[n + 1] == trace[n]
      else answer == None && trace[n + 1] == State(trace[n].cache - {q.key}, trace[n].deleted + owned)
  {
    StaysCached(calls, trace, calls[i].key, i, n);
    ExpiresExactly(calls[n].q, calls[i].entry);
    assert Step(trace[n], calls[n], trace[n + 1]);
  }

  /** No `get` answers with a pointer that was deleted before. */
  lemma GetIsNeverDangling(calls: seq<Call>, trace: seq<State>, n: nat)
    requires Run(calls, trace) && FreshPuts(calls) && n < |calls|
    requires calls[n].Get? && calls[n].answer.Some? && calls[n].answer.value.Owned()
    ensures calls[n].answer.value.ptr !in trace[n + 1].deleted
  {
    OwnershipInEveryRun(calls, trace, n);
    assert Step(trace[n], calls[n], trace[n + 1]);
    assert Caches(trace[n], calls[n].q.key, calls[n].answer.value.ptr);
  }

  /** A put of an owned pointer that was handed over before breaks ownership: the pointer is
      deleted already, or cached under another key too, or deleted by this very put. */
  lemma StaleHandBreaks(s: State, key: string, entry: Entry, given: set<Pointer>)
    requires Ownership(s, given) && !(Hands(Put(key, entry)) !! given)
    ensures !Ownership(State(s.cache[key := entry], Dropped(s, key)), given + Hands(Put(key, entry)))
  {
    var t, p := State(s.cache[key := entry], Dropped(s, key)), entry.ptr;
    assert Caches(t, key, p);
    if p !in s.deleted {
      var k :| Caches(s, k, p);
      assert k != key ==> Caches(t, k, p);
      assert k == key ==> p in t.deleted;
    }
  }

  lemma {:induction false} GivenPrefix(calls: seq<Call>, n: nat, i: nat)
    requires i <= n <= |calls|
    ensures Given(calls[..n], i) == Given(calls, i)
  {
    if i > 0 { GivenPrefix(calls, n, i - 1); }
  }

  /** The first put of a pointer that was handed over before. */
  lemma {:induction false} FirstStale(calls: seq<Call>, n: nat) returns (i: nat)
    requires n <= |calls| && !FreshPuts(calls[..n])
    ensures i < n && FreshPuts(calls[..i]) && !(Hands(calls[i]) !! Given(calls, i))
  {
    var j :| 0 <= j < n && !(Hands(calls[..n][j]) !! Given(calls[..n], j));
    GivenPrefix(calls, n, j);
    if FreshPuts(calls[..j]) {
      i := j;
    } else {
      i := FirstStale(calls, j);
    }
  }

  lemma RunPrefix(calls: seq<Call>, trace: seq<State>, n: nat)
    requires Run(calls, trace) && n <= |calls|
    ensures Run(calls[..n], trace[..n + 1])
  {
    hide Step;
  }

  lemma StaleStepBreaks(s: State, c: Call, t: State, given: set<Pointer>)
    requires Step(s, c, t) && Ownership(s, given) && !(Hands(c) !! given)
    ensures !Ownership(t, given + Hands(c))
  {
    hide Ownership;
    StaleHandBreaks(s, c.key, c.entry, given);
  }

  /** Ownership holds throughout a run exactly when every put hands over a pointer that was
      never handed over before. */
  lemma OwnershipExactly(calls: seq<Call>, trace: seq<State>)
    requires Run(calls, trace)
    ensures (forall n: nat :: n <= |calls| ==> Ownership(trace[n], Given(calls, n))) <==> FreshPuts(calls)
  {
    hide Ownership, Step;
    if FreshPuts(calls) {
      forall n: nat | n <= |calls| ensures Ownership(trace[n], Given(calls, n)) {
        OwnershipInEveryRun(calls, trace, n);
      }
    } else {
      assert calls[..|calls|] == calls;
      var i := FirstStale(calls, |calls|);
      RunPrefix(calls, trace, i);
      OwnershipInEveryRun(calls[..i], trace[..i + 1], i);
      GivenPrefix(calls, i, i);
      StaleStepBreaks(trace[i], calls[i], trace[i + 1], Given(calls, i));
      assert Given(calls, i + 1) == Given(calls, i) + Hands(calls[i]);
    }
  }

  /** Without fresh pointers ownership fails: one pointer under two keys is deleted twice. */
  lemma SharedPointerIsDeletedTwice(e: Entry, trace: seq<State>)
    requires e.Owned() && Run([Put("a", e), Put("b", e), Clear(["a", "b"])], trace)
    ensures trace[3].deleted == [e.ptr, e.ptr]
  {
    var calls := [Put("a", e), Put("b", e), Clear(["a", "b"])];
    assert Step(trace[0], calls[0], trace[1]) && Step(trace[1], calls[1], trace[2]) && Step(trace[2], calls[2], trace[3]);
    var cache := trace[2].cache;
    assert ["a", "b"][..1] == ["a"] && ["a"][..0] == [];
    assert OwnedIn(cache, ["a"]) == OwnedIn(cache, []) + [e.ptr];
    assert OwnedIn(cache, ["a", "b"]) == OwnedIn(cache, ["a"]) + [e.ptr];
  }

  /** A clear in progress: `order` has been visited, the keys in `left` have not. */
  ghost predicate Visiting(cache: map<string, Entry>, order: seq<string>, left: set<string>) {
    && left <= cache.Keys
    && (forall i, j :: 0 <= i < j < |order| ==> order[i] != order[j])
    && (forall i :: 0 <= i < |order| ==> order[i] in cache && order[i] !in left)
    && forall k :: k in cache ==> k in order || k in left
  }

  ghost predicate VisitingSoFar(cache: map<string, Entry>, order: seq<string>, left: set<string>,
      before: seq<Pointer>, deleted: seq<Pointer>) {
    Visiting(cache, order, left) && deleted == before + OwnedIn(cache, order)
  }

  lemma VisitStart(cache: map<string, Entry>)
    ensures Visiting(cache, [], cache.Keys) && OwnedIn(cache, []) == []
  {
  }

  lemma VisitNext(cache: map<string, Entry>, order: seq<string>, left: set<string>, before: seq<Pointer>,
      deleted: seq<Pointer>, key: string)
    requires VisitingSoFar(cache, order, left, before, deleted) && key in left
    ensures key in cache && VisitingSoFar(cache, order + [key], left - {key}, before, deleted + OwnedBy(cache[key]))
  {
    assert (order + [key])[..|order|] == order;
  }

  lemma VisitEnd(cache: map<string, Entry>, order: seq<string>, before: seq<Pointer>, deleted: seq<Pointer>)
    requires VisitingSoFar(cache, order, {}, before, deleted)
    ensures Enumerates(order, cache) && deleted == before + OwnedIn(cache, order)
  {
  }

  // --- the class ---

  class AlgoCacheSingleton {
    var cache: map<string, Entry>
    // every deleter call, in order
    var deleted: seq<Pointer>

    ghost function Now(): State
      reads this
    {
      State(cache, deleted)
    }

    constructor ()
      ensures Now() == State(map[], [])
    {
      cache, deleted := map[], [];
    }

    method Release(entry: Entry)
      modifies this`deleted
      ensures deleted == old(deleted) + OwnedBy(entry)
    {
      if entry.ptr != 0 && entry.hasDeleter {
        deleted := deleted + [entry.ptr];
      }
    }

    method Get(q: Query) returns (answer: Option<Entry>)
      modifies this
      ensures Step(old(Now()), Call.Get(q, answer), Now())
    {
      if q.key !in cache { return None; }
      var entry := cache[q.key];
      if entry.algoName != q.algoName || entry.dtype != q.dtype || entry.dim != q.dim { return None; }
      if Minutes(q.now - entry.timestamp) >= q.maxAge {
        Release(entry);
        cache := cache - {q.key};
        return None;
      }
      return Some(entry);
    }

    method Put(key: string, entry: Entry)
      modifies this
      ensures Step(old(Now()), Call.Put(key, entry), Now())
    {
      if key in cache {
        Release(cache[key]);
      }
      cache := cache[key := entry];
    }

    method Clear() returns (ghost order: seq<string>)
      modifies this
      ensures Step(old(Now()), Call.Clear(order), Now())
    {
      hide Visiting, OwnedIn, OwnedBy, Enumerates;
      ghost var entries, before := cache, deleted;
      var left := cache.Keys;
      order := [];
      VisitStart(entries);
      while left != {}
        invariant cache == entries && VisitingSoFar(entries, order, left, before, deleted)
        decreases |left|
      {
        var key :| key in left;
        VisitNext(entries, order, left, before, deleted, key);
        Release(cache[key]);
        left := left - {key};
        order := order + [key];
      }
      VisitEnd(entries, order, before, deleted);
      cache := map[];
    }
  }
}
