/** bench_harness/diskann_to_fda_out.py: neighbour lists are filtered, cut to `R`, and
    packed with their vectors into records; `load_graph` gets the same rows back. */
module RecordWriter {
  import opened ComponentSizes
  import opened FiniteSets
  import opened VamanaRecords

  function InRange(a: seq<nat>, n: nat): seq<nat> {
    if a == [] then [] else InRange(a[..|a| - 1], n) + if a[|a| - 1] < n then [a[|a| - 1]] else []
  }

  /** The in-range neighbours in order, at most `r` of them. */
  ghost function CutRow(a: seq<nat>, n: nat, r: nat): (row: seq<nat>)
    ensures |row| <= r
  {
    var kept := InRange(a, n);
    if |kept| <= r then kept else kept[..r]
  }

  ghost predicate KeepsBelow(a: seq<nat>, at: seq<nat>, n: nat) {
    forall p: nat :: p < |a| ==> (p in at <==> a[p] < n)
  }

  lemma KeepsBelowPush(a: seq<nat>, at: seq<nat>, n: nat, x: nat)
    requires KeepsBelow(a, at, n) && forall i :: i in at ==> i < |a|
    ensures KeepsBelow(a + [x], if x < n then at + [|a|] else at, n)
  {
  }

  lemma NothingKept(n: nat)
    ensures KeepsAt([], [], []) && KeepsBelow([], [], n)
  {
  }

  lemma {:induction false} InRangeKeeps(a: seq<nat>, n: nat) returns (at: seq<nat>)
    ensures KeepsAt(a, at, InRange(a, n)) && KeepsBelow(a, at, n)
  {
    hide KeepsAt, KeepsBelow;
    if a == [] {
      NothingKept(n);
      at := [];
    } else {
      var k := |a| - 1;
      var front := InRangeKeeps(a[..k], n);
      assert a == a[..k] + [a[k]];
      KeepsPush(a[..k], front, InRange(a[..k], n), a[k]);
      KeepsBelowPush(a[..k], front, n, a[k]);
      assert InRange(a[..k], n) + [] == InRange(a[..k], n);
      at := if a[k] < n then front + [k] else front;
    }
  }

  lemma TakeMember(s: seq<nat>, k: nat, j: nat)
    requires k <= |s| && j < |s|
    ensures j < k ==> s[j] in s[..k]
  {
    assert j < k ==> s[..k][j] == s[j];
  }

  /** Row ids are filtered first and cut second: the row holds entries of the list that are
      in range, in order, and leaves out only what follows `r` of them. */
  lemma FirstInRange(a: seq<nat>, n: nat, r: nat) returns (at: seq<nat>)
    ensures KeepsAt(a, at, CutRow(a, n, r)) && forall i :: 0 <= i < |at| ==> a[at[i]] < n
    ensures forall p: nat :: p < |a| && a[p] < n ==> p in at || (|at| == r && forall i :: 0 <= i < r ==> at[i] < p)
  {
    hide InRange;
    var all := InRangeKeeps(a, n);
    at := if |all| <= r then all else all[..r];
    forall i | 0 <= i < |at| ensures a[at[i]] < n { assert all[i] in all; }
    forall p: nat | p < |a| && a[p] < n && p !in at ensures |at| == r && forall i :: 0 <= i < r ==> at[i] < p {
      assert p in all;
      var j :| 0 <= j < |all| && all[j] == p;
      TakeMember(all, |at|, j);
    }
  }

  lemma {:induction false} InRangeBelow(a: seq<nat>, n: nat)
    ensures forall i :: 0 <= i < |InRange(a, n)| ==> InRange(a, n)[i] < n
  {
    if a != [] { InRangeBelow(a[..|a| - 1], n); }
  }

  ghost function Padded(row: seq<nat>, r: nat): (slots: seq<nat>)
    requires |row| <= r
    ensures |slots| == r && slots[..|row|] == row && forall j :: |row| <= j < r ==> slots[j] == 0
  {
    row + seq(r - |row|, _ => 0)
  }

  /** The converter's input: one list per row, and as many vectors of `4 * d` bytes; the
      counts come from signed 32-bit fields and `r` must fit the record. */
  ghost predicate Input(lists: seq<seq<nat>>, vecs: seq<seq<Byte>>, d: nat, r: nat) {
    && |lists| == |vecs| < 0x8000_0000 && d < 0x8000_0000 && r < 0x1_0000_0000
    && forall i :: 0 <= i < |vecs| ==> |vecs[i]| == 4 * d
  }

  method Filter(a: seq<nat>, n: nat, r: nat) returns (row: seq<nat>)
    ensures row == CutRow(a, n, r)
  {
    row := [];
    for i := 0 to |a|
      invariant row == InRange(a[..i], n)
    {
      assert a[..i + 1][..i] == a[..i];
      if a[i] < n { row := row + [a[i]]; }
    }
    assert a[..|a|] == a;
    if |row| > r { row := row[..r]; }
  }

  ghost function CutLengths(lists: seq<seq<nat>>, n: nat, r: nat, upto: nat): (s: seq<nat>)
    requires upto <= |lists|
    ensures |s| == upto
  {
    seq(upto, i requires 0 <= i < upto => |CutRow(lists[i], n, r)|)
  }

  lemma PadSlots(a: seq<nat>, slots: seq<nat>, r: nat)
    requires |a| <= r && slots == seq(r, _ => 0)
    ensures a + slots[|a|..] == Padded(a, r)
  {
  }

  /** The first loop: degrees, padded slots and the number of edges kept. */
  method Fill(lists: seq<seq<nat>>, r: nat) returns (deg: array<nat>, nbr: array<seq<nat>>, tot: nat)
    ensures deg.Length == nbr.Length == |lists|
    ensures forall i :: 0 <= i < |lists| ==>
      deg[i] == |CutRow(lists[i], |lists|, r)| && nbr[i] == Padded(CutRow(lists[i], |lists|, r), r)
    ensures tot == Sum(CutLengths(lists, |lists|, r, |lists|))
    ensures forall i :: 0 <= i < |lists| ==> CutLengths(lists, |lists|, r, |lists|)[i] == |CutRow(lists[i], |lists|, r)|
  {
    hide InRange, CutRow, Padded;
    var n := |lists|;
    deg := new nat[n](_ => 0);
    nbr := new seq<nat>[n](_ => seq(r, _ => 0));
    tot := 0;
    for i := 0 to n
      invariant forall k :: 0 <= k < i ==> deg[k] == |CutRow(lists[k], n, r)| && nbr[k] == Padded(CutRow(lists[k], n, r), r)
      invariant forall k :: i <= k < n ==> nbr[k] == seq(r, _ => 0)
      invariant tot == Sum(CutLengths(lists, n, r, i))
    {
      var a := Filter(lists[i], n, r);
      deg[i] := |a|;
      PadSlots(a, nbr[i], r);
      nbr[i] := a + nbr[i][|a|..];
      assert CutLengths(lists, n, r, i + 1)[..i] == CutLengths(lists, n, r, i);
      tot := tot + |a|;
    }
  }

  /** Degrees and slots seen as bytes. */
  method AsBytes(deg: array<nat>, nbr: array<seq<nat>>) returns (degBytes: seq<seq<Byte>>, nbrBytes: seq<seq<Byte>>)
    requires deg.Length == nbr.Length && forall i :: 0 <= i < deg.Length ==> deg[i] < 0x1_0000_0000 && Words(nbr[i])
    ensures |degBytes| == |nbrBytes| == deg.Length
    ensures forall i :: 0 <= i < deg.Length ==> Words(nbr[i]) && degBytes[i] == Encode(deg[i]) && nbrBytes[i] == EncodeAll(nbr[i])
  {
    degBytes, nbrBytes := [], [];
    for i := 0 to deg.Length
      invariant |degBytes| == |nbrBytes| == i
      invariant forall k :: 0 <= k < i ==> degBytes[k] == Encode(deg[k]) && nbrBytes[k] == EncodeAll(nbr[k])
    {
      degBytes := degBytes + [Encode(deg[i])];
      nbrBytes := nbrBytes + [EncodeAll(nbr[i])];
    }
  }

  /** Overwrites the columns from `at` on in every row of the buffer. */
  method AssignColumns(buf: array<seq<Byte>>, at: nat, cols: seq<seq<Byte>>)
    requires |cols| == buf.Length && forall i :: 0 <= i < buf.Length ==> at + |cols[i]| <= |buf[i]|
    modifies buf
    ensures forall i :: 0 <= i < buf.Length ==> buf[i] == old(buf[i])[..at] + cols[i] + old(buf[i])[at + |cols[i]|..]
  {
    for i := 0 to buf.Length
      invariant forall k :: i <= k < buf.Length ==> buf[k] == old(buf[k])
      invariant forall k :: 0 <= k < i ==> buf[k] == old(buf[k])[..at] + cols[k] + old(buf[k])[at + |cols[k]|..]
    {
      buf[i] := buf[i][..at] + cols[i] + buf[i][at + |cols[i]|..];
    }
  }

  ghost function Record(vec: seq<Byte>, row: seq<nat>, r: nat): seq<Byte>
    requires |row| <= r < 0x1_0000_0000 && Words(row)
  {
    vec + (Encode(|row|) + EncodeAll(Padded(row, r)))
  }

  ghost function RecordFor(lists: seq<seq<nat>>, vecs: seq<seq<Byte>>, d: nat, r: nat, u: nat): (record: seq<Byte>)
    requires Input(lists, vecs, d, r) && u < |lists|
    ensures |record| == 4 * d + 4 + 4 * r
  {
    InRangeBelow(lists[u], |lists|);
    Record(vecs[u], CutRow(lists[u], |lists|, r), r)
  }

  ghost function Records(lists: seq<seq<nat>>, vecs: seq<seq<Byte>>, d: nat, r: nat): (rs: seq<seq<Byte>>)
    requires Input(lists, vecs, d, r)
    ensures |rs| == |lists|
  {
    seq(|lists|, u requires 0 <= u < |lists| => RecordFor(lists, vecs, d, r, u))
  }

  ghost function Concat(rs: seq<seq<Byte>>): seq<Byte> {
    if rs == [] then [] else Concat(rs[..|rs| - 1]) + rs[|rs| - 1]
  }

  method ToFile(buf: array<seq<Byte>>) returns (file: seq<Byte>)
    ensures file == Concat(buf[..])
  {
    file := [];
    for i := 0 to buf.Length
      invariant file == Concat(buf[..i])
    {
      assert buf[..i + 1][..i] == buf[..i];
      file := file + buf[i];
    }
    assert buf[..buf.Length] == buf[..];
  }

  lemma ThreeParts(zero: seq<Byte>, a: seq<Byte>, b: seq<Byte>, c: seq<Byte>)
    requires |zero| == |a| + |b| + |c|
    ensures var one := zero[..0] + a + zero[|a|..];
      var two := one[..|a|] + b + one[|a| + |b|..];
      two[..|a| + |b|] + c + two[|a| + |b| + |c|..] == a + (b + c)
  {
  }

  lemma SlotsFit(a: seq<nat>, n: nat, r: nat)
    requires n < 0x8000_0000 && r < 0x1_0000_0000
    ensures Words(Padded(CutRow(a, n, r), r))
  {
    InRangeBelow(a, n);
  }

  /** The whole converter, from the lists on. */
  method Convert(lists: seq<seq<nat>>, vecs: seq<seq<Byte>>, d: nat, r: nat) returns (file: seq<Byte>, tot: nat)
    requires Input(lists, vecs, d, r)
    ensures file == Concat(Records(lists, vecs, d, r))
    ensures tot == Sum(CutLengths(lists, |lists|, r, |lists|))
    ensures forall i :: 0 <= i < |lists| ==> CutLengths(lists, |lists|, r, |lists|)[i] == |CutRow(lists[i], |lists|, r)|
  {
    hide InRange, CutRow, Encode, EncodeAll, Padded, CutLengths, Sum;
    var n, entry := |lists|, d * 4 + 4 + r * 4;
    var deg, nbr;
    deg, nbr, tot := Fill(lists, r);
    var buf := new seq<Byte>[n](_ => seq(entry, _ => 0));
    forall i | 0 <= i < n ensures deg[i] < 0x1_0000_0000 && Words(nbr[i]) { SlotsFit(lists[i], n, r); }
    var degBytes, nbrBytes := AsBytes(deg, nbr);
    AssignColumns(buf, 0, vecs);
    AssignColumns(buf, d * 4, degBytes);
    AssignColumns(buf, d * 4 + 4, nbrBytes);
    forall i | 0 <= i < n ensures buf[i] == RecordFor(lists, vecs, d, r, i) {
      ThreeParts(seq(entry, _ => 0), vecs[i], degBytes[i], nbrBytes[i]);
    }
    assert buf[..] == Records(lists, vecs, d, r);
    file := ToFile(buf);
  }

  // --- the round trip ---

  lemma {:induction false} ConcatSlices(rs: seq<seq<Byte>>, len: nat)
    requires forall i :: 0 <= i < |rs| ==> |rs[i]| == len
    ensures |Concat(rs)| == At(|rs|, len)
    ensures forall u: nat :: u < |rs| ==> At(u, len) + len <= |Concat(rs)| && Concat(rs)[At(u, len)..At(u, len) + len] == rs[u]
  {
    hide At;
    if rs == [] {
      AtStep(0, len);
    } else {
      var k := |rs| - 1;
      var front := Concat(rs[..k]);
      ConcatSlices(rs[..k], len);
      AtStep(k, len);
      forall u: nat | u < |rs|
        ensures At(u, len) + len <= |Concat(rs)| && Concat(rs)[At(u, len)..At(u, len) + len] == rs[u]
      {
        if u < k {
          AtWithin(u, k, len);
          assert front[At(u, len)..At(u, len) + len] == rs[..k][u];
          assert (front + rs[k])[At(u, len)..At(u, len) + len] == front[At(u, len)..At(u, len) + len];
        }
      }
    }
  }

  lemma RecordReadsBack(vec: seq<Byte>, row: seq<nat>, o: Options)
    requires o.Fits() && |vec| == o.VectorBytes() && |row| <= o.degree && Words(row)
    ensures |Record(vec, row, o.degree)| == RecordSize(o)
    ensures Record(vec, row, o.degree)[..|vec|] == vec
    ensures DegreeOf(Record(vec, row, o.degree), o) == |row| && SlotsOf(Record(vec, row, o.degree), o) == Padded(row, o.degree)
  {
    hide Encode, Decode, EncodeAll, DecodeAll;
    var head, tail := Encode(|row|), EncodeAll(Padded(row, o.degree));
    var record := Record(vec, row, o.degree);
    assert record[|vec|..|vec| + 4] == head && record[|vec| + 4..] == tail;
    DecodeEncode(|row|);
    DecodeEncodeAll(Padded(row, o.degree));
  }

  lemma RowFits(a: seq<nat>, n: nat, r: nat)
    requires n < 0x8000_0000
    ensures Words(CutRow(a, n, r))
  {
    InRangeBelow(a, n);
  }

  /** Record `u` of the file, as the loader sees it. */
  lemma PackedRecord(lists: seq<seq<nat>>, vecs: seq<seq<Byte>>, d: nat, r: nat, file: seq<Byte>, o: Options, u: nat)
    requires Input(lists, vecs, d, r) && file == Concat(Records(lists, vecs, d, r)) && u < |lists|
    requires o == Options(Float32, |lists|, d, r)
    ensures |file| == At(|lists|, RecordSize(o)) && At(u, RecordSize(o)) + RecordSize(o) <= |file|
    ensures var record, row := RecordAt(file, o, u), CutRow(lists[u], |lists|, r);
      record[..4 * d] == vecs[u] && DegreeOf(record, o) == |row| && SlotsOf(record, o) == Padded(row, r)
  {
    hide InRange, CutRow, Record, DegreeOf, SlotsOf, At, Padded;
    var rs := Records(lists, vecs, d, r);
    ConcatSlices(rs, RecordSize(o));
    RowFits(lists[u], |lists|, r);
    RecordReadsBack(vecs[u], CutRow(lists[u], |lists|, r), o);
    assert RecordAt(file, o, u) == rs[u];
  }

  ghost predicate StandsAt(bytes: seq<Byte>, file: seq<Byte>, at: nat) {
    at + |bytes| <= |file| && file[at..at + |bytes|] == bytes
  }

  lemma PackedVector(lists: seq<seq<nat>>, vecs: seq<seq<Byte>>, d: nat, r: nat, file: seq<Byte>, u: nat)
    requires Input(lists, vecs, d, r) && file == Concat(Records(lists, vecs, d, r)) && u < |lists|
    ensures StandsAt(vecs[u], file, At(u, 4 * d + 4 + 4 * r))
  {
    hide CutRow, DegreeOf, SlotsOf, Padded, Records, Concat, At;
    var o := Options(Float32, |lists|, d, r);
    PackedRecord(lists, vecs, d, r, file, o, u);
    assert RecordSize(o) == 4 * d + 4 + 4 * r;
    SliceOfSlice(file, At(u, RecordSize(o)), RecordSize(o), 0, 4 * d);
  }

  lemma PackedSize(lists: seq<seq<nat>>, vecs: seq<seq<Byte>>, d: nat, r: nat, file: seq<Byte>)
    requires Input(lists, vecs, d, r) && file == Concat(Records(lists, vecs, d, r))
    ensures |file| == At(|lists|, 4 * d + 4 + 4 * r)
  {
    hide RecordFor, Concat, At;
    ConcatSlices(Records(lists, vecs, d, r), 4 * d + 4 + 4 * r);
  }

  lemma PackedIsClean(lists: seq<seq<nat>>, vecs: seq<seq<Byte>>, d: nat, r: nat, file: seq<Byte>)
    requires Input(lists, vecs, d, r) && file == Concat(Records(lists, vecs, d, r))
    ensures Clean(file, Options(Float32, |lists|, d, r), |lists|)
  {
    hide CutRow, DegreeOf, SlotsOf, At, Padded, Records, Concat;
    var o := Options(Float32, |lists|, d, r);
    forall u: nat | u < |lists|
      ensures At(u, RecordSize(o)) + RecordSize(o) <= |file| && DegreeOf(RecordAt(file, o, u), o) <= r
    {
      PackedRecord(lists, vecs, d, r, file, o, u);
    }
  }

  /** Row `u` of the loaded graph, and the slots behind it. */
  lemma PackedRow(lists: seq<seq<nat>>, vecs: seq<seq<Byte>>, d: nat, r: nat, file: seq<Byte>, result: LoadResult, u: nat)
    requires Input(lists, vecs, d, r) && file == Concat(Records(lists, vecs, d, r)) && u < |lists|
    requires Outcome(file, Options(Float32, |lists|, d, r), result) && result.Loaded?
    ensures result.g.Valid() && result.g.nRows == |lists|
    ensures result.g.Neighbors(u) == CutRow(lists[u], |lists|, r)
    ensures At(u, r) + r <= |result.g.adj| && result.g.adj[At(u, r)..At(u, r) + r] == Padded(CutRow(lists[u], |lists|, r), r)
  {
    hide InRange, CutRow, DegreeOf, SlotsOf, Outcome, Records, Concat, At;
    var o := Options(Float32, |lists|, d, r);
    LoadedIsValid(file, o, result);
    PackedRecord(lists, vecs, d, r, file, o, u);
    LoadedRow(file, o, result, u);
  }

  /** The packed file passes every check of the loader, unless its size does not fit 64
      bits, and row `u` of the loaded graph is the filtered and cut list `u`. The slots
      behind it are 0, and vector `u` stands at the start of record `u`. */
  lemma RoundTrip(lists: seq<seq<nat>>, vecs: seq<seq<Byte>>, d: nat, r: nat, file: seq<Byte>, result: LoadResult)
    requires Input(lists, vecs, d, r) && file == Concat(Records(lists, vecs, d, r))
    requires Outcome(file, Options(Float32, |lists|, d, r), result)
    ensures result.Loaded? <==> |file| < 0x1_0000_0000_0000_0000
    ensures result.Loaded? ==> result.g.Valid() && result.g.nRows == |lists|
    ensures result.Loaded? ==> forall u: nat :: u < |lists| ==> result.g.Neighbors(u) == CutRow(lists[u], |lists|, r)
    ensures result.Loaded? ==> forall u: nat :: u < |lists| ==>
      (At(u, r) + r <= |result.g.adj| && result.g.adj[At(u, r)..At(u, r) + r] == Padded(CutRow(lists[u], |lists|, r), r))
    ensures |file| == At(|lists|, 4 * d + 4 + 4 * r)
    ensures forall u: nat :: u < |lists| ==> StandsAt(vecs[u], file, At(u, 4 * d + 4 + 4 * r))
  {
    hide CutRow, Outcome, Padded, Records, Concat, Clean, At;
    var o := Options(Float32, |lists|, d, r);
    PackedSize(lists, vecs, d, r, file);
    PackedIsClean(lists, vecs, d, r, file);
    assert RecordSize(o) == 4 * d + 4 + 4 * r;
    LoadsExactly(file, o, result);
    forall u: nat | u < |lists|
      ensures StandsAt(vecs[u], file, At(u, 4 * d + 4 + 4 * r))
    {
      PackedVector(lists, vecs, d, r, file, u);
    }
    if result.Loaded? {
      LoadedIsValid(file, o, result);
      forall u: nat | u < |lists|
        ensures result.g.Neighbors(u) == CutRow(lists[u], |lists|, r) && At(u, r) + r <= |result.g.adj|
        ensures result.g.adj[At(u, r)..At(u, r) + r] == Padded(CutRow(lists[u], |lists|, r), r)
      {
        PackedRow(lists, vecs, d, r, file, result, u);
      }
    }
  }
}
