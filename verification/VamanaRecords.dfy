/** The FDA2 graph file: fixed-size records with a vector, a degree and `R` neighbour
    slots. `load_graph` of vamana_graph.h reads what diskann_to_fda_out.py writes. */
module VamanaRecords {
  import opened Adjacency

  type Byte = x: nat | x < 256

  datatype VectorType = Float32 | UInt8

  datatype Options = Options(vectorType: VectorType, nodes: nat, dim: nat, degree: nat) {

    /** The widths of the C++ fields. */
    ghost predicate Fits() {
      nodes < 0x1_0000_0000_0000_0000 && dim < 0x1_0000_0000 && degree < 0x1_0000_0000
    }

    function VectorBytes(): nat {
      if vectorType.Float32? then dim * 4 else dim
    }
  }

  /** `record_size`; it cannot wrap around. */
  function RecordSize(o: Options): (size: nat)
    requires o.Fits()
    ensures o.VectorBytes() + 4 + o.degree * 4 == size < 0x1_0000_0000_0000_0000
  {
    o.VectorBytes() + 4 + o.degree * 4
  }

  // --- 32-bit words, least significant byte first ---

  function Encode(x: nat): (bs: seq<Byte>)
    requires x < 0x1_0000_0000
    ensures |bs| == 4
  {
    [x % 0x100, x / 0x100 % 0x100, x / 0x1_0000 % 0x100, x / 0x100_0000]
  }

  function Decode(bs: seq<Byte>): (x: nat)
    requires |bs| == 4
    ensures x < 0x1_0000_0000
  {
    bs[0] as int + 0x100 * bs[1] as int + 0x1_0000 * bs[2] as int + 0x100_0000 * bs[3] as int
  }

  lemma DecodeEncode(x: nat)
    requires x < 0x1_0000_0000
    ensures Decode(Encode(x)) == x
  {
    var y := x / 0x100;
    var z := y / 0x100;
    assert x == 0x100 * y + x % 0x100 && y == 0x100 * z + y % 0x100 && z == 0x100 * (z / 0x100) + z % 0x100;
    assert x / 0x1_0000 == z && x / 0x100_0000 == z / 0x100;
  }

  ghost predicate Words(s: seq<nat>) {
    forall j :: 0 <= j < |s| ==> s[j] < 0x1_0000_0000
  }

  function EncodeAll(words: seq<nat>): (bs: seq<Byte>)
    requires Words(words)
    ensures |bs| == 4 * |words|
  {
    if words == [] then [] else EncodeAll(words[..|words| - 1]) + Encode(words[|words| - 1])
  }

  function DecodeAll(bs: seq<Byte>): (words: seq<nat>)
    requires |bs| % 4 == 0
    ensures |words| == |bs| / 4
  {
    if bs == [] then [] else DecodeAll(bs[..|bs| - 4]) + [Decode(bs[|bs| - 4..])]
  }

  lemma DecodeAllPush(bs: seq<Byte>, word: seq<Byte>)
    requires |bs| % 4 == 0 && |word| == 4
    ensures DecodeAll(bs + word) == DecodeAll(bs) + [Decode(word)]
  {
    hide Decode;
    var all := bs + word;
    assert all[..|all| - 4] == bs && all[|all| - 4..] == word;
  }

  lemma NothingToDecode()
    ensures DecodeAll([]) == []
  {
  }

  lemma {:induction false} DecodeEncodeAll(words: seq<nat>)
    requires Words(words)
    ensures DecodeAll(EncodeAll(words)) == words
  {
    hide Encode, Decode, DecodeAll;
    if words == [] {
      NothingToDecode();
    } else {
      var front, last := words[..|words| - 1], words[|words| - 1];
      DecodeEncodeAll(front);
      DecodeEncode(last);
      DecodeAllPush(EncodeAll(front), Encode(last));
    }
  }

  // --- offsets ---

  /** Where item `u` starts when items have length `d`. */
  function At(u: nat, d: nat): nat {
    u * d
  }

  lemma AtStep(u: nat, d: nat)
    ensures At(u + 1, d) == At(u, d) + d && At(0, d) == 0
  {
  }

  lemma {:induction false} AtWithin(u: nat, n: nat, d: nat)
    requires u < n
    ensures At(u, d) + d <= At(n, d)
    decreases n
  {
    hide At;
    AtStep(n - 1, d);
    if u < n - 1 { AtWithin(u, n - 1, d); }
  }

  // --- one record ---

  ghost function RecordAt(file: seq<Byte>, o: Options, u: nat): (record: seq<Byte>)
    requires o.Fits() && At(u, RecordSize(o)) + RecordSize(o) <= |file|
    ensures |record| == RecordSize(o)
  {
    file[At(u, RecordSize(o))..At(u, RecordSize(o)) + RecordSize(o)]
  }

  ghost function DegreeOf(record: seq<Byte>, o: Options): nat
    requires o.Fits() && |record| == RecordSize(o)
  {
    Decode(record[o.VectorBytes()..o.VectorBytes() + 4])
  }

  ghost function SlotsOf(record: seq<Byte>, o: Options): (slots: seq<nat>)
    requires o.Fits() && |record| == RecordSize(o)
    ensures |slots| == o.degree
  {
    DecodeAll(record[o.VectorBytes() + 4..])
  }

  // --- load_graph ---

  datatype Part = Vector | Degree | Neighbours

  datatype LoadError =
    | SizeMismatch(expected: nat, actual: nat)
    | ReadFailed(part: Part, node: nat)
    | DegreeTooLarge(node: nat)

  datatype LoadResult = Loaded(g: Graph) | Failed(error: LoadError)

  /** The size the loader expects; the product is taken in 64 bits. */
  function ExpectedSize(o: Options): nat
    requires o.Fits()
  {
    At(o.nodes, RecordSize(o)) % 0x1_0000_0000_0000_0000
  }

  /** Record `u` is complete and within the degree bound, and the tables hold it. */
  ghost predicate HoldsAt(file: seq<Byte>, o: Options, u: nat, degrees: seq<nat>, adj: seq<nat>)
    requires o.Fits()
  {
    && u < |degrees| && At(u, o.degree) + o.degree <= |adj| && At(u, RecordSize(o)) + RecordSize(o) <= |file|
    && degrees[u] == DegreeOf(RecordAt(file, o, u), o) <= o.degree
    && adj[At(u, o.degree)..At(u, o.degree) + o.degree] == SlotsOf(RecordAt(file, o, u), o)
  }

  ghost predicate Holds(file: seq<Byte>, o: Options, n: nat, degrees: seq<nat>, adj: seq<nat>)
    requires o.Fits()
  {
    && |degrees| == n && |adj| == At(n, o.degree) && At(n, RecordSize(o)) <= |file|
    && forall u: nat :: u < n ==> HoldsAt(file, o, u, degrees, adj)
  }

  /** The degree field of record `u` is in the file and exceeds the bound. */
  ghost predicate Overfull(file: seq<Byte>, o: Options, u: nat)
    requires o.Fits()
  {
    var at := At(u, RecordSize(o)) + o.VectorBytes();
    at + 4 <= |file| && Decode(file[at..at + 4]) > o.degree
  }

  /** Records `0 .. n - 1` are complete and within the degree bound. */
  ghost predicate Clean(file: seq<Byte>, o: Options, n: nat)
    requires o.Fits()
  {
    forall u: nat :: u < n ==> At(u, RecordSize(o)) + RecordSize(o) <= |file| && DegreeOf(RecordAt(file, o, u), o) <= o.degree
  }

  /** The first read of record `u` that hits the end of the file is that of `part`. */
  ghost predicate ShortAt(file: seq<Byte>, o: Options, part: Part, u: nat)
    requires o.Fits()
  {
    var at := At(u, RecordSize(o)) + o.VectorBytes();
    match part
    case Vector => |file| < at
    case Degree => at <= |file| < at + 4
    case Neighbours => at + 4 <= |file| < at + 4 + o.degree * 4 && !Overfull(file, o, u)
  }

  /** What the loader answers: the graph, or the first thing that is wrong. */
  ghost predicate Outcome(file: seq<Byte>, o: Options, r: LoadResult)
    requires o.Fits()
  {
    match r
    case Loaded(g) =>
      && |file| == ExpectedSize(o) && g.nRows == o.nodes && g.maxDegree == o.degree
      && Holds(file, o, o.nodes, g.rowDegree, g.adj)
    case Failed(SizeMismatch(expected, actual)) => expected == ExpectedSize(o) && actual == |file| && expected != actual
    case Failed(ReadFailed(part, u)) =>
      |file| == ExpectedSize(o) && u < o.nodes && Clean(file, o, u) && ShortAt(file, o, part, u)
    case Failed(DegreeTooLarge(u)) =>
      |file| == ExpectedSize(o) && u < o.nodes && Clean(file, o, u) && Overfull(file, o, u)
  }

  lemma HoldsNone(file: seq<Byte>, o: Options)
    requires o.Fits()
    ensures Holds(file, o, 0, [], []) && At(0, RecordSize(o)) == 0
  {
  }

  lemma HoldsIsClean(file: seq<Byte>, o: Options, n: nat, degrees: seq<nat>, adj: seq<nat>)
    requires o.Fits() && Holds(file, o, n, degrees, adj)
    ensures Clean(file, o, n)
  {
    hide RecordAt, DegreeOf, SlotsOf, RecordSize, At;
    forall u: nat | u < n
      ensures At(u, RecordSize(o)) + RecordSize(o) <= |file| && DegreeOf(RecordAt(file, o, u), o) <= o.degree
    {
      assert HoldsAt(file, o, u, degrees, adj);
    }
  }

  lemma SliceOfSlice<T>(s: seq<T>, at: nat, len: nat, i: nat, j: nat)
    requires at + len <= |s| && i <= j <= len
    ensures s[at..at + len][i..j] == s[at + i..at + j]
  {
    var t := s[at..at + len];
    forall k | 0 <= k < j - i ensures t[i..j][k] == s[at + i..at + j][k] {
      assert t[i + k] == s[at + (i + k)];
    }
  }

  lemma HoldsOneMore(file: seq<Byte>, o: Options, n: nat, degrees: seq<nat>, adj: seq<nat>, d: nat, slots: seq<nat>)
    requires o.Fits() && Holds(file, o, n, degrees, adj) && d <= o.degree
    requires At(n, RecordSize(o)) + RecordSize(o) <= |file|
    requires var at := At(n, RecordSize(o)) + o.VectorBytes();
      d == Decode(file[at..at + 4]) && slots == DecodeAll(file[at + 4..at + 4 + o.degree * 4])
    ensures Holds(file, o, n + 1, degrees + [d], adj + slots)
  {
    hide Decode, DecodeAll, At;
    var k, vb, at := o.degree, o.VectorBytes(), At(n, RecordSize(o));
    AtStep(n, k);
    AtStep(n, RecordSize(o));
    SliceOfSlice(file, at, RecordSize(o), vb, vb + 4);
    SliceOfSlice(file, at, RecordSize(o), vb + 4, RecordSize(o));
    assert (adj + slots)[At(n, k)..At(n, k) + k] == slots;
    forall u: nat | u < n ensures HoldsAt(file, o, u, degrees + [d], adj + slots) {
      assert HoldsAt(file, o, u, degrees, adj);
      assert (adj + slots)[At(u, k)..At(u, k) + k] == adj[At(u, k)..At(u, k) + k];
    }
    assert HoldsAt(file, o, n, degrees + [d], adj + slots);
  }

  method LoadGraph(file: seq<Byte>, o: Options) returns (r: LoadResult)
    requires o.Fits()
    ensures Outcome(file, o, r)
  {
    hide Holds, Decode, DecodeAll, At, Clean;
    var rec := RecordSize(o);
    var expected := ExpectedSize(o);
    if |file| != expected { return Failed(SizeMismatch(expected, |file|)); }
    var degrees: seq<nat>, adj: seq<nat> := [], [];
    var vb, pos := o.VectorBytes(), 0;
    HoldsNone(file, o);
    for u := 0 to o.nodes
      invariant pos == At(u, rec) && Holds(file, o, u, degrees, adj)
    {
      HoldsIsClean(file, o, u, degrees, adj);
      if pos + vb > |file| { return Failed(ReadFailed(Vector, u)); }
      pos := pos + vb;
      if pos + 4 > |file| { return Failed(ReadFailed(Degree, u)); }
      var d := Decode(file[pos..pos + 4]);
      pos := pos + 4;
      if d > o.degree { return Failed(DegreeTooLarge(u)); }
      if pos + o.degree * 4 > |file| { return Failed(ReadFailed(Neighbours, u)); }
      var slots := DecodeAll(file[pos..pos + o.degree * 4]);
      HoldsOneMore(file, o, u, degrees, adj, d, slots);
      AtStep(u, rec);
      degrees := degrees + [d];
      adj := adj + slots;
      pos := pos + o.degree * 4;
    }
    r := Loaded(Graph(o.nodes, o.degree, degrees, adj));
  }

  /** Unless the expected size wraps around, a file of the right size is read completely. */
  lemma NoShortReads(file: seq<Byte>, o: Options, r: LoadResult)
    requires o.Fits() && At(o.nodes, RecordSize(o)) < 0x1_0000_0000_0000_0000 && Outcome(file, o, r)
    ensures !(r.Failed? && r.error.ReadFailed?)
  {
    hide At;
    if r.Failed? && r.error.ReadFailed? {
      AtWithin(r.error.node, o.nodes, RecordSize(o));
    }
  }

  /** Some file of the expected size is read short. */
  ghost predicate CanReadShort(o: Options)
    requires o.Fits()
  {
    exists file: seq<Byte>, r: LoadResult :: Outcome(file, o, r) && r.Failed? && r.error.ReadFailed?
  }

  lemma ZeroWord(bs: seq<Byte>)
    requires |bs| == 4 && forall i :: 0 <= i < 4 ==> bs[i] == 0
    ensures Decode(bs) == 0
  {
  }

  lemma ZeroDegree(file: seq<Byte>, o: Options, u: nat)
    requires o.Fits() && forall i :: 0 <= i < |file| ==> file[i] == 0
    ensures !Overfull(file, o, u)
    ensures At(u, RecordSize(o)) + RecordSize(o) <= |file| ==> DegreeOf(RecordAt(file, o, u), o) == 0
  {
    hide At, Decode;
    var start, at := At(u, RecordSize(o)), At(u, RecordSize(o)) + o.VectorBytes();
    if at + 4 <= |file| { ZeroWord(file[at..at + 4]); }
    if start + RecordSize(o) <= |file| {
      SliceOfSlice(file, start, RecordSize(o), o.VectorBytes(), o.VectorBytes() + 4);
    }
  }

  /** The record in which a file ends that is too small for all. */
  lemma {:induction false} EndsIn(size: nat, n: nat, d: nat) returns (u: nat)
    requires size < At(n, d)
    ensures u < n && At(u, d) <= size < At(u, d) + d
  {
    hide At;
    AtStep(0, d);
    AtStep(n - 1, d);
    if At(n - 1, d) <= size { u := n - 1; } else { u := EndsIn(size, n - 1, d); }
  }

  lemma ZerosReadShort(file: seq<Byte>, o: Options) returns (r: LoadResult)
    requires o.Fits() && (forall i :: 0 <= i < |file| ==> file[i] == 0)
    requires |file| == ExpectedSize(o) < At(o.nodes, RecordSize(o))
    ensures Outcome(file, o, r) && r.Failed? && r.error.ReadFailed?
  {
    hide At, DegreeOf, RecordAt, Overfull;
    var u := EndsIn(|file|, o.nodes, RecordSize(o));
    forall w: nat | w < u
      ensures At(w, RecordSize(o)) + RecordSize(o) <= |file| && DegreeOf(RecordAt(file, o, w), o) <= o.degree
    {
      AtWithin(w, u, RecordSize(o));
      ZeroDegree(file, o, w);
    }
    ZeroDegree(file, o, u);
    var at := At(u, RecordSize(o)) + o.VectorBytes();
    r := Failed(ReadFailed(if |file| < at then Vector else if |file| < at + 4 then Degree else Neighbours, u));
  }

  /** A read can fail after the size check exactly when the expected size wraps around. */
  lemma ReadsShortExactly(o: Options)
    requires o.Fits()
    ensures CanReadShort(o) <==> At(o.nodes, RecordSize(o)) >= 0x1_0000_0000_0000_0000
  {
    hide At, Outcome;
    if At(o.nodes, RecordSize(o)) >= 0x1_0000_0000_0000_0000 {
      var file: seq<Byte> := seq(ExpectedSize(o), _ => 0);
      var r := ZerosReadShort(file, o);
    } else if CanReadShort(o) {
      var file: seq<Byte>, r: LoadResult :| Outcome(file, o, r) && r.Failed? && r.error.ReadFailed?;
      NoShortReads(file, o, r);
    }
  }

  lemma FirstIsThere(file: seq<Byte>, o: Options, n: nat)
    requires o.Fits() && Clean(file, o, n) && n > 0
    ensures |file| >= RecordSize(o)
  {
    hide At, DegreeOf, RecordAt;
    var u: nat := 0;
    assert At(u, RecordSize(o)) + RecordSize(o) <= |file|;
  }

  lemma NothingIsClean(o: Options)
    requires o.Fits()
    ensures forall n: nat :: n > 0 ==> !Clean([], o, n)
  {
    hide Clean;
    forall n: nat | n > 0 ensures !Clean([], o, n) {
      if Clean([], o, n) { FirstIsThere([], o, n); }
    }
  }

  lemma CleanAt(file: seq<Byte>, o: Options, n: nat, u: nat)
    requires o.Fits() && Clean(file, o, n) && u < n
    ensures At(u, RecordSize(o)) + RecordSize(o) <= |file| && !Overfull(file, o, u)
  {
    hide Decode, At;
    assert DegreeOf(RecordAt(file, o, u), o) <= o.degree;
    SliceOfSlice(file, At(u, RecordSize(o)), RecordSize(o), o.VectorBytes(), o.VectorBytes() + 4);
  }

  /** A file is loaded exactly when it has the expected size and all records are clean. */
  lemma LoadsExactly(file: seq<Byte>, o: Options, r: LoadResult)
    requires o.Fits() && Outcome(file, o, r)
    ensures r.Loaded? <==> |file| == ExpectedSize(o) && Clean(file, o, o.nodes)
  {
    hide Clean, Overfull, At, RecordSize, Holds;
    match r
    case Loaded(g) => HoldsIsClean(file, o, o.nodes, g.rowDegree, g.adj);
    case Failed(SizeMismatch(_, _)) =>
    case Failed(ReadFailed(_, u)) =>
      if Clean(file, o, o.nodes) { CleanAt(file, o, o.nodes, u); }
    case Failed(DegreeTooLarge(u)) =>
      if Clean(file, o, o.nodes) { CleanAt(file, o, o.nodes, u); }
  }

  /** An empty file passes the size check for records of 2^34 bytes in 2^30 nodes. */
  lemma EmptyFileReadsShort(r: LoadResult)
    requires Outcome([], Options(Float32, 0x4000_0000, 0xFFFF_FFFF, 0), r)
    ensures r == Failed(ReadFailed(Vector, 0))
  {
    var o := Options(Float32, 0x4000_0000, 0xFFFF_FFFF, 0);
    assert ExpectedSize(o) == 0;
    NothingIsClean(o);
    AtStep(0, RecordSize(o));
    if r.Loaded? { LoadsExactly([], o, r); }
  }

  lemma CleanExcludes(file: seq<Byte>, o: Options, n: nat, u: nat)
    requires o.Fits() && Clean(file, o, n) && u < n
    ensures !Overfull(file, o, u) && forall part :: !ShortAt(file, o, part, u)
  {
    CleanAt(file, o, n, u);
  }

  /** Slices of one length determine the whole. */
  lemma {:induction false} SlicesDetermine(a: seq<nat>, b: seq<nat>, n: nat, k: nat)
    requires |a| == |b| == At(n, k)
    requires forall u: nat :: u < n ==>
      At(u, k) + k <= |a| && a[At(u, k)..At(u, k) + k] == b[At(u, k)..At(u, k) + k]
    ensures a == b
    decreases n
  {
    hide At;
    AtStep(0, k);
    if n == 0 {
      assert a == [] && b == [];
    } else {
      AtStep(n - 1, k);
      var m := At(n - 1, k);
      forall u: nat | u < n - 1
        ensures At(u, k) + k <= m && a[..m][At(u, k)..At(u, k) + k] == b[..m][At(u, k)..At(u, k) + k]
      {
        AtWithin(u, n - 1, k);
        assert a[..m][At(u, k)..At(u, k) + k] == a[At(u, k)..At(u, k) + k];
        assert b[..m][At(u, k)..At(u, k) + k] == b[At(u, k)..At(u, k) + k];
      }
      SlicesDetermine(a[..m], b[..m], n - 1, k);
      assert a == a[..m] + a[m..m + k] && b == b[..m] + b[m..m + k];
    }
  }

  lemma OneGraph(file: seq<Byte>, o: Options, n: nat, d1: seq<nat>, a1: seq<nat>, d2: seq<nat>, a2: seq<nat>)
    requires o.Fits() && Holds(file, o, n, d1, a1) && Holds(file, o, n, d2, a2)
    ensures d1 == d2 && a1 == a2
  {
    hide At, RecordAt, DegreeOf, SlotsOf, RecordSize;
    forall u: nat | u < n
      ensures d1[u] == d2[u] && At(u, o.degree) + o.degree <= |a1|
        && a1[At(u, o.degree)..At(u, o.degree) + o.degree] == a2[At(u, o.degree)..At(u, o.degree) + o.degree]
    {
      assert HoldsAt(file, o, u, d1, a1) && HoldsAt(file, o, u, d2, a2);
    }
    SlicesDetermine(a1, a2, n, o.degree);
  }

  lemma SameRecord(file: seq<Byte>, o: Options, r: LoadResult, r': LoadResult)
    requires o.Fits() && Outcome(file, o, r) && Outcome(file, o, r')
    requires r.Failed? && r'.Failed? && !r.error.SizeMismatch?
    ensures !r'.error.SizeMismatch? && r.error.node == r'.error.node
  {
    hide Clean, Overfull, ShortAt, At, RecordSize, ExpectedSize;
    if !r'.error.SizeMismatch? {
      if r.error.node < r'.error.node { CleanExcludes(file, o, r'.error.node, r.error.node); }
      if r'.error.node < r.error.node { CleanExcludes(file, o, r.error.node, r'.error.node); }
    }
  }

  lemma OnePart(file: seq<Byte>, o: Options, part: Part, part': Part, u: nat)
    requires o.Fits() && ShortAt(file, o, part, u) && ShortAt(file, o, part', u)
    ensures part == part'
  {
    hide At;
  }

  lemma ShortIsNotOverfull(file: seq<Byte>, o: Options, part: Part, u: nat)
    requires o.Fits() && ShortAt(file, o, part, u)
    ensures !Overfull(file, o, u)
  {
    hide At;
  }

  /** The options and the file determine the answer. */
  lemma OneOutcome(file: seq<Byte>, o: Options, r: LoadResult, r': LoadResult)
    requires o.Fits() && Outcome(file, o, r) && Outcome(file, o, r')
    ensures r == r'
  {
    hide Holds, Clean, Overfull, ShortAt, At, RecordSize;
    LoadsExactly(file, o, r);
    LoadsExactly(file, o, r');
    if r.Loaded? {
      OneGraph(file, o, o.nodes, r.g.rowDegree, r.g.adj, r'.g.rowDegree, r'.g.adj);
    } else if !r.error.SizeMismatch? {
      SameRecord(file, o, r, r');
      if r.error.ReadFailed? && r'.error.ReadFailed? {
        OnePart(file, o, r.error.part, r'.error.part, r.error.node);
      } else if r.error.ReadFailed? {
        ShortIsNotOverfull(file, o, r.error.part, r.error.node);
      } else if r'.error.ReadFailed? {
        ShortIsNotOverfull(file, o, r'.error.part, r.error.node);
      }
    }
  }

  /** A loaded graph of at most 2^32 nodes is well-formed. */
  lemma LoadedIsValid(file: seq<Byte>, o: Options, r: LoadResult)
    requires o.Fits() && o.nodes < 0x1_0000_0000 && Outcome(file, o, r) && r.Loaded?
    ensures r.g.Valid() && r.g.nRows == o.nodes
  {
    hide RecordAt, DegreeOf, SlotsOf, RecordSize;
    forall u: nat | u < o.nodes ensures r.g.rowDegree[u] <= o.degree {
      assert HoldsAt(file, o, u, r.g.rowDegree, r.g.adj);
    }
  }

  /** Its rows are the valid slots of the records. */
  lemma LoadedRow(file: seq<Byte>, o: Options, r: LoadResult, u: nat)
    requires o.Fits() && o.nodes < 0x1_0000_0000 && Outcome(file, o, r) && r.Loaded? && u < o.nodes
    ensures r.g.Valid() && At(u, RecordSize(o)) + RecordSize(o) <= |file| && At(u, o.degree) + o.degree <= |r.g.adj|
    ensures var record := RecordAt(file, o, u);
      && r.g.rowDegree[u] == DegreeOf(record, o) <= o.degree
      && r.g.adj[At(u, o.degree)..At(u, o.degree) + o.degree] == SlotsOf(record, o)
      && r.g.Neighbors(u) == SlotsOf(record, o)[..DegreeOf(record, o)]
  {
    hide RecordAt, DegreeOf, SlotsOf, RecordSize;
    LoadedIsValid(file, o, r);
    assert HoldsAt(file, o, u, r.g.rowDegree, r.g.adj);
    SliceOfSlice(r.g.adj, At(u, o.degree), o.degree, 0, r.g.rowDegree[u]);
  }

  lemma DecodeAllStep(bs: seq<Byte>, j: nat)
    requires |bs| % 4 == 0 && 4 * j + 4 <= |bs|
    ensures 4 * j + 4 == |bs| ==> DecodeAll(bs)[j] == Decode(bs[4 * j..4 * j + 4])
    ensures 4 * j + 4 < |bs| ==> 4 * j + 4 <= |bs| - 4 && DecodeAll(bs)[j] == DecodeAll(bs[..|bs| - 4])[j]
  {
    hide Decode;
    var k := |bs| - 4;
    assert bs[k..k + 4] == bs[k..];
  }

  lemma {:induction false} DecodeAllAt(bs: seq<Byte>, j: nat)
    requires |bs| % 4 == 0 && 4 * j + 4 <= |bs|
    ensures DecodeAll(bs)[j] == Decode(bs[4 * j..4 * j + 4])
  {
    hide Decode, DecodeAll;
    DecodeAllStep(bs, j);
    var front := bs[..|bs| - 4];
    if 4 * j + 4 < |bs| {
      DecodeAllAt(front, j);
      assert front[4 * j..4 * j + 4] == bs[4 * j..4 * j + 4];
    }
  }

  /** The word whose four bytes stand at `i`, the least significant first. */
  ghost predicate WordIs(x: nat, file: seq<Byte>, i: nat) {
    && i + 4 <= |file|
    && x == file[i] as int + 0x100 * file[i + 1] as int + 0x1_0000 * file[i + 2] as int + 0x100_0000 * file[i + 3] as int
  }

  lemma WordInSlice(file: seq<Byte>, start: nat, size: nat, i: nat)
    requires start + size <= |file| && i + 4 <= size
    ensures WordIs(Decode(file[start..start + size][i..i + 4]), file, start + i)
  {
    SliceOfSlice(file, start, size, i, i + 4);
  }

  lemma SlotInRecord(record: seq<Byte>, o: Options, j: nat)
    requires o.Fits() && |record| == RecordSize(o) && j < o.degree
    ensures SlotsOf(record, o)[j] == Decode(record[o.VectorBytes() + 4 + 4 * j..o.VectorBytes() + 4 + 4 * j + 4])
  {
    hide Decode, DecodeAll;
    var vb := o.VectorBytes();
    DecodeAllAt(record[vb + 4..], j);
    assert record[vb + 4..][4 * j..4 * j + 4] == record[vb + 4 + 4 * j..vb + 4 + 4 * j + 4];
  }

  /** Degree and slots of record `u` are the little-endian words at fixed offsets in the
      file: the degree behind the `vec` bytes of `dim` floats or of `dim` bytes, the slots
      behind the degree. */
  lemma LoadedWords(file: seq<Byte>, o: Options, r: LoadResult, u: nat, j: nat, vec: nat)
    requires o.Fits() && o.nodes < 0x1_0000_0000 && Outcome(file, o, r) && r.Loaded? && u < o.nodes && j < o.degree
    requires vec == if o.vectorType == Float32 then 4 * o.dim else o.dim
    ensures u < |r.g.rowDegree| && WordIs(r.g.rowDegree[u], file, At(u, vec + 4 + 4 * o.degree) + vec)
    ensures At(u, o.degree) + j < |r.g.adj|
    ensures WordIs(r.g.adj[At(u, o.degree) + j], file, At(u, vec + 4 + 4 * o.degree) + vec + 4 + 4 * j)
  {
    hide Decode, SlotsOf, Outcome, At, WordIs;
    LoadedIsValid(file, o, r);
    LoadedRow(file, o, r, u);
    var size := RecordSize(o);
    assert vec == o.VectorBytes() && size == vec + 4 + 4 * o.degree;
    WordInSlice(file, At(u, size), size, vec);
    WordInSlice(file, At(u, size), size, vec + 4 + 4 * j);
    SlotInRecord(RecordAt(file, o, u), o, j);
    var slots, x := r.g.adj[At(u, o.degree)..At(u, o.degree) + o.degree], r.g.adj[At(u, o.degree) + j];
    assert slots[j] == x;
  }
}
