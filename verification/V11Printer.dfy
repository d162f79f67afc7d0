/** A printer for the documented v11 workload format with free whitespace, and how its
    numbers are read back. */
module V11Printer {
  import opened V11Stream
  import F = V11Fields

  predicate Blank(s: string) {
    forall c :: c in s ==> c == ' ' || c == '\t' || c == '\r' || c == '\n'
  }

  /** Decimal digits without leading zeros. */
  function Digits(n: nat): (s: string)
    ensures s != ""
  {
    if n < 10 then ['0' + n as char] else Digits(n / 10) + ['0' + (n % 10) as char]
  }

  /** Whitespace around the tokens of one `"name" : value` member. */
  datatype Gap = Gap(a: string, b: string, c: string, d: string) {
    predicate Valid() {
      Blank(a) && Blank(b) && Blank(c) && Blank(d)
    }
  }

  /** The text that follows a key: whitespace, a colon, whitespace, and what comes next. */
  function AfterKey(g: Gap, rest: string): string {
    g.b + (":" + (g.c + rest))
  }

  /** One member of an object, and the text after it. */
  function Field(name: string, g: Gap, value: string, rest: string): string {
    g.a + (F.Quoted(name) + AfterKey(g, value + (g.d + rest)))
  }

  /** Whitespace before and after one array element. */
  datatype Pad = Pad(pre: string, post: string) {
    predicate Valid() {
      Blank(pre) && Blank(post)
    }
  }

  function Numbers(ids: seq<nat>, pads: seq<Pad>): string
    requires |ids| == |pads|
  {
    if ids == [] then ""
    else pads[0].pre + Digits(ids[0]) + pads[0].post + (if |ids| == 1 then "" else "," + Numbers(ids[1..], pads[1..]))
  }

  /** Whitespace of one array of numbers; `inner` also covers the empty array. */
  datatype Spacing = Spacing(inner: string, pads: seq<Pad>) {
    predicate Valid() {
      Blank(inner) && forall p :: p in pads ==> p.Valid()
    }
  }

  function Array(ids: seq<nat>, sp: Spacing): string
    requires |ids| == |sp.pads|
  {
    "[" + (sp.inner + Numbers(ids, sp.pads)) + "]"
  }

  /** Whitespace of one row of a two-dimensional array. */
  datatype RowSpacing = RowSpacing(around: Pad, row: Spacing)

  /** Ids fit 32 bits. */
  predicate Small(ids: seq<nat>) {
    forall i :: 0 <= i < |ids| ==> ids[i] < 0x1_0000_0000
  }

  ghost predicate RowsFit(rows: seq<seq<nat>>, sps: seq<RowSpacing>) {
    |rows| == |sps| && forall i :: 0 <= i < |rows| ==>
      |rows[i]| == |sps[i].row.pads| && sps[i].around.Valid() && sps[i].row.Valid() && Small(rows[i])
  }

  ghost function RowsText(rows: seq<seq<nat>>, sps: seq<RowSpacing>): string
    requires RowsFit(rows, sps)
  {
    if rows == [] then ""
    else
      sps[0].around.pre + Array(rows[0], sps[0].row) + sps[0].around.post
        + (if |rows| == 1 then "" else "," + RowsText(rows[1..], sps[1..]))
  }

  /** Everything about the printed form of a batch that its value does not determine. */
  datatype Layout = Layout(
    lead: string, op: Gap, step: Gap, ids: Gap, last: Gap,
    stepNo: nat, count: nat, idSpacing: Spacing, outer: string, rows: seq<RowSpacing>)

  function Ids(b: Batch): seq<nat> {
    if b.Search? then b.qids else b.ids
  }

  ghost predicate Fits(b: Batch, l: Layout) {
    && Blank(l.lead) && l.op.Valid() && l.step.Valid() && l.ids.Valid() && l.last.Valid()
    && l.idSpacing.Valid() && Blank(l.outer)
    && |Ids(b)| == |l.idSpacing.pads| && Small(Ids(b))
    && (b.Search? ==> RowsFit(b.gt, l.rows))
  }

  function OpName(b: Batch): string {
    match b
    case Insert(_) => "insert"
    case Delete(_) => "delete"
    case Search(_, _) => "search"
  }

  function IdsKey(b: Batch): string {
    if b.Search? then "point_id" else "vector_ids"
  }

  function LastKey(b: Batch): string {
    if b.Search? then "groundtruth" else "num_vectors"
  }

  ghost function LastValue(b: Batch, l: Layout): string
    requires Fits(b, l)
  {
    if b.Search? then "[" + (l.outer + RowsText(b.gt, l.rows)) + "]" else Digits(l.count)
  }

  /** The members, in the documented order, and the text after them. */
  ghost function Members(b: Batch, l: Layout, end: string): string
    requires Fits(b, l)
  {
    Field("op_type", l.op, F.Quoted(OpName(b)), "," +
      Field("step", l.step, Digits(l.stepNo), "," +
        Field(IdsKey(b), l.ids, Array(Ids(b), l.idSpacing), "," +
          Field(LastKey(b), l.last, LastValue(b, l), end))))
  }

  ghost function Print(b: Batch, l: Layout): string
    requires Fits(b, l)
  {
    l.lead + "{" + Members(b, l, "}")
  }

  // ---------- Numbers ----------

  lemma AppendDigit(n: nat)
    ensures (n / 10 % 0x1_0000_0000 * 10 + n % 10) % 0x1_0000_0000 == n % 0x1_0000_0000
  {
    var q, m := n / 10, 0x1_0000_0000;
    assert n == 10 * q + n % 10;
    assert q == q / m * m + q % m;
    assert n == 10 * (q / m) * m + (q % m * 10 + n % 10);
  }

  /** Printed numbers are read back modulo 2^32. */
  lemma {:induction false} DigitsRead(n: nat)
    ensures F.AllDigits(Digits(n)) && F.Value(Digits(n)) == n % 0x1_0000_0000
  {
    hide F.AllDigits, F.Value;
    if n < 10 {
      F.ValueNil();
      F.ValueStep("", '0' + n as char);
      assert "" + ['0' + n as char] == Digits(n);
    } else {
      DigitsRead(n / 10);
      F.ValueStep(Digits(n / 10), '0' + (n % 10) as char);
      AppendDigit(n);
    }
  }

  /** The digits are decimal, the leading one first. */
  lemma DecimalDigits()
    ensures Digits(7) == "7" && Digits(19) == "19" && Digits(4096) == "4096"
  {
    assert Digits(4) == "4" && Digits(40) == "40" && Digits(409) == "409";
  }

  lemma {:induction false} DigitsOnly(n: nat)
    ensures F.AllDigits(Digits(n))
  {
    if n >= 10 { DigitsOnly(n / 10); }
  }

  /** Text without digits contributes no numbers. */
  lemma {:induction false} SkipText(s: string, rest: string)
    requires forall c :: c in s ==> !F.IsDigit(c)
    ensures F.Uints(s + rest) == F.Uints(rest)
  {
    if s == "" {
      assert s + rest == rest;
    } else {
      assert s[0] in s;
      assert (s + rest)[1..] == s[1..] + rest;
      SkipText(s[1..], rest);
    }
  }

  lemma {:induction false} RunOf(d: string, rest: string)
    requires F.AllDigits(d) && (rest == "" || !F.IsDigit(rest[0]))
    ensures F.DigitRun(d + rest) == |d|
  {
    if d == "" {
      assert d + rest == rest;
    } else {
      assert (d + rest)[1..] == d[1..] + rest;
      RunOf(d[1..], rest);
    }
  }

  lemma ReadOne(n: nat, rest: string)
    requires n < 0x1_0000_0000 && (rest == "" || !F.IsDigit(rest[0]))
    ensures F.Uints(Digits(n) + rest) == [n] + F.Uints(rest)
  {
    hide F.Value, F.Uints, Digits;
    DigitsRead(n);
    var d := Digits(n);
    RunOf(d, rest);
    assert F.IsDigit(d[0]);
    F.UintsRun(d + rest);
    assert (d + rest)[..|d|] == d && (d + rest)[|d|..] == rest;
  }

  lemma {:induction false} ReadNumbers(ids: seq<nat>, pads: seq<Pad>)
    requires |ids| == |pads| && Small(ids) && forall p :: p in pads ==> p.Valid()
    ensures F.Uints(Numbers(ids, pads)) == ids
  {
    hide F.Uints, Digits;
    if ids == [] {
      F.UintsNil();
    } else {
      assert pads[0] in pads;
      var p, more := pads[0], if |ids| == 1 then "" else "," + Numbers(ids[1..], pads[1..]);
      var tail := p.post + more;
      assert Numbers(ids, pads) == p.pre + (Digits(ids[0]) + tail);
      SkipText(p.pre, Digits(ids[0]) + tail);
      assert tail == "" || !F.IsDigit(tail[0]) by { if p.post != "" { assert tail[0] == p.post[0] && p.post[0] in p.post; } }
      ReadOne(ids[0], tail);
      SkipText(p.post, more);
      if |ids| == 1 {
        F.UintsNil();
      } else {
        SkipText(",", Numbers(ids[1..], pads[1..]));
        ReadNumbers(ids[1..], pads[1..]);
      }
    }
  }

  lemma ReadArray(ids: seq<nat>, sp: Spacing)
    requires |ids| == |sp.pads| && Small(ids) && sp.Valid()
    ensures F.Uints(sp.inner + Numbers(ids, sp.pads)) == ids
  {
    SkipText(sp.inner, Numbers(ids, sp.pads));
    ReadNumbers(ids, sp.pads);
  }

  /** Arrays of numbers contain nothing but digits, commas and whitespace. */
  ghost predicate Numeric(s: string) {
    forall c :: c in s ==> F.IsDigit(c) || c == ',' || Blank([c])
  }

  lemma BlankNumeric(s: string)
    requires Blank(s)
    ensures Numeric(s)
  {
    forall c | c in s ensures Blank([c]) {}
  }

  lemma {:induction false} NumbersNumeric(ids: seq<nat>, pads: seq<Pad>)
    requires |ids| == |pads| && forall p :: p in pads ==> p.Valid()
    ensures Numeric(Numbers(ids, pads))
  {
    if ids != [] {
      assert pads[0] in pads;
      DigitsOnly(ids[0]);
      BlankNumeric(pads[0].pre);
      BlankNumeric(pads[0].post);
      if |ids| > 1 { NumbersNumeric(ids[1..], pads[1..]); }
    }
  }
}
