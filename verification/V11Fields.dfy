/** The field extractors of fda/src/v11_loader.hpp, which search the text of one object. */
module V11Fields {

  const NPOS := -1

  /** `std::string::find(c, from)`: the least index at or after `from`, or NPOS. */
  function FindChar(o: string, c: char, from: nat): (r: int)
    ensures r == NPOS || (from <= r < |o| && o[r] == c)
    decreases |o| - from
  {
    if from >= |o| then NPOS else if o[from] == c then from else FindChar(o, c, from + 1)
  }

  /** `std::string::rfind(c)`: the greatest index below `upto`, or NPOS. */
  function RFindChar(o: string, c: char, upto: nat): (r: int)
    requires upto <= |o|
    ensures r == NPOS || 0 <= r < upto
  {
    if upto == 0 then NPOS else if o[upto - 1] == c then upto - 1 else RFindChar(o, c, upto - 1)
  }

  predicate OccursAt(o: string, k: string, i: nat) {
    i + |k| <= |o| && o[i..i + |k|] == k
  }

  /** `std::string::find(k)` from position `from`. */
  function FindStr(o: string, k: string, from: nat): (r: int)
    ensures r == NPOS || (from <= r && OccursAt(o, k, r))
    decreases |o| - from
  {
    if OccursAt(o, k, from) then from else if from >= |o| then NPOS else FindStr(o, k, from + 1)
  }

  lemma {:induction false} FindCharAt(o: string, c: char, from: nat, i: nat)
    requires from <= i < |o| && o[i] == c && forall j :: from <= j < i ==> o[j] != c
    ensures FindChar(o, c, from) == i
    decreases i - from
  {
    if from < i { FindCharAt(o, c, from + 1, i); }
  }

  lemma {:induction false} RFindCharAt(o: string, c: char, upto: nat, i: nat)
    requires i < upto <= |o| && o[i] == c && forall j :: i < j < upto ==> o[j] != c
    ensures RFindChar(o, c, upto) == i
  {
    if i < upto - 1 { RFindCharAt(o, c, upto - 1, i); }
  }

  lemma {:induction false} FindStrAt(o: string, k: string, from: nat, i: nat)
    requires from <= i && OccursAt(o, k, i) && forall j :: from <= j < i ==> !OccursAt(o, k, j)
    ensures FindStr(o, k, from) == i
    decreases i - from
  {
    if from < i { FindStrAt(o, k, from + 1, i); }
  }

  function Quoted(s: string): string {
    "\"" + s + "\""
  }

  function GetStr(o: string, key: string): string {
    var p := FindStr(o, Quoted(key), 0);
    if p == NPOS then ""
    else
      var p1 := FindChar(o, ':', p);
      if p1 == NPOS then ""
      else
        var p2 := FindChar(o, '\"', p1);
        if p2 == NPOS then ""
        else
          var e := FindChar(o, '\"', p2 + 1);
          if e == NPOS then "" else o[p2 + 1..e]
  }

  predicate IsDigit(c: char) {
    '0' <= c <= '9'
  }

  function DigitValue(c: char): nat
    requires IsDigit(c)
  {
    (c - '0') as nat
  }

  /** Accumulating in a 32-bit unsigned integer. */
  function Accumulate(v: nat, c: char): nat
    requires IsDigit(c)
  {
    (v * 10 + DigitValue(c)) % 0x1_0000_0000
  }

  /** The leading digits of `s`. */
  function DigitRun(s: string): (k: nat)
    ensures k <= |s| && (forall i :: 0 <= i < k ==> IsDigit(s[i])) && (k < |s| ==> !IsDigit(s[k]))
  {
    if s == "" || !IsDigit(s[0]) then 0 else 1 + DigitRun(s[1..])
  }

  ghost predicate AllDigits(s: string) {
    forall i :: 0 <= i < |s| ==> IsDigit(s[i])
  }

  ghost function Value(s: string): nat
    requires AllDigits(s)
  {
    if s == "" then 0 else Accumulate(Value(s[..|s| - 1]), s[|s| - 1])
  }

  /** The numbers in `s`: its maximal runs of digits, read modulo 2^32. */
  ghost function Uints(s: string): seq<nat>
    decreases |s|
  {
    if s == "" then []
    else if !IsDigit(s[0]) then Uints(s[1..])
    else var k := DigitRun(s); [Value(s[..k])] + Uints(s[k..])
  }

  lemma UintsNil() ensures Uints("") == [] {}

  lemma ValueNil()
    ensures Value("") == 0 && AllDigits("")
  {
  }

  lemma ValueStep(s: string, c: char)
    requires AllDigits(s) && IsDigit(c)
    ensures AllDigits(s + [c]) && Value(s + [c]) == Accumulate(Value(s), c)
  {
    assert (s + [c])[..|s|] == s;
  }

  lemma UintsSkip(s: string)
    requires s != "" && !IsDigit(s[0])
    ensures Uints(s) == Uints(s[1..])
  {
  }

  lemma UintsRun(s: string)
    requires s != "" && IsDigit(s[0])
    ensures var k := DigitRun(s); AllDigits(s[..k]) && Uints(s) == [Value(s[..k])] + Uints(s[k..])
  {
  }

  lemma RunGoesOn(s: string, k: nat)
    requires k <= DigitRun(s) && k < |s| && IsDigit(s[k])
    ensures k + 1 <= DigitRun(s)
  {
  }

  lemma RunStops(s: string, k: nat)
    requires k <= DigitRun(s) && (k == |s| || !IsDigit(s[k]))
    ensures k == DigitRun(s)
  {
  }

  /** The pointer loop shared by the array extractors, over `o[from..end]`. */
  method ScanUints(o: string, from: nat, end: nat) returns (out: seq<nat>)
    requires from <= end <= |o|
    ensures out == Uints(o[from..end])
  {
    hide Uints, Value, Accumulate;
    out := [];
    var s := from;
    assert [] + Uints(o[from..end]) == Uints(o[from..end]);
    while s < end
      invariant from <= s <= end
      invariant out + Uints(o[s..end]) == Uints(o[from..end])
      decreases end - s
    {
      while s < end && !IsDigit(o[s])
        invariant from <= s <= end
        invariant out + Uints(o[s..end]) == Uints(o[from..end])
      {
        UintsSkip(o[s..end]);
        assert o[s..end][1..] == o[s + 1..end];
        s := s + 1;
      }
      if s >= end { break; }
      var v := 0;
      ghost var t, rest := s, o[s..end];
      var k := 0;
      ValueNil();
      while s < end && IsDigit(o[s])
        invariant t <= s <= end && s == t + k && rest == o[t..end]
        invariant k <= DigitRun(rest) && AllDigits(rest[..k]) && v == Value(rest[..k])
        decreases end - s
      {
        assert rest[k] == o[s];
        RunGoesOn(rest, k);
        ValueStep(rest[..k], o[s]);
        assert rest[..k + 1] == rest[..k] + [o[s]];
        v := Accumulate(v, o[s]);
        s := s + 1;
        k := k + 1;
      }
      RunStops(rest, k);
      UintsRun(rest);
      assert rest[k..] == o[s..end];
      assert out + ([v] + Uints(o[s..end])) == out + [v] + Uints(o[s..end]);
      out := out + [v];
    }
    UintsNil();
    assert o[s..end] == "" && out + [] == out;
  }

  /** The numbers between the first `[` after the key and the first `]` after that. */
  ghost function UintArray(o: string, key: string): seq<nat> {
    var p := FindStr(o, Quoted(key), 0);
    if p == NPOS then []
    else
      var b := FindChar(o, '[', p);
      if b == NPOS then []
      else
        var e := FindChar(o, ']', b);
        if e == NPOS then [] else Uints(o[b + 1..e])
  }

  method GetUintArray(o: string, key: string) returns (out: seq<nat>)
    ensures out == UintArray(o, key)
  {
    hide Uints, FindStr, FindChar, Quoted;
    out := [];
    var p := FindStr(o, Quoted(key), 0);
    if p == NPOS { return; }
    var b := FindChar(o, '[', p);
    if b == NPOS { return; }
    var e := FindChar(o, ']', b);
    if e == NPOS { return; }
    out := ScanUints(o, b + 1, e);
  }

  /** The rows from position `i` on, each between a `[` before `outerEnd` and the next `]`. */
  ghost function RowsFrom(o: string, i: nat, outerEnd: nat): seq<seq<nat>>
    decreases |o| - i
  {
    if i >= outerEnd then []
    else
      var rs := FindChar(o, '[', i);
      if rs == NPOS || rs >= outerEnd then []
      else
        var re := FindChar(o, ']', rs);
        if re == NPOS then [] else [Uints(o[rs + 1..re])] + RowsFrom(o, re + 1, outerEnd)
  }

  ghost function Uint2D(o: string, key: string): seq<seq<nat>> {
    var p := FindStr(o, Quoted(key), 0);
    if p == NPOS then []
    else
      var b := FindChar(o, '[', p);
      if b == NPOS then []
      else
        var outerEnd := RFindChar(o, ']', |o|);
        if outerEnd == NPOS then [] else RowsFrom(o, b + 1, outerEnd)
  }

  /** One turn of the row loop. */
  lemma NextRow(o: string, i: nat, outerEnd: nat)
    ensures i >= outerEnd ==> RowsFrom(o, i, outerEnd) == []
    ensures i < outerEnd ==>
      var rs := FindChar(o, '[', i);
      if rs == NPOS || rs >= outerEnd || FindChar(o, ']', rs) == NPOS then RowsFrom(o, i, outerEnd) == []
      else
        var re := FindChar(o, ']', rs);
        RowsFrom(o, i, outerEnd) == [Uints(o[rs + 1..re])] + RowsFrom(o, re + 1, outerEnd)
  {
  }

  method GetUint2D(o: string, key: string) returns (rows: seq<seq<nat>>)
    ensures rows == Uint2D(o, key)
  {
    hide Uints, RowsFrom, FindStr, FindChar, RFindChar, Quoted;
    rows := [];
    var p := FindStr(o, Quoted(key), 0);
    if p == NPOS { return; }
    var b := FindChar(o, '[', p);
    if b == NPOS { return; }
    var outerEnd := RFindChar(o, ']', |o|);
    if outerEnd == NPOS { return; }
    var i := b + 1;
    ghost var all := RowsFrom(o, i, outerEnd);
    assert [] + all == all;
    while i < outerEnd
      invariant 0 <= i && rows + RowsFrom(o, i, outerEnd) == all
      decreases outerEnd - i
    {
      NextRow(o, i, outerEnd);
      var rs := FindChar(o, '[', i);
      if rs == NPOS || rs >= outerEnd { break; }
      var re := FindChar(o, ']', rs);
      if re == NPOS { break; }
      var row := ScanUints(o, rs + 1, re);
      assert rows + ([row] + RowsFrom(o, re + 1, outerEnd)) == rows + [row] + RowsFrom(o, re + 1, outerEnd);
      rows := rows + [row];
      i := re + 1;
    }
    NextRow(o, i, outerEnd);
    assert rows + [] == rows;
  }

  lemma {:induction false} RFoundIsThere(o: string, c: char, upto: nat)
    requires c !in o && upto <= |o|
    ensures RFindChar(o, c, upto) == NPOS
  {
    if upto > 0 { RFoundIsThere(o, c, upto - 1); }
  }

  lemma FoundIsThere(o: string, c: char, from: nat)
    requires c !in o
    ensures FindChar(o, c, from) == NPOS && RFindChar(o, c, |o|) == NPOS
  {
    hide RFindChar;
    RFoundIsThere(o, c, |o|);
  }

  /** Without an opening or without a closing bracket no list is read. */
  lemma NoBracketIsEmpty(o: string, key: string)
    requires '[' !in o || ']' !in o
    ensures UintArray(o, key) == [] && Uint2D(o, key) == []
  {
    hide FindStr, FindChar, RFindChar, RowsFrom, Uints;
    var p := FindStr(o, Quoted(key), 0);
    if p != NPOS {
      if '[' !in o { FoundIsThere(o, '[', p); }
      var b := FindChar(o, '[', p);
      if b != NPOS && ']' !in o { FoundIsThere(o, ']', b); }
    }
  }

  /** A key that does not occur has the empty value, whatever is asked for. */
  lemma MissingKeyIsEmpty(o: string, key: string)
    requires forall i: nat :: !OccursAt(o, Quoted(key), i)
    ensures GetStr(o, key) == "" && UintArray(o, key) == [] && Uint2D(o, key) == []
  {
    hide OccursAt, Quoted, FindChar, RFindChar;
    var r := FindStr(o, Quoted(key), 0);
    assert r == NPOS;
  }
}
