/** The loader undoes the printer: what is searched for is found where it was printed,
    every printed object is split off whole, and so every file of printed batches is
    delivered as those batches, in order. */
module V11RoundTrip {
  import opened V11Splitter
  import opened V11Stream
  import opened V11Printer
  import F = V11Fields

  // ---------- Finding a key ----------

  /** No quote of `s` is followed by `c`, not even by what comes after `s`. */
  ghost predicate Safe(s: string, c: char) {
    forall i :: 0 <= i < |s| && s[i] == '\"' ==> i + 1 < |s| && s[i + 1] != c
  }

  lemma SafeConcat(a: string, b: string, c: char)
    requires Safe(a, c) && Safe(b, c)
    ensures Safe(a + b, c)
  {
    forall i | 0 <= i < |a + b| && (a + b)[i] == '\"' ensures i + 1 < |a + b| && (a + b)[i + 1] != c {
      if i < |a| { assert a[i] == '\"'; } else { assert b[i - |a|] == '\"'; }
    }
  }

  lemma SafeUnquoted(s: string, c: char)
    requires '\"' !in s
    ensures Safe(s, c)
  {
    forall i | 0 <= i < |s| ensures s[i] != '\"' { assert s[i] in s; }
  }

  lemma NotIn(s: string, c: char)
    requires c !in s
    ensures forall i :: 0 <= i < |s| ==> s[i] != c
  {
    forall i | 0 <= i < |s| ensures s[i] != c { assert s[i] in s; }
  }

  /** A quoted word and the text up to the next quote. */
  lemma SafeWord(s: string, t: string, c: char)
    requires s != "" && s[0] != c && '\"' !in s && t != "" && t[0] != c && '\"' !in t
    ensures Safe(F.Quoted(s) + t, c)
  {
    NotIn(s, '\"');
    NotIn(t, '\"');
  }

  lemma OccursStart(o: string, k: string, j: nat)
    requires F.OccursAt(o, k, j) && |k| >= 2
    ensures j + 1 < |o| && o[j] == k[0] && o[j + 1] == k[1]
  {
    assert o[j..j + |k|][0] == o[j] && o[j..j + |k|][1] == o[j + 1];
  }

  /** The first occurrence of the quoted key is where it was printed. */
  lemma FindKey(o: string, pre: string, key: string, rest: string)
    requires o == pre + (F.Quoted(key) + rest) && key != "" && Safe(pre, key[0])
    ensures F.FindStr(o, F.Quoted(key), 0) == |pre|
  {
    var k := F.Quoted(key);
    assert o[|pre|..|pre| + |k|] == k;
    forall j | 0 <= j < |pre| ensures !F.OccursAt(o, k, j) {
      if F.OccursAt(o, k, j) { OccursStart(o, k, j); }
    }
    F.FindStrAt(o, k, 0, |pre|);
  }

  /** From the cursor after `a`, the next `c` comes after `b`; the cursor moves there. */
  lemma FindNext(o: string, a: string, b: string, c: char, d: string)
    requires o == a + (b + ([c] + d)) && c !in b
    ensures F.FindChar(o, c, |a|) == |a + b|
    ensures o == (a + b) + ([c] + d)
  {
    NotIn(b, c);
    F.FindCharAt(o, c, |a|, |a + b|);
  }

  lemma Assoc(a: string, b: string, c: string)
    ensures a + (b + c) == (a + b) + c
  {
  }

  /** Blank text, and text that a quoted key allows, holds none of the characters searched for. */
  lemma BlankHasNone(s: string, c: char)
    requires Blank(s) && c != ' ' && c != '\t' && c != '\r' && c != '\n'
    ensures c !in s
  {
  }

  lemma KeyHasNone(key: string, b: string, c: char)
    requires c !in key && c != '\"' && Blank(b) && c != ' ' && c != '\t' && c != '\r' && c != '\n'
    ensures c !in F.Quoted(key) + b
  {
  }

  /** The four searches of `GetStr`, put together. */
  lemma GetStrIs(o: string, key: string, p: nat, p1: nat, p2: nat, e: nat)
    requires F.FindStr(o, F.Quoted(key), 0) == p && F.FindChar(o, ':', p) == p1
    requires F.FindChar(o, '\"', p1) == p2 && F.FindChar(o, '\"', p2 + 1) == e
    ensures p2 + 1 <= e < |o| && F.GetStr(o, key) == o[p2 + 1..e]
  {
    hide F.FindStr, F.Quoted;
  }

  lemma GetStrOf(o: string, pre: string, key: string, g: Gap, val: string, rest: string)
    requires o == pre + (F.Quoted(key) + AfterKey(g, "\"" + (val + ("\"" + rest))))
    requires key != "" && Safe(pre, key[0]) && ':' !in key && g.Valid() && '\"' !in val
    ensures F.GetStr(o, key) == val
  {
    hide F.FindChar, F.FindStr, F.Quoted, Safe, Blank;
    var k, quoted := F.Quoted(key), "\"" + (val + ("\"" + rest));
    FindKey(o, pre, key, AfterKey(g, quoted));
    KeyHasNone(key, g.b, ':');
    BlankHasNone(g.c, '\"');
    Assoc(k, g.b, ":" + (g.c + quoted));
    FindNext(o, pre, k + g.b, ':', g.c + quoted);
    var a := pre + (k + g.b);
    Assoc(":", g.c, quoted);
    FindNext(o, a, ":" + g.c, '\"', val + ("\"" + rest));
    var b := a + (":" + g.c);
    Assoc(b, "\"", val + ("\"" + rest));
    FindNext(o, b + "\"", val, '\"', rest);
    var start, end := |b| + 1, |b| + 1 + |val|;
    assert o[start..end] == val;
    GetStrIs(o, key, |pre|, |a|, |b|, end);
  }

  /** The opening bracket of the value of `key`. */
  lemma BracketOf(o: string, pre: string, key: string, g: Gap, rest: string) returns (a: string)
    requires o == pre + (F.Quoted(key) + AfterKey(g, "[" + rest))
    requires key != "" && Safe(pre, key[0]) && '[' !in key && g.Valid()
    ensures F.FindStr(o, F.Quoted(key), 0) == |pre| && F.FindChar(o, '[', |pre|) == |a|
    ensures o == a + ("[" + rest) && a == pre + (F.Quoted(key) + AfterKey(g, ""))
  {
    hide F.FindChar, F.FindStr, F.Quoted, Safe;
    var k := F.Quoted(key);
    FindKey(o, pre, key, AfterKey(g, "[" + rest));
    var head := k + AfterKey(g, "");
    assert k + AfterKey(g, "[" + rest) == head + ("[" + rest);
    KeyHasNone(key, g.b + g.c, '[');
    assert '[' !in head;
    FindNext(o, pre, head, '[', rest);
    a := pre + head;
  }

  /** The array loop reads the text between the brackets. */
  lemma UintArrayOf(o: string, pre: string, key: string, g: Gap, inner: string, rest: string)
    requires o == pre + (F.Quoted(key) + AfterKey(g, "[" + (inner + ("]" + rest))))
    requires key != "" && Safe(pre, key[0]) && '[' !in key && g.Valid() && ']' !in inner
    ensures F.UintArray(o, key) == F.Uints(inner)
  {
    hide F.FindChar, F.FindStr, F.Uints, F.Quoted, Safe, Blank;
    var a := BracketOf(o, pre, key, g, inner + ("]" + rest));
    Assoc("[", inner, "]" + rest);
    FindNext(o, a, "[" + inner, ']', rest);
    assert o[|a| + 1..|a + ("[" + inner)|] == inner;
  }

  lemma Uint2DOf(o: string, pre: string, key: string, g: Gap, inner: string, rest: string)
    requires o == pre + (F.Quoted(key) + AfterKey(g, "[" + (inner + ("]" + rest))))
    requires key != "" && Safe(pre, key[0]) && '[' !in key && g.Valid() && ']' !in rest
    ensures var a := pre + (F.Quoted(key) + AfterKey(g, "")) + "[";
      o == a + (inner + ("]" + rest)) && F.Uint2D(o, key) == F.RowsFrom(o, |a|, |a + inner|)
  {
    hide F.FindChar, F.FindStr, F.RFindChar, F.RowsFrom, F.Quoted, Safe, Blank, AfterKey;
    var a := BracketOf(o, pre, key, g, inner + ("]" + rest));
    Assoc(a, "[", inner + ("]" + rest));
    Assoc(a + "[", inner, "]" + rest);
    var end := |a + "[" + inner|;
    NotIn(rest, ']');
    forall j | end < j < |o| ensures o[j] != ']' { assert o[j] == rest[j - end - 1]; }
    F.RFindCharAt(o, ']', |o|, end);
  }

  // ---------- Rows ----------

  lemma NumericNoBrackets(s: string)
    requires Numeric(s)
    ensures '[' !in s && ']' !in s && '\"' !in s
  {
    forall c | c in s ensures c != '[' && c != ']' && c != '\"' {
      assert Blank([c]) ==> [c][0] in [c];
    }
  }

  lemma ArrayInner(ids: seq<nat>, sp: Spacing)
    requires |ids| == |sp.pads| && sp.Valid() && Small(ids)
    ensures var inner := sp.inner + Numbers(ids, sp.pads);
      Array(ids, sp) == "[" + inner + "]" && Numeric(inner) && F.Uints(inner) == ids
  {
    BlankNumeric(sp.inner);
    NumbersNumeric(ids, sp.pads);
    ReadArray(ids, sp);
  }

  lemma Reassociate(lead: string, pre: string, inner: string, post: string, more: string, t: string)
    ensures lead + (pre + ("[" + inner + "]") + post + more + t)
      == (lead + pre) + ("[" + (inner + ("]" + (post + (more + t)))))
  {
    Assoc(pre + ("[" + inner + "]") + post, more, t);
    Assoc(pre + ("[" + inner + "]"), post, more + t);
    Assoc(pre, "[" + inner + "]", post + (more + t));
    Assoc("[" + inner, "]", post + (more + t));
    Assoc("[", inner, "]" + (post + (more + t)));
    Assoc(lead, pre, "[" + (inner + ("]" + (post + (more + t)))));
  }

  lemma RowsTextSplit(lead: string, rows: seq<seq<nat>>, sps: seq<RowSpacing>, rest: string)
    requires RowsFit(rows, sps) && rows != []
    ensures var sp := sps[0];
      var inner := sp.row.inner + Numbers(rows[0], sp.row.pads);
      var more := if |rows| == 1 then "" else "," + RowsText(rows[1..], sps[1..]);
      && lead + (RowsText(rows, sps) + ("]" + rest))
        == (lead + sp.around.pre) + ("[" + (inner + ("]" + (sp.around.post + (more + ("]" + rest))))))
      && |RowsText(rows, sps)| == |sp.around.pre| + 2 + |inner| + |sp.around.post| + |more|
  {
    hide Numbers;
    var sp := sps[0];
    var inner := sp.row.inner + Numbers(rows[0], sp.row.pads);
    var more := if |rows| == 1 then "" else "," + RowsText(rows[1..], sps[1..]);
    Reassociate(lead, sp.around.pre, inner, sp.around.post, more, "]" + rest);
  }

  lemma NoMoreRows(o: string, a: string, lead: string, rest: string)
    requires '[' !in lead && o == a + (lead + ("" + rest))
    ensures F.RowsFrom(o, |a|, |a| + |lead|) == []
  {
    NotIn(lead, '[');
    var r := F.FindChar(o, '[', |a|);
    assert forall j :: |a| <= j < |a| + |lead| ==> o[j] == lead[j - |a|];
  }

  lemma OneRow(o: string, a: string, skip: string, inner: string, tail: string, end: nat)
    requires o == a + (skip + ("[" + (inner + ("]" + tail))))
    requires '[' !in skip && ']' !in inner && |a| + |skip| + |inner| + 2 <= end
    ensures var a' := a + skip + "[" + inner + "]";
      o == a' + tail && F.RowsFrom(o, |a|, end) == [F.Uints(inner)] + F.RowsFrom(o, |a'|, end)
  {
    hide F.RowsFrom, F.FindChar, F.Uints;
    F.NextRow(o, |a|, end);
    FindNext(o, a, skip, '[', inner + ("]" + tail));
    var b := a + skip;
    Assoc("[", inner, "]" + tail);
    FindNext(o, b, "[" + inner, ']', tail);
    assert o[|b| + 1..|b + ("[" + inner)|] == inner;
  }

  /** The row loop, started before text without brackets and the printed rows. */
  lemma {:induction false} ReadRows(o: string, a: string, lead: string, rows: seq<seq<nat>>, sps: seq<RowSpacing>,
      rest: string)
    requires RowsFit(rows, sps) && '[' !in lead
    requires o == a + (lead + (RowsText(rows, sps) + ("]" + rest)))
    ensures F.RowsFrom(o, |a|, |a| + |lead| + |RowsText(rows, sps)|) == rows
    decreases |rows|
  {
    hide F.RowsFrom, F.FindChar, F.Uints, Array, Numbers;
    if rows == [] {
      NoMoreRows(o, a, lead, "]" + rest);
      assert RowsText(rows, sps) == "";
    } else {
      var sp := sps[0];
      var inner := sp.row.inner + Numbers(rows[0], sp.row.pads);
      var more := if |rows| == 1 then "" else "," + RowsText(rows[1..], sps[1..]);
      var end := |a| + |lead| + |RowsText(rows, sps)|;
      ArrayInner(rows[0], sp.row);
      NumericNoBrackets(inner);
      var skip := lead + sp.around.pre;
      var tail := sp.around.post + (more + ("]" + rest));
      RowsTextSplit(lead, rows, sps, rest);
      BlankHasNone(sp.around.pre, '[');
      BlankHasNone(sp.around.post, '[');
      OneRow(o, a, skip, inner, tail, end);
      var a' := a + skip + "[" + inner + "]";
      var sep := if |rows| == 1 then sp.around.post else sp.around.post + ",";
      assert RowsText([], []) == "";
      assert rows[1..] == [] || |rows| > 1;
      assert tail == sep + (RowsText(rows[1..], sps[1..]) + ("]" + rest));
      assert end == |a'| + |sep| + |RowsText(rows[1..], sps[1..])|;
      ReadRows(o, a', sep, rows[1..], sps[1..], rest);
      assert rows == [rows[0]] + rows[1..];
    }
  }

  // ---------- The members of one object ----------

  lemma FieldTail(name: string, g: Gap, value: string, r: string, t: string)
    ensures Field(name, g, value, r + t) == Field(name, g, value, r) + t
  {
    var k := F.Quoted(name);
    Assoc(g.d, r, t);
    Assoc(value, g.d + r, t);
    Assoc(g.c, value + (g.d + r), t);
    Assoc(":", g.c + (value + (g.d + r)), t);
    Assoc(g.b, ":" + (g.c + (value + (g.d + r))), t);
    Assoc(k, AfterKey(g, value + (g.d + r)), t);
    Assoc(g.a, k + AfterKey(g, value + (g.d + r)), t);
  }

  /** Characters that neither whitespace nor punctuation nor a digit can be. */
  predicate Letter(c: char) {
    'a' <= c <= 'z'
  }

  lemma SafeField(name: string, g: Gap, value: string, c: char)
    requires g.Valid() && name != "" && name[0] != c && '\"' !in name && '\"' !in value && Letter(c)
    ensures Safe(Field(name, g, value, ","), c)
  {
    BlankHasNone(g.a, '\"');
    BlankHasNone(g.b, '\"');
    BlankHasNone(g.c, '\"');
    BlankHasNone(g.d, '\"');
    BlankHasNone(g.b, c);
    var t := AfterKey(g, value + (g.d + ","));
    assert t[0] != c by { if g.b != "" { assert t[0] == g.b[0] && g.b[0] in g.b; } }
    SafeWord(name, t, c);
    SafeUnquoted(g.a, c);
    SafeConcat(g.a, F.Quoted(name) + t, c);
  }

  lemma SafeWordField(name: string, g: Gap, word: string, c: char)
    requires g.Valid() && name != "" && name[0] != c && '\"' !in name && Letter(c)
    requires word != "" && word[0] != c && '\"' !in word
    ensures Safe(Field(name, g, F.Quoted(word), ","), c)
  {
    BlankHasNone(g.a, '\"');
    BlankHasNone(g.b, '\"');
    BlankHasNone(g.c, '\"');
    BlankHasNone(g.d, '\"');
    BlankHasNone(g.b, c);
    BlankHasNone(g.d, c);
    var t, u := AfterKey(g, ""), g.d + ",";
    assert t[0] != c by { if g.b != "" { assert t[0] == g.b[0] && g.b[0] in g.b; } }
    assert u[0] != c by { if g.d != "" { assert u[0] == g.d[0] && g.d[0] in g.d; } }
    SafeWord(name, t, c);
    SafeWord(word, u, c);
    SafeUnquoted(g.a, c);
    SafeConcat(F.Quoted(name) + t, F.Quoted(word) + u, c);
    SafeConcat(g.a, F.Quoted(name) + t + (F.Quoted(word) + u), c);
    var k, w := F.Quoted(name), F.Quoted(word);
    hide F.Quoted, Safe, Blank;
    assert k + AfterKey(g, w + u) == k + t + (w + u);
  }

  lemma DigitsNumeric(n: nat)
    ensures '\"' !in Digits(n)
  {
    DigitsOnly(n);
  }

  lemma SafeHead(b: Batch, l: Layout, c: char)
    requires Fits(b, l) && Letter(c) && c != 'o' && c != OpName(b)[0] && c != 's'
    ensures Safe(l.lead + "{" + Field("op_type", l.op, F.Quoted(OpName(b)), ",") + Field("step", l.step, Digits(l.stepNo), ","), c)
  {
    hide Field, Safe, Digits;
    BlankHasNone(l.lead, '\"');
    SafeUnquoted(l.lead + "{", c);
    SafeWordField("op_type", l.op, OpName(b), c);
    DigitsNumeric(l.stepNo);
    SafeField("step", l.step, Digits(l.stepNo), c);
    var f1 := Field("op_type", l.op, F.Quoted(OpName(b)), ",");
    SafeConcat(l.lead + "{", f1, c);
    SafeConcat(l.lead + "{" + f1, Field("step", l.step, Digits(l.stepNo), ","), c);
  }

  /** The cursor before the third member: everything before it is safe for its key. */
  lemma BeforeIds(b: Batch, l: Layout, end: string) returns (pre: string)
    requires Fits(b, l)
    ensures l.lead + "{" + Members(b, l, end)
      == pre + Field(IdsKey(b), l.ids, Array(Ids(b), l.idSpacing), "," + Field(LastKey(b), l.last, LastValue(b, l), end))
    ensures Safe(pre, IdsKey(b)[0]) && (b.Search? ==> Safe(pre, 'g'))
  {
    hide Field, Safe, Digits, Array, RowsText;
    var f1 := Field("op_type", l.op, F.Quoted(OpName(b)), ",");
    var f2 := Field("step", l.step, Digits(l.stepNo), ",");
    var rest := Field(IdsKey(b), l.ids, Array(Ids(b), l.idSpacing), "," + Field(LastKey(b), l.last, LastValue(b, l), end));
    FieldTail("step", l.step, Digits(l.stepNo), ",", rest);
    FieldTail("op_type", l.op, F.Quoted(OpName(b)), ",", f2 + rest);
    pre := l.lead + "{" + f1 + f2;
    Assoc(l.lead + "{", f1, f2 + rest);
    Assoc(l.lead + "{" + f1, f2, rest);
    DigitsNumeric(l.stepNo);
    SafeHead(b, l, IdsKey(b)[0]);
    if b.Search? { SafeHead(b, l, 'g'); }
  }

  /** From the cursor before a member to the cursor before its key. */
  lemma AtKey(a: string, name: string, g: Gap, value: string, rest: string)
    ensures a + Field(name, g, value, rest) == (a + g.a) + (F.Quoted(name) + AfterKey(g, value + (g.d + rest)))
  {
    hide F.Quoted, AfterKey;
    Assoc(a, g.a, F.Quoted(name) + AfterKey(g, value + (g.d + rest)));
  }

  lemma SafeBlank(pre: string, w: string, c: char)
    requires Safe(pre, c) && Blank(w)
    ensures Safe(pre + w, c)
  {
    BlankHasNone(w, '\"');
    SafeUnquoted(w, c);
    SafeConcat(pre, w, c);
  }

  lemma QuotedThen(s: string, t: string)
    ensures F.Quoted(s) + t == "\"" + (s + ("\"" + t))
  {
    Assoc("\"" + s, "\"", t);
    Assoc("\"", s, "\"" + t);
  }

  lemma ReadOp(b: Batch, l: Layout)
    requires Fits(b, l)
    ensures F.GetStr(Print(b, l), "op_type") == OpName(b)
  {
    hide Digits, Array, RowsText, F.GetStr;
    var g, name := l.op, OpName(b);
    var rest := "," + Field("step", l.step, Digits(l.stepNo), "," + Field(IdsKey(b), l.ids, Array(Ids(b), l.idSpacing), ","
      + Field(LastKey(b), l.last, LastValue(b, l), "}")));
    hide Field;
    assert Print(b, l) == l.lead + "{" + Field("op_type", g, F.Quoted(name), rest);
    AtKey(l.lead + "{", "op_type", g, F.Quoted(name), rest);
    BlankHasNone(l.lead, '\"');
    SafeUnquoted(l.lead + "{", 'o');
    SafeBlank(l.lead + "{", g.a, 'o');
    QuotedThen(name, g.d + rest);
    GetStrOf(Print(b, l), l.lead + "{" + g.a, "op_type", g, name, g.d + rest);
  }

  lemma BracketsThen(inner: string, t: string)
    ensures "[" + inner + "]" + t == "[" + (inner + ("]" + t))
  {
    Assoc("[" + inner, "]", t);
    Assoc("[", inner, "]" + t);
  }

  lemma ReadIds(b: Batch, l: Layout)
    requires Fits(b, l)
    ensures F.UintArray(Print(b, l), IdsKey(b)) == Ids(b)
  {
    hide F.UintArray, F.Uints, Field, Safe, Numbers;
    var pre := BeforeIds(b, l, "}");
    var g, key, rest := l.ids, IdsKey(b), "," + Field(LastKey(b), l.last, LastValue(b, l), "}");
    var inner := l.idSpacing.inner + Numbers(Ids(b), l.idSpacing.pads);
    ArrayInner(Ids(b), l.idSpacing);
    NumericNoBrackets(inner);
    AtKey(pre, key, g, Array(Ids(b), l.idSpacing), rest);
    SafeBlank(pre, g.a, key[0]);
    BracketsThen(inner, g.d + rest);
    UintArrayOf(Print(b, l), pre + g.a, key, g, inner, g.d + rest);
  }

  lemma ArrayUnquoted(ids: seq<nat>, sp: Spacing)
    requires |ids| == |sp.pads| && sp.Valid() && Small(ids)
    ensures '\"' !in Array(ids, sp)
  {
    ArrayInner(ids, sp);
    NumericNoBrackets(sp.inner + Numbers(ids, sp.pads));
  }

  lemma ReadGroundTruth(b: Batch, l: Layout)
    requires Fits(b, l) && b.Search?
    ensures F.Uint2D(Print(b, l), "groundtruth") == b.gt
  {
    hide F.Uint2D, F.RowsFrom, Field, Safe, RowsText, Array;
    var pre := BeforeIds(b, l, "}");
    var g := l.last;
    var inner := l.outer + RowsText(b.gt, l.rows);
    var ids := Array(Ids(b), l.idSpacing);
    var last := Field("groundtruth", g, "[" + inner + "]", "}");
    FieldTail("point_id", l.ids, ids, ",", last);
    Assoc(pre, Field("point_id", l.ids, ids, ","), last);
    ArrayUnquoted(Ids(b), l.idSpacing);
    SafeField("point_id", l.ids, ids, 'g');
    SafeConcat(pre, Field("point_id", l.ids, ids, ","), 'g');
    var cur := pre + Field("point_id", l.ids, ids, ",");
    AtKey(cur, "groundtruth", g, "[" + inner + "]", "}");
    SafeBlank(cur, g.a, 'g');
    BracketsThen(inner, g.d + "}");
    BlankHasNone(g.d, ']');
    Uint2DOf(Print(b, l), cur + g.a, "groundtruth", g, inner, g.d + "}");
    var a := cur + g.a + (F.Quoted("groundtruth") + AfterKey(g, "")) + "[";
    Assoc(l.outer, RowsText(b.gt, l.rows), "]" + (g.d + "}"));
    BlankHasNone(l.outer, '[');
    ReadRows(Print(b, l), a, l.outer, b.gt, l.rows, g.d + "}");
  }

  /** The extractors read a printed object back. */
  lemma ReadBack(b: Batch, l: Layout)
    requires Fits(b, l)
    ensures Interpret(Print(b, l)) == [b]
  {
    hide F.GetStr, F.UintArray, F.Uint2D, Print, Fits;
    ReadOp(b, l);
    ReadIds(b, l);
    if b.Search? { ReadGroundTruth(b, l); }
  }

  /** An object with any other operation stands for no batch. */
  lemma OtherOperationIsSkipped(o: string, pre: string, g: Gap, op: string, rest: string)
    requires o == pre + (F.Quoted("op_type") + AfterKey(g, "\"" + (op + ("\"" + rest))))
    requires Safe(pre, 'o') && g.Valid() && '\"' !in op && op != "insert" && op != "delete" && op != "search"
    ensures Interpret(o) == []
  {
    hide F.GetStr, F.UintArray, F.Uint2D, AfterKey, F.Quoted;
    GetStrOf(o, pre, "op_type", g, op, rest);
  }

  // ---------- Splitting ----------

  /** Inside an object, reading `s` leaves the depth as it was. */
  ghost predicate Quiet(s: string) {
    forall st :: Structural(st) && st.depth >= 1 ==> Reads(st, s, st.depth, false)
  }

  lemma QuietConcat(a: string, b: string)
    requires Quiet(a) && Quiet(b)
    ensures Quiet(a + b)
  {
    hide Reads;
    forall st | Structural(st) && st.depth >= 1 ensures Reads(st, a + b, st.depth, false) {
      ReadsThen(st, a, st.depth, false, b, st.depth, false);
    }
  }

  lemma QuietPlain(s: string)
    requires forall c :: c in s ==> IsPlain(c)
    ensures Quiet(s)
  {
    hide Reads;
    forall st | Structural(st) && st.depth >= 1 ensures Reads(st, s, st.depth, false) {
      ReadsPlain(st, s);
    }
  }

  lemma {:induction false} AsUnits(w: string) returns (units: seq<Unit>)
    requires forall c :: c in w ==> IsPlain(c)
    ensures ShowUnits(units) == w && forall u :: u in units ==> u.Valid()
  {
    if w == "" {
      units := [];
    } else {
      var k := |w| - 1;
      units := AsUnits(w[..k]);
      assert w[k] in w && w[..k] + [w[k]] == w;
      assert (units + [Char(w[k])])[..|units|] == units;
      units := units + [Char(w[k])];
    }
  }

  lemma QuietQuoted(w: string)
    requires forall c :: c in w ==> IsPlain(c)
    ensures Quiet(F.Quoted(w))
  {
    hide Reads;
    var units := AsUnits(w);
    forall st | Structural(st) && st.depth >= 1 ensures Reads(st, F.Quoted(w), st.depth, false) {
      ReadsLiteral(st, units);
    }
  }

  lemma QuietField(name: string, g: Gap, value: string, rest: string)
    requires g.Valid() && Quiet(value) && Quiet(rest) && forall c :: c in name ==> IsPlain(c)
    ensures Quiet(Field(name, g, value, rest))
  {
    hide Quiet, F.Quoted;
    QuietPlain(g.a);
    QuietPlain(g.b);
    QuietPlain(":");
    QuietPlain(g.c);
    QuietPlain(g.d);
    QuietQuoted(name);
    QuietConcat(g.d, rest);
    QuietConcat(value, g.d + rest);
    QuietConcat(g.c, value + (g.d + rest));
    QuietConcat(":", g.c + (value + (g.d + rest)));
    QuietConcat(g.b, ":" + (g.c + (value + (g.d + rest))));
    QuietConcat(F.Quoted(name), AfterKey(g, value + (g.d + rest)));
    QuietConcat(g.a, F.Quoted(name) + AfterKey(g, value + (g.d + rest)));
  }

  lemma QuietDigits(n: nat)
    ensures Quiet(Digits(n))
  {
    DigitsOnly(n);
    QuietPlain(Digits(n));
  }

  lemma NumericPlain(s: string)
    requires Numeric(s)
    ensures forall c :: c in s ==> IsPlain(c)
  {
    forall c | c in s ensures IsPlain(c) {
      assert Blank([c]) ==> [c][0] in [c];
    }
  }

  lemma QuietArray(ids: seq<nat>, sp: Spacing)
    requires |ids| == |sp.pads| && sp.Valid() && Small(ids)
    ensures Quiet(Array(ids, sp))
  {
    hide Quiet;
    ArrayInner(ids, sp);
    NumericPlain(sp.inner + Numbers(ids, sp.pads));
    QuietPlain(Array(ids, sp));
  }

  lemma {:induction false} QuietRows(rows: seq<seq<nat>>, sps: seq<RowSpacing>)
    requires RowsFit(rows, sps)
    ensures Quiet(RowsText(rows, sps))
    decreases |rows|
  {
    hide Quiet, Array;
    if rows == [] {
      QuietPlain("");
    } else {
      var sp := sps[0];
      var more := if |rows| == 1 then "" else "," + RowsText(rows[1..], sps[1..]);
      QuietPlain(sp.around.pre);
      QuietPlain(sp.around.post);
      QuietArray(rows[0], sp.row);
      QuietPlain("");
      QuietPlain(",");
      if |rows| > 1 {
        QuietRows(rows[1..], sps[1..]);
        QuietConcat(",", RowsText(rows[1..], sps[1..]));
      }
      QuietConcat(sp.around.pre, Array(rows[0], sp.row));
      QuietConcat(sp.around.pre + Array(rows[0], sp.row), sp.around.post);
      QuietConcat(sp.around.pre + Array(rows[0], sp.row) + sp.around.post, more);
    }
  }

  lemma QuietLast(b: Batch, l: Layout)
    requires Fits(b, l)
    ensures Quiet(LastValue(b, l))
  {
    hide Quiet;
    if b.Search? {
      QuietRows(b.gt, l.rows);
      QuietPlain("[");
      QuietPlain("]");
      QuietPlain(l.outer);
      QuietConcat(l.outer, RowsText(b.gt, l.rows));
      QuietConcat("[", l.outer + RowsText(b.gt, l.rows));
      QuietConcat("[" + (l.outer + RowsText(b.gt, l.rows)), "]");
    } else {
      QuietDigits(l.count);
    }
  }

  lemma QuietBody(lead: string, body: string)
    requires Quiet(body) && Blank(lead)
    ensures Complete(lead + "{" + body + "}")
  {
    hide Reads;
    var st := START.(buf := lead + "{", depth := 1);
    assert Structural(st) && Reads(st, body, st.depth, false);
    BodyIsComplete(lead, body);
  }

  /** Every printed object is split off exactly as it was printed. */
  lemma PrintIsComplete(b: Batch, l: Layout)
    requires Fits(b, l)
    ensures Complete(Print(b, l))
  {
    hide Quiet, Field, LastValue, Digits, Array;
    QuietLast(b, l);
    QuietPlain("");
    QuietPlain(",");
    var f4 := Field(LastKey(b), l.last, LastValue(b, l), "");
    QuietField(LastKey(b), l.last, LastValue(b, l), "");
    QuietConcat(",", f4);
    QuietArray(Ids(b), l.idSpacing);
    var f3 := Field(IdsKey(b), l.ids, Array(Ids(b), l.idSpacing), "," + f4);
    QuietField(IdsKey(b), l.ids, Array(Ids(b), l.idSpacing), "," + f4);
    QuietConcat(",", f3);
    QuietDigits(l.stepNo);
    var f2 := Field("step", l.step, Digits(l.stepNo), "," + f3);
    QuietField("step", l.step, Digits(l.stepNo), "," + f3);
    QuietConcat(",", f2);
    QuietQuoted(OpName(b));
    QuietField("op_type", l.op, F.Quoted(OpName(b)), "," + f2);
    FieldTail(LastKey(b), l.last, LastValue(b, l), "", "}");
    Assoc(",", f4, "}");
    FieldTail(IdsKey(b), l.ids, Array(Ids(b), l.idSpacing), "," + f4, "}");
    Assoc(",", f3, "}");
    FieldTail("step", l.step, Digits(l.stepNo), "," + f3, "}");
    Assoc(",", f2, "}");
    FieldTail("op_type", l.op, F.Quoted(OpName(b)), "," + f2, "}");
    QuietBody(l.lead, Members(b, l, ""));
    assert "" + "}" == "}";
    Assoc(l.lead + "{", Members(b, l, ""), "}");
  }

  // ---------- Whole files ----------

  ghost predicate AllFit(bs: seq<Batch>, ls: seq<Layout>) {
    |bs| == |ls| && forall i :: 0 <= i < |bs| ==> Fits(bs[i], ls[i])
  }

  ghost function PrintAll(bs: seq<Batch>, ls: seq<Layout>): (texts: seq<string>)
    requires AllFit(bs, ls)
    ensures |texts| == |bs|
  {
    seq(|bs|, i requires 0 <= i < |bs| => Print(bs[i], ls[i]))
  }

  lemma {:induction false} InterpretPrinted(bs: seq<Batch>, ls: seq<Layout>, k: nat)
    requires AllFit(bs, ls) && k <= |bs|
    ensures InterpretAll(PrintAll(bs, ls)[..k]) == bs[..k]
  {
    hide Interpret, Fits, Print;
    if k > 0 {
      InterpretPrinted(bs, ls, k - 1);
      ReadBack(bs[k - 1], ls[k - 1]);
      assert PrintAll(bs, ls)[..k][..k - 1] == PrintAll(bs, ls)[..k - 1];
      assert bs[..k] == bs[..k - 1] + [bs[k - 1]];
    }
  }

  lemma BlankIsOpen(s: string)
    requires Blank(s)
    ensures Open(s)
  {
    ReadsPlain(START, s);
  }

  /** The loader undoes the printer. However a list of batches is laid out, and however
      the file is cut into blocks, `stream_batched` reports exactly those batches in
      order, and `stream` exactly their items. */
  lemma LoaderUndoesPrinter(bs: seq<Batch>, ls: seq<Layout>, trailing: string, chunks: seq<string>)
    requires AllFit(bs, ls) && Blank(trailing)
    requires Flatten(chunks) == Flatten(PrintAll(bs, ls)) + trailing
    ensures InterpretAll(Run(START, Flatten(chunks)).handled) == bs
    ensures ExpandAll(InterpretAll(Run(START, Flatten(chunks)).handled)) == ExpandAll(bs)
    ensures forall calls: seq<Item> :: Delivers(calls, InterpretAll(Run(START, Flatten(chunks)).handled)) ==>
      Delivers(calls, bs)
      && Inserted(calls) == InsertIds(bs) && Deleted(calls) == DeleteIds(bs) && Queried(calls) == QueryIds(bs)
  {
    hide Interpret, Fits, Print, Run;
    var objects := PrintAll(bs, ls);
    forall i | 0 <= i < |objects| ensures Complete(objects[i]) {
      PrintIsComplete(bs[i], ls[i]);
    }
    BlankIsOpen(trailing);
    OnlySplit(objects, trailing);
    InterpretPrinted(bs, ls, |bs|);
    assert objects[..|bs|] == objects && bs[..|bs|] == bs;
    forall calls: seq<Item> | Delivers(calls, bs)
      ensures Inserted(calls) == InsertIds(bs) && Deleted(calls) == DeleteIds(bs) && Queried(calls) == QueryIds(bs)
    {
      DeliveredIds(calls, bs);
    }
  }

  // ---------- The documented examples ----------

  const NO_GAP := Gap("", "", "", "")

  const NO_PAD := Pad("", "")

  ghost function PlainLayout(): Layout {
    var one := Spacing("", [NO_PAD]);
    Layout("", NO_GAP, NO_GAP, NO_GAP, NO_GAP, 1, 1, one, "", [RowSpacing(NO_PAD, one)])
  }

  lemma PlainField(name: string, quoted: string, value: string, rest: string)
    requires quoted == F.Quoted(name)
    ensures Field(name, NO_GAP, value, rest) == quoted + (":" + (value + rest))
  {
    assert "" + rest == rest;
    assert "" + (value + rest) == value + rest;
    assert "" + (":" + (value + rest)) == ":" + (value + rest);
  }

  lemma PlainArray(d: nat, rest: string)
    ensures Array([d], Spacing("", [NO_PAD])) + rest == "[" + (Digits(d) + ("]" + rest))
  {
    assert "" + Digits(d) + "" + "" == Digits(d);
    assert "" + Digits(d) == Digits(d);
    Assoc("[" + Digits(d), "]", rest);
    Assoc("[", Digits(d), "]" + rest);
  }

  lemma PrintedOne()
    ensures Digits(1) == "1"
  {
  }

  lemma PlainMembers(insert: bool, d: nat, b: Batch, l: Layout)
    requires d < 0x1_0000_0000 && b == (if insert then Insert([d]) else Delete([d])) && l == PlainLayout()
    ensures Fits(b, l) && Print(b, l) == "{" + Field("op_type", NO_GAP, F.Quoted(OpName(b)), "," +
      Field("step", NO_GAP, "1", "," +
        Field("vector_ids", NO_GAP, Array([d], Spacing("", [NO_PAD])), "," +
          Field("num_vectors", NO_GAP, "1", "}"))))
  {
    hide Field, Array, F.Quoted;
    PrintedOne();
    assert "" + "{" == "{";
  }

  lemma QuotedWords(insert: bool)
    ensures F.Quoted(if insert then "insert" else "delete") == if insert then "\"insert\"" else "\"delete\""
    ensures F.Quoted("op_type") == "\"op_type\"" && F.Quoted("step") == "\"step\""
    ensures F.Quoted("vector_ids") == "\"vector_ids\"" && F.Quoted("num_vectors") == "\"num_vectors\""
  {
  }

  /** An insert or delete in the documented form, token by token, is read as it stands. */
  lemma DocumentedUpdate(insert: bool, d: nat)
    requires d < 0x1_0000_0000
    ensures var op := if insert then "\"insert\"" else "\"delete\"";
      Interpret("{" + ("\"op_type\"" + (":" + (op + ("," + ("\"step\"" + (":" + ("1" + ("," +
        ("\"vector_ids\"" + (":" + ("[" + (Digits(d) + ("]" + ("," +
        ("\"num_vectors\"" + (":" + ("1" + "}"))))))))))))))))))
      == [if insert then Insert([d]) else Delete([d])]
  {
    hide Interpret, Field, Digits, Array, Print, Fits, F.Quoted, PlainLayout;
    var b: Batch, l := if insert then Insert([d]) else Delete([d]), PlainLayout();
    QuotedWords(insert);
    PlainMembers(insert, d, b, l);
    ReadBack(b, l);
    var ids := Array([d], Spacing("", [NO_PAD]));
    var f4 := Field("num_vectors", NO_GAP, "1", "}");
    PlainField("num_vectors", F.Quoted("num_vectors"), "1", "}");
    var f3 := Field("vector_ids", NO_GAP, ids, "," + f4);
    PlainField("vector_ids", F.Quoted("vector_ids"), ids, "," + f4);
    PlainArray(d, "," + f4);
    var f2 := Field("step", NO_GAP, "1", "," + f3);
    PlainField("step", F.Quoted("step"), "1", "," + f3);
    PlainField("op_type", F.Quoted("op_type"), F.Quoted(OpName(b)), "," + f2);
  }

  lemma PlainRow(r: nat, rest: string)
    requires r < 0x1_0000_0000
    ensures RowsFit([[r]], PlainLayout().rows)
    ensures "[" + ("" + RowsText([[r]], PlainLayout().rows)) + "]" + rest == "[" + ("[" + (Digits(r) + ("]" + ("]" + rest))))
  {
    hide Digits, Array;
    var ids := Array([r], Spacing("", [NO_PAD]));
    PlainArray(r, "]" + rest);
    assert "" + ids + "" + "" == ids && "" + ids == ids;
    Assoc("[" + ids, "]", rest);
    Assoc("[", ids, "]" + rest);
  }

  lemma SearchWords()
    ensures F.Quoted("op_type") == "\"op_type\"" && F.Quoted("step") == "\"step\"" && F.Quoted("search") == "\"search\""
    ensures F.Quoted("point_id") == "\"point_id\"" && F.Quoted("groundtruth") == "\"groundtruth\""
  {
  }

  lemma PlainSearchMembers(q: nat, r: nat, b: Batch, l: Layout)
    requires q < 0x1_0000_0000 && r < 0x1_0000_0000 && b == Search([q], [[r]]) && l == PlainLayout()
    ensures Fits(b, l) && Print(b, l) == "{" + Field("op_type", NO_GAP, F.Quoted("search"), "," +
      Field("step", NO_GAP, "1", "," +
        Field("point_id", NO_GAP, Array([q], Spacing("", [NO_PAD])), "," +
          Field("groundtruth", NO_GAP, "[" + ("" + RowsText([[r]], l.rows)) + "]", "}"))))
  {
    hide Field, Array, F.Quoted;
    PrintedOne();
    PlainRow(r, "");
    assert "" + "{" == "{";
  }

  /** A search in the documented form, token by token, is read as it stands. */
  lemma DocumentedSearch(q: nat, r: nat)
    requires q < 0x1_0000_0000 && r < 0x1_0000_0000
    ensures Interpret("{" + ("\"op_type\"" + (":" + ("\"search\"" + ("," + ("\"step\"" + (":" + ("1" + ("," +
        ("\"point_id\"" + (":" + ("[" + (Digits(q) + ("]" + ("," +
        ("\"groundtruth\"" + (":" + ("[" + ("[" + (Digits(r) + ("]" + ("]" + "}"))))))))))))))))))))))
      == [Search([q], [[r]])]
  {
    hide Interpret, Field, Digits, Array, Print, Fits, F.Quoted, RowsText, RowsFit;
    var b: Batch, l := Search([q], [[r]]), PlainLayout();
    SearchWords();
    PlainSearchMembers(q, r, b, l);
    ReadBack(b, l);
    PlainRow(r, "}");
    var ids, rows := Array([q], Spacing("", [NO_PAD])), "[" + ("" + RowsText([[r]], l.rows)) + "]";
    var f4 := Field("groundtruth", NO_GAP, rows, "}");
    PlainField("groundtruth", F.Quoted("groundtruth"), rows, "}");
    var f3 := Field("point_id", NO_GAP, ids, "," + f4);
    PlainField("point_id", F.Quoted("point_id"), ids, "," + f4);
    PlainArray(q, "," + f4);
    var f2 := Field("step", NO_GAP, "1", "," + f3);
    PlainField("step", F.Quoted("step"), "1", "," + f3);
    PlainField("op_type", F.Quoted("op_type"), F.Quoted("search"), "," + f2);
  }
}
