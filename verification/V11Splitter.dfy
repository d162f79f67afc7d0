/** The streaming object splitter of fda/src/v11_loader.hpp. */
module V11Splitter {

  /** The scanner between two characters, with the objects handed over so far. */
  datatype Scan = Scan(buf: string, depth: int, inStr: bool, esc: bool, handled: seq<string>)

  const START := Scan("", 0, false, false, [])

  ghost function Step(st: Scan, c: char): Scan {
    var buf := st.buf + [c];
    if st.esc then st.(buf := buf, esc := false)
    else if c == '\\' then st.(buf := buf, esc := true)
    else if c == '\"' then st.(buf := buf, inStr := !st.inStr)
    else if st.inStr then st.(buf := buf)
    else if c == '{' then st.(buf := buf, depth := st.depth + 1)
    else if c == '}' then
      if st.depth == 1 then st.(buf := "", depth := 0, handled := st.handled + [buf])
      else st.(buf := buf, depth := st.depth - 1)
    else st.(buf := buf)
  }

  ghost function Run(st: Scan, s: string): Scan {
    if s == "" then st else Step(Run(st, s[..|s| - 1]), s[|s| - 1])
  }

  ghost function Flatten(parts: seq<string>): string {
    if parts == [] then "" else Flatten(parts[..|parts| - 1]) + parts[|parts| - 1]
  }

  lemma NothingRead()
    ensures Run(START, "") == START && Flatten([]) == ""
  {
  }

  lemma RunSnoc(st: Scan, s: string, c: char)
    ensures Run(st, s + [c]) == Step(Run(st, s), c)
  {
    assert (s + [c])[..|s|] == s;
  }

  lemma FlattenSnoc(parts: seq<string>, part: string)
    ensures Flatten(parts + [part]) == Flatten(parts) + part
  {
    assert (parts + [part])[..|parts|] == parts;
  }

  /** `chunks` are the blocks `fread` delivers up to the end of the file. */
  method ForEachObject(chunks: seq<string>) returns (handled: seq<string>, buf: string)
    requires forall i :: 0 <= i < |chunks| ==> chunks[i] != ""
    ensures handled == Run(START, Flatten(chunks)).handled && buf == Run(START, Flatten(chunks)).buf
  {
    hide Run, Flatten;
    var depth, inStr, esc := 0, false, false;
    handled, buf := [], "";
    ghost var text := "";
    NothingRead();
    var k := 0;
    while k < |chunks|
      invariant 0 <= k <= |chunks| && text == Flatten(chunks[..k])
      invariant Scan(buf, depth, inStr, esc, handled) == Run(START, text)
    {
      var chunk := chunks[k];
      ghost var before := text;
      assert text == before + chunk[..0];
      for i := 0 to |chunk|
        invariant text == before + chunk[..i]
        invariant Scan(buf, depth, inStr, esc, handled) == Run(START, text)
      {
        var c := chunk[i];
        RunSnoc(START, text, c);
        text := text + [c];
        assert text == before + chunk[..i + 1];
        buf := buf + [c];
        if esc { esc := false; continue; }
        if c == '\\' { esc := true; continue; }
        if c == '\"' { inStr := !inStr; continue; }
        if inStr { continue; }
        if c == '{' {
          depth := depth + 1;
        } else if c == '}' {
          depth := depth - 1;
          if depth == 0 {
            handled := handled + [buf];
            buf := "";
          }
        }
      }
      assert chunk[..|chunk|] == chunk;
      FlattenSnoc(chunks[..k], chunk);
      assert chunks[..k + 1] == chunks[..k] + [chunk];
      k := k + 1;
    }
    assert chunks[..k] == chunks;
  }

  lemma {:induction false} RunConcat(st: Scan, a: string, b: string)
    ensures Run(st, a + b) == Run(Run(st, a), b)
  {
    if b == "" {
      assert a + b == a;
    } else {
      assert (a + b)[..|a + b| - 1] == a + b[..|b| - 1];
      RunConcat(st, a, b[..|b| - 1]);
    }
  }

  lemma StepConserves(st: Scan, c: char)
    ensures Flatten(Step(st, c).handled) + Step(st, c).buf == Flatten(st.handled) + st.buf + [c]
  {
    FlattenSnoc(st.handled, st.buf + [c]);
    hide Flatten;
    assert Flatten(st.handled) + (st.buf + [c]) + "" == Flatten(st.handled) + st.buf + [c];
  }

  /** Nothing is lost or reordered: the objects and the leftover are the input. */
  lemma {:induction false} Conservation(s: string)
    ensures Flatten(Run(START, s).handled) + Run(START, s).buf == s
  {
    if s != "" {
      var t, c := s[..|s| - 1], s[|s| - 1];
      Conservation(t);
      StepConserves(Run(START, t), c);
      assert s == t + [c];
    }
  }

  /** The depth is kept in a 32-bit signed integer, which is wide enough for every text of
      fewer than 2^31 characters. */
  lemma {:induction false} DepthBounded(s: string)
    ensures -|s| <= Run(START, s).depth <= |s|
  {
    if s != "" { DepthBounded(s[..|s| - 1]); }
  }

  /** Unclosed braces reach any depth. */
  lemma {:induction false} OpenBraces(k: nat)
    ensures var st := Run(START, seq(k, _ => '{')); st.depth == k && !st.inStr && !st.esc
  {
    if k > 0 {
      assert seq(k, _ => '{') == seq(k - 1, _ => '{') + ['{'];
      OpenBraces(k - 1);
      RunSnoc(START, seq(k - 1, _ => '{'), '{');
    }
  }

  /** A text that is handed over by its last character and not before. */
  ghost predicate Complete(o: string) {
    Run(START, o) == START.(handled := [o])
  }

  /** A text within which nothing is handed over. */
  ghost predicate Open(o: string) {
    Run(START, o).handled == []
  }

  /** What was handed over before does not influence the scan. */
  lemma {:induction false} RunForgets(st: Scan, earlier: seq<string>, s: string)
    ensures Run(st.(handled := earlier + st.handled), s) == Run(st, s).(handled := earlier + Run(st, s).handled)
  {
    if s != "" {
      RunForgets(st, earlier, s[..|s| - 1]);
      var t := Run(st, s[..|s| - 1]);
      assert earlier + (t.handled + [t.buf + [s[|s| - 1]]]) == earlier + t.handled + [t.buf + [s[|s| - 1]]];
    }
  }

  lemma AppendComplete(text: string, objects: seq<string>, o: string)
    requires Run(START, text) == START.(handled := objects) && Complete(o)
    ensures Run(START, text + o) == START.(handled := objects + [o])
  {
    hide Run;
    RunConcat(START, text, o);
    RunForgets(START, objects, o);
    assert objects + [] == objects;
  }

  /** The split is the only one: whatever way a text is cut into complete objects and an
      open rest, those objects and that rest are what the scanner delivers. */
  lemma {:induction false} OnlySplit(objects: seq<string>, rest: string)
    requires forall i :: 0 <= i < |objects| ==> Complete(objects[i])
    requires Open(rest)
    ensures Run(START, Flatten(objects) + rest) == Run(START, rest).(handled := objects)
  {
    if objects == [] {
      assert Flatten(objects) + rest == rest;
    } else {
      var k := |objects| - 1;
      OnlySplit(objects[..k], "");
      assert Flatten(objects[..k]) + "" == Flatten(objects[..k]);
      assert objects[..k] + [objects[k]] == objects;
      AppendComplete(Flatten(objects[..k]), objects[..k], objects[k]);
      RunForgets(START, objects, rest);
      assert objects + [] == objects;
      RunConcat(START, Flatten(objects), rest);
    }
  }

  /** Every object handed over is complete, and the text held back is open. */
  ghost predicate RightSplit(st: Scan) {
    Run(START, st.buf) == st.(handled := []) && forall o :: o in st.handled ==> Complete(o)
  }

  lemma StepSplit(st: Scan, c: char)
    requires RightSplit(st)
    ensures RightSplit(Step(st, c))
  {
    hide Run;
    RunSnoc(START, st.buf, c);
    NothingRead();
  }

  lemma {:induction false} SplitParts(s: string)
    ensures RightSplit(Run(START, s))
  {
    if s != "" {
      SplitParts(s[..|s| - 1]);
      StepSplit(Run(START, s[..|s| - 1]), s[|s| - 1]);
    }
  }

  /** One character of a string literal in the sense of section 7 of RFC 8259: itself, or
      a backslash and the character it escapes. */
  datatype Unit = Char(c: char) | Escape(c: char) {
    predicate Valid() {
      Char? ==> c != '\"' && c != '\\'
    }

    function Show(): string {
      if Char? then [c] else ['\\', c]
    }
  }

  ghost function ShowUnits(units: seq<Unit>): string {
    if units == [] then "" else ShowUnits(units[..|units| - 1]) + units[|units| - 1].Show()
  }

  ghost function Quoted(units: seq<Unit>): string {
    "\"" + ShowUnits(units) + "\""
  }

  predicate IsPlain(c: char) {
    c != '\"' && c != '\\' && c != '{' && c != '}'
  }

  /** A text of plain characters, string literals and nested braces. */
  datatype Text =
    | End
    | Plain(c: char, rest: Text)
    | Literal(units: seq<Unit>, rest: Text)
    | Braces(inner: Text, rest: Text)

  ghost function Show(t: Text): string {
    match t
    case End => ""
    case Plain(c, rest) => [c] + Show(rest)
    case Literal(units, rest) => Quoted(units) + Show(rest)
    case Braces(inner, rest) => "{" + Show(inner) + "}" + Show(rest)
  }

  ghost predicate WellFormed(t: Text) {
    match t
    case End => true
    case Plain(c, rest) => IsPlain(c) && WellFormed(rest)
    case Literal(units, rest) => (forall u :: u in units ==> u.Valid()) && WellFormed(rest)
    case Braces(inner, rest) => WellFormed(inner) && WellFormed(rest)
  }

  /** Outside of strings and escapes. */
  ghost predicate Structural(st: Scan) {
    !st.inStr && !st.esc
  }

  ghost function After(st: Scan, s: string, depth: int, inStr: bool): Scan {
    st.(buf := st.buf + s, depth := depth, inStr := inStr)
  }

  /** Reading `s` only collects it and moves to the given depth, in or out of a string. */
  ghost predicate Reads(st: Scan, s: string, depth: int, inStr: bool) {
    Run(st, s) == After(st, s, depth, inStr)
  }

  lemma ReadsThen(st: Scan, a: string, d1: int, i1: bool, b: string, d2: int, i2: bool)
    requires Reads(st, a, d1, i1) && Reads(After(st, a, d1, i1), b, d2, i2)
    ensures Reads(st, a + b, d2, i2)
  {
    hide Run;
    RunConcat(st, a, b);
    assert st.buf + a + b == st.buf + (a + b);
  }

  lemma RunOne(st: Scan, c: char)
    ensures Run(st, [c]) == Step(st, c)
  {
    assert [c][..0] == "";
  }

  lemma ReadsNothing(st: Scan)
    ensures Reads(st, "", st.depth, st.inStr)
  {
    assert st.buf + "" == st.buf;
  }

  lemma ReadsUnit(st: Scan, u: Unit)
    requires st.inStr && !st.esc && u.Valid()
    ensures Reads(st, u.Show(), st.depth, true)
  {
    hide Run;
    if u.Char? {
      RunOne(st, u.c);
    } else {
      assert u.Show() == ['\\'] + [u.c];
      RunConcat(st, ['\\'], [u.c]);
      RunOne(st, '\\');
      RunOne(Step(st, '\\'), u.c);
      assert st.buf + ['\\'] + [u.c] == st.buf + u.Show();
    }
  }

  lemma {:induction false} ReadsUnits(st: Scan, units: seq<Unit>)
    requires st.inStr && !st.esc && forall u :: u in units ==> u.Valid()
    ensures Reads(st, ShowUnits(units), st.depth, true)
  {
    hide Run, Reads;
    if units == [] {
      ReadsNothing(st);
    } else {
      var k := |units| - 1;
      ReadsUnits(st, units[..k]);
      ReadsUnit(After(st, ShowUnits(units[..k]), st.depth, true), units[k]);
      ReadsThen(st, ShowUnits(units[..k]), st.depth, true, units[k].Show(), st.depth, true);
    }
  }

  /** A string literal passes through whatever braces it contains. */
  lemma ReadsLiteral(st: Scan, units: seq<Unit>)
    requires Structural(st) && forall u :: u in units ==> u.Valid()
    ensures Reads(st, Quoted(units), st.depth, false)
  {
    hide Run;
    var body := ShowUnits(units);
    RunOne(st, '\"');
    ReadsUnits(After(st, "\"", st.depth, true), units);
    ReadsThen(st, "\"", st.depth, true, body, st.depth, true);
    RunOne(After(st, "\"" + body, st.depth, true), '\"');
    ReadsThen(st, "\"" + body, st.depth, true, "\"", st.depth, false);
  }

  lemma ReadsBraces(st: Scan, inner: string)
    requires Structural(st) && st.depth >= 1
    requires Reads(After(st, "{", st.depth + 1, false), inner, st.depth + 1, false)
    ensures Reads(st, "{" + inner + "}", st.depth, false)
  {
    hide Run;
    RunOne(st, '{');
    ReadsThen(st, "{", st.depth + 1, false, inner, st.depth + 1, false);
    RunOne(After(st, "{" + inner, st.depth + 1, false), '}');
    ReadsThen(st, "{" + inner, st.depth + 1, false, "}", st.depth, false);
  }

  lemma {:induction false} ReadsPlain(st: Scan, s: string)
    requires Structural(st) && forall c :: c in s ==> IsPlain(c)
    ensures Reads(st, s, st.depth, false)
  {
    if s == "" {
      ReadsNothing(st);
    } else {
      hide Run;
      var k := |s| - 1;
      ReadsPlain(st, s[..k]);
      RunOne(After(st, s[..k], st.depth, false), s[k]);
      assert s[k] in s && s[..k] + [s[k]] == s;
      ReadsThen(st, s[..k], st.depth, false, [s[k]], st.depth, false);
    }
  }

  /** Inside an object, any well-formed text leaves the depth as it was. */
  lemma {:induction false} ReadsText(st: Scan, t: Text)
    requires Structural(st) && st.depth >= 1 && WellFormed(t)
    ensures Reads(st, Show(t), st.depth, false)
    decreases t
  {
    hide Run, Reads;
    match t
    case End =>
      ReadsNothing(st);
    case Plain(c, rest) =>
      ReadsPlain(st, [c]);
      ReadsText(After(st, [c], st.depth, false), rest);
      ReadsThen(st, [c], st.depth, false, Show(rest), st.depth, false);
    case Literal(units, rest) =>
      ReadsLiteral(st, units);
      ReadsText(After(st, Quoted(units), st.depth, false), rest);
      ReadsThen(st, Quoted(units), st.depth, false, Show(rest), st.depth, false);
    case Braces(inner, rest) =>
      ReadsText(After(st, "{", st.depth + 1, false), inner);
      ReadsBraces(st, Show(inner));
      var all := "{" + Show(inner) + "}";
      ReadsText(After(st, all, st.depth, false), rest);
      ReadsThen(st, all, st.depth, false, Show(rest), st.depth, false);
  }

  /** A body that leaves the scanner where it was makes a complete object. */
  lemma BodyIsComplete(lead: string, body: string)
    requires forall c :: c in lead ==> IsPlain(c)
    requires Reads(START.(buf := lead + "{", depth := 1), body, 1, false)
    ensures Complete(lead + "{" + body + "}")
  {
    hide Run;
    ReadsPlain(START, lead);
    assert "" + lead == lead;
    RunOne(After(START, lead, 0, false), '{');
    ReadsThen(START, lead, 0, false, "{", 1, false);
    assert After(START, lead + "{", 1, false) == START.(buf := lead + "{", depth := 1);
    ReadsThen(START, lead + "{", 1, false, body, 1, false);
    var all := lead + "{" + body;
    RunConcat(START, all, "}");
    RunOne(After(START, all, 1, false), '}');
    assert "" + all + "}" == all + "}" && [] + [all + "}"] == [all + "}"];
  }

  /** An object, however deeply nested and whatever its strings hold, is handed over at
      its closing brace, together with the plain text before it. */
  lemma ObjectIsComplete(lead: string, t: Text)
    requires WellFormed(t) && forall c :: c in lead ==> IsPlain(c)
    ensures Complete(lead + "{" + Show(t) + "}")
  {
    ReadsText(START.(buf := lead + "{", depth := 1), t);
    BodyIsComplete(lead, Show(t));
  }
}
