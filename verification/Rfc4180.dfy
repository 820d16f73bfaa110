/** CSV files as section 2 of RFC 4180 renders them, and what the guard does on them. */
module Rfc4180 {
  import opened Collections
  import opened CsvGuard

  /** A field is written bare or enclosed in double quotes. */
  datatype Field = Bare(text: seq<byte>) | Enclosed(text: seq<byte>)

  /** A record with the line break that ends it; bare LF is allowed besides CRLF. */
  datatype Line = Line(fields: seq<Field>, crlf: bool)

  /** A bare field has no quotes, commas or line breaks; an enclosed one may hold anything. */
  ghost predicate ValidField(f: Field) {
    f.Bare? ==> forall i :: 0 <= i < |f.text| ==> f.text[i] !in {LF, CR, QUOTE, COMMA}
  }

  ghost predicate ValidRecord(fields: seq<Field>) {
    fields != [] && forall i :: 0 <= i < |fields| ==> ValidField(fields[i])
  }

  ghost predicate ValidLines(lines: seq<Line>) {
    forall i :: 0 <= i < |lines| ==> ValidRecord(lines[i].fields)
  }

  /** Quotes inside an enclosed field are doubled. */
  function Escape(text: seq<byte>): seq<byte> {
    if text == [] then [] else (if text[0] == QUOTE then [QUOTE, QUOTE] else [text[0]]) + Escape(text[1..])
  }

  function RenderField(f: Field): seq<byte> {
    match f
    case Bare(text) => text
    case Enclosed(text) => [QUOTE] + Escape(text) + [QUOTE]
  }

  function RenderRecord(fields: seq<Field>): seq<byte>
    requires fields != []
  {
    if |fields| == 1 then RenderField(fields[0])
    else RenderField(fields[0]) + [COMMA] + RenderRecord(fields[1..])
  }

  function Break(crlf: bool): seq<byte> {
    if crlf then [CR, LF] else [LF]
  }

  function RenderLine(line: Line): seq<byte>
    requires line.fields != []
  {
    RenderRecord(line.fields) + Break(line.crlf)
  }

  ghost function RenderLines(lines: seq<Line>): seq<byte>
    requires ValidLines(lines)
  {
    if lines == [] then []
    else RenderLine(lines[0]) + RenderLines(lines[1..])
  }

  /** A whole file: its lines, then possibly a last record without a line break. */
  ghost function RenderFile(lines: seq<Line>, last: seq<Field>): seq<byte>
    requires ValidLines(lines) && (last != [] ==> ValidRecord(last))
  {
    RenderLines(lines) + if last == [] then [] else RenderRecord(last)
  }

  /** A record of one empty bare field: the only record that leaves no bytes on its line. */
  predicate LeavesNothing(fields: seq<Field>) {
    fields == [Bare([])]
  }

  // ---------- The guard as a machine over line shapes ----------

  datatype LineShape = Empty | LoneCR | Other

  datatype Mode = Mode(quote: QuoteState, line: LineShape)

  const START := Mode(FieldStart, Empty)

  function Next(m: Mode, c: byte): Mode {
    Mode(Consume(m.quote, c),
         if c == LF then Empty else if c == CR && m.line == Empty then LoneCR else Other)
  }

  /** Byte c, read in mode m, would end a blank line outside quotes. */
  predicate EndsBlank(m: Mode, c: byte) {
    c == LF && m.quote != Quoted && m.line != Other
  }

  /** What reading s from mode m comes to: whether no blank line ended, whether no quote was read
      in the middle of a bare field, and the mode reached. */
  datatype Outcome = Outcome(clean: bool, tidy: bool, mode: Mode)

  ghost function Run(m: Mode, s: seq<byte>): Outcome
    decreases |s|
  {
    if s == [] then Outcome(true, true, m)
    else
      var rest := Run(Next(m, s[0]), s[1..]);
      Outcome(rest.clean && !EndsBlank(m, s[0]), rest.tidy && !(s[0] == QUOTE && m.quote == Unquoted), rest.mode)
  }

  lemma {:induction false} RunConcat(m: Mode, s: seq<byte>, t: seq<byte>)
    ensures var first := Run(m, s);
            var second := Run(first.mode, t);
            Run(m, s + t) == Outcome(first.clean && second.clean, first.tidy && second.tidy, second.mode)
    decreases |s|
  {
    if s == [] {
      assert s + t == t;
    } else {
      RunConcat(Next(m, s[0]), s[1..], t);
      assert (s + t)[1..] == s[1..] + t;
    }
  }

  lemma RunOne(m: Mode, c: byte)
    ensures Run(m, [c]) == Outcome(!EndsBlank(m, c), !(c == QUOTE && m.quote == Unquoted), Next(m, c))
  {
    assert [c][1..] == [];
  }

  ghost function ShapeOf(s: seq<byte>): LineShape {
    if LineLength(s) == 0 then Empty
    else if LineLength(s) == 1 && s[|s| - 1] == CR then LoneCR
    else Other
  }

  /** The machine computes the guard's own state, and its blank lines are the guard's. */
  lemma {:induction false} RunIsTheGuard(s: seq<byte>)
    ensures Run(START, s).mode == Mode(StateAfter(s), ShapeOf(s))
    ensures Run(START, s).clean <==> Clean(s)
  {
    if s != [] {
      var init, c := s[..|s| - 1], s[|s| - 1];
      assert s == init + [c];
      RunIsTheGuard(init);
      RunConcat(START, init, [c]);
      RunOne(Run(START, init).mode, c);
      TestIsBlank(init, c);
      CutExtends(init, [c]);
    }
  }

  // ---------- Fields, records, lines ----------

  lemma {:induction false} RunBare(line: LineShape, quote: QuoteState, text: seq<byte>)
    requires ValidField(Bare(text)) && (quote == FieldStart || quote == Unquoted)
    ensures Run(Mode(quote, line), text) ==
            Outcome(true, true, if text == [] then Mode(quote, line) else Mode(Unquoted, Other))
    decreases |text|
  {
    if text != [] {
      assert text[0] !in {LF, CR, QUOTE, COMMA};
      assert ValidField(Bare(text[1..]));
      RunBare(Other, Unquoted, text[1..]);
      if text[1..] == [] {
        assert Next(Mode(quote, line), text[0]) == Mode(Unquoted, Other);
      }
    }
  }

  /** Inside quotes the guard stays inside quotes, whatever the text and wherever its lines break. */
  lemma {:induction false} RunEscaped(line: LineShape, text: seq<byte>)
    ensures var r := Run(Mode(Quoted, line), Escape(text)); r.clean && r.tidy && r.mode.quote == Quoted
    decreases |text|
  {
    if text != [] {
      var c, rest := text[0], Escape(text[1..]);
      var m := Mode(Quoted, line);
      if c == QUOTE {
        RunConcat(m, [QUOTE], [QUOTE]);
        assert [QUOTE] + [QUOTE] == [QUOTE, QUOTE];
        RunOne(m, QUOTE);
        RunOne(Next(m, QUOTE), QUOTE);
        RunConcat(m, [QUOTE, QUOTE], rest);
        RunEscaped(Run(m, [QUOTE, QUOTE]).mode.line, text[1..]);
      } else {
        RunConcat(m, [c], rest);
        RunOne(m, c);
        RunEscaped(Next(m, c).line, text[1..]);
      }
    }
  }

  /** A field, read from its start, is clean and tidy and leaves the guard outside quotes; it
      leaves the line as it was only if it is empty and bare. */
  lemma RunField(line: LineShape, f: Field)
    requires ValidField(f)
    ensures var r := Run(Mode(FieldStart, line), RenderField(f));
            && r.clean && r.tidy && r.mode.quote != Quoted
            && r.mode.line == (if f == Bare([]) then line else Other)
  {
    match f
    case Bare(text) => RunBare(line, FieldStart, text);
    case Enclosed(text) =>
      var m := Mode(FieldStart, line);
      var body := Escape(text);
      RunConcat(m, [QUOTE] + body, [QUOTE]);
      RunConcat(m, [QUOTE], body);
      RunOne(m, QUOTE);
      RunEscaped(Other, text);
      RunOne(Run(m, [QUOTE] + body).mode, QUOTE);
  }

  lemma {:induction false} RunRecord(line: LineShape, fields: seq<Field>)
    requires ValidRecord(fields) && (line == Empty || line == Other)
    ensures var r := Run(Mode(FieldStart, line), RenderRecord(fields));
            && r.clean && r.tidy && r.mode.quote != Quoted
            && r.mode.line == (if LeavesNothing(fields) then line else Other)
    decreases |fields|
  {
    var m := Mode(FieldStart, line);
    RunField(line, fields[0]);
    if |fields| == 1 {
      assert fields == [fields[0]];
    } else {
      var first, rest := RenderField(fields[0]), RenderRecord(fields[1..]);
      RunConcat(m, first + [COMMA], rest);
      RunConcat(m, first, [COMMA]);
      RunOne(Run(m, first).mode, COMMA);
      assert ValidRecord(fields[1..]);
      RunRecord(Other, fields[1..]);
    }
  }

  lemma RunBreak(quote: QuoteState, line: LineShape, crlf: bool)
    requires quote != Quoted && (line == Empty || line == Other)
    ensures Run(Mode(quote, line), Break(crlf)) == Outcome(line == Other, true, START)
  {
    var m := Mode(quote, line);
    if crlf {
      assert [CR] + [LF] == [CR, LF];
      RunConcat(m, [CR], [LF]);
      RunOne(m, CR);
      RunOne(Next(m, CR), LF);
    } else {
      RunOne(m, LF);
    }
  }

  lemma {:induction false} RunLines(lines: seq<Line>)
    requires ValidLines(lines)
    ensures Run(START, RenderLines(lines)) ==
            Outcome(forall i :: 0 <= i < |lines| ==> !LeavesNothing(lines[i].fields), true, START)
  {
    if lines != [] {
      var rec, br, rest := RenderRecord(lines[0].fields), Break(lines[0].crlf), RenderLines(lines[1..]);
      assert ValidRecord(lines[0].fields);
      RunConcat(START, rec + br, rest);
      RunConcat(START, rec, br);
      RunRecord(Empty, lines[0].fields);
      RunBreak(Run(START, rec).mode.quote, Run(START, rec).mode.line, lines[0].crlf);
      RunLines(lines[1..]);
      assert forall i :: 1 <= i < |lines| ==> lines[i] == lines[1..][i - 1];
    }
  }

  lemma RunFile(lines: seq<Line>, last: seq<Field>)
    requires ValidLines(lines) && (last != [] ==> ValidRecord(last))
    ensures var r := Run(START, RenderFile(lines, last));
            && (r.clean <==> forall i :: 0 <= i < |lines| ==> !LeavesNothing(lines[i].fields))
            && r.tidy
  {
    RunLines(lines);
    if last == [] {
      assert RenderFile(lines, last) == RenderLines(lines);
    } else {
      RunConcat(START, RenderLines(lines), RenderRecord(last));
      RunRecord(Empty, last);
    }
  }

  /** A rendered file passes the guard byte for byte exactly when none of its lines is a record of
      one empty bare field; so every file of records with two or more fields passes. */
  lemma RenderedFilePasses(lines: seq<Line>, last: seq<Field>)
    requires ValidLines(lines) && (last != [] ==> ValidRecord(last))
    ensures Clean(RenderFile(lines, last)) <==> forall i :: 0 <= i < |lines| ==> !LeavesNothing(lines[i].fields)
    ensures (forall i :: 0 <= i < |lines| ==> |lines[i].fields| >= 2) ==> Clean(RenderFile(lines, last))
  {
    RunFile(lines, last);
    RunIsTheGuard(RenderFile(lines, last));
  }

  lemma {:induction false} RenderLinesConcat(x: seq<Line>, y: seq<Line>)
    requires ValidLines(x) && ValidLines(y)
    ensures ValidLines(x + y) && RenderLines(x + y) == RenderLines(x) + RenderLines(y)
  {
    hide RenderLine;
    if x == [] {
      assert x + y == y;
      Assoc([], [], RenderLines(y));
    } else {
      RenderLinesConcat(x[1..], y);
      assert (x + y)[1..] == x[1..] + y && (x + y)[0] == x[0];
      Assoc(RenderLine(x[0]), RenderLines(x[1..]), RenderLines(y));
    }
  }

  /** A file that passes is rejected once a blank line is put at any record boundary: delivery stops
      at that line's newline, after the records before it and the line's CR if it has one. */
  lemma InsertedBlankLineRejected(lines: seq<Line>, last: seq<Field>, n: nat, crlf: bool)
    requires ValidLines(lines) && (last != [] ==> ValidRecord(last))
    requires Clean(RenderFile(lines, last)) && n <= |lines|
    ensures ValidLines(lines[..n])
    ensures var s, k := RenderFile(lines, last), |RenderLines(lines[..n])|;
            && k <= |s|
            && var t := s[..k] + Break(crlf) + s[k..];
               Cut(t) == k + (if crlf then 1 else 0) < |t|
  {
    hide RenderLines, RenderRecord, Cut, LeavesNothing, Break;
    RenderedFilePasses(lines, last);
    assert lines == lines[..n] + lines[n..];
    RenderLinesConcat(lines[..n], lines[n..]);
    var tail := if last == [] then [] else RenderRecord(last);
    Assoc(RenderLines(lines[..n]), RenderLines(lines[n..]), tail);
    BlankLineCuts(lines[..n], crlf, RenderLines(lines[n..]) + tail);
    Halves(RenderLines(lines[..n]), RenderLines(lines[n..]) + tail);
  }

  lemma Halves<T>(a: seq<T>, b: seq<T>)
    ensures (a + b)[..|a|] == a && (a + b)[|a|..] == b
  {
  }

  lemma BlankLineCuts(before: seq<Line>, crlf: bool, rest: seq<byte>)
    requires ValidLines(before) && forall i :: 0 <= i < |before| ==> !LeavesNothing(before[i].fields)
    ensures var s := RenderLines(before) + Break(crlf) + rest;
            Cut(s) == |RenderLines(before)| + (if crlf then 1 else 0) < |s|
  {
    var head := RenderLines(before);
    var cr := if crlf then [CR] else [];
    var upto := head + cr;
    RunLines(before);
    RunIsTheGuard(upto);
    RunConcat(START, head, cr);
    if crlf {
      RunOne(START, CR);
    }
    CutAtBlankLine(upto);
    Assoc(head, cr, [LF]);
    assert Break(crlf) == cr + [LF];
    CutExtends(upto + [LF], rest);
  }

  lemma CutAtBlankLine(s: seq<byte>)
    requires var r := Run(START, s); r.clean && r.mode.quote != Quoted && r.mode.line != Other
    ensures Cut(s + [LF]) == |s|
  {
    RunIsTheGuard(s);
    RunIsTheGuard(s + [LF]);
    RunConcat(START, s, [LF]);
    RunOne(Run(START, s).mode, LF);
    CutExtends(s, [LF]);
  }

  // ---------- Quotes by parity ----------

  /** Where no quote stands in the middle of a bare field, being inside quotes means having read
      an odd number of them. */
  lemma {:induction false} TidyParity(s: seq<byte>)
    requires Run(START, s).tidy
    ensures StateAfter(s) == Quoted <==> Quotes(s) % 2 == 1
  {
    if s != [] {
      var init, c := s[..|s| - 1], s[|s| - 1];
      assert s == init + [c];
      RunConcat(START, init, [c]);
      RunOne(Run(START, init).mode, c);
      RunIsTheGuard(init);
      TidyParity(init);
    }
  }

  /** On a rendered file the state is Quoted exactly when the number of quotes so far is odd, at
      every byte. */
  lemma QuotedIsOddQuotes(lines: seq<Line>, last: seq<Field>, n: nat)
    requires ValidLines(lines) && (last != [] ==> ValidRecord(last))
    requires n <= |RenderFile(lines, last)|
    ensures StateAfter(RenderFile(lines, last)[..n]) == Quoted <==> Quotes(RenderFile(lines, last)[..n]) % 2 == 1
  {
    var s := RenderFile(lines, last);
    RunFile(lines, last);
    assert s == s[..n] + s[n..];
    RunConcat(START, s[..n], s[n..]);
    TidyParity(s[..n]);
  }
}
