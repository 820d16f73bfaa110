/** The reader that sits between the file and the CSV parser and rejects blank physical lines
    outside quotes, however the file is cut into reads. */
module CsvGuard {
  import opened Collections
  import opened Wrappers

  newtype byte = x: int | 0 <= x < 256

  const LF: byte := 10
  const CR: byte := 13
  const QUOTE: byte := 34
  const COMMA: byte := 44

  datatype QuoteState = FieldStart | Unquoted | Quoted | AfterQuote

  /** The quote-state machine, one byte at a time. */
  function Consume(s: QuoteState, c: byte): QuoteState {
    if c == LF && s != Quoted then FieldStart
    else
      match s
      case FieldStart => if c == QUOTE then Quoted else if c == COMMA then FieldStart else Unquoted
      case Unquoted => if c == COMMA then FieldStart else Unquoted
      case Quoted => if c == QUOTE then AfterQuote else Quoted
      case AfterQuote =>
        if c == QUOTE then Quoted else if c == COMMA then FieldStart else if c == CR then AfterQuote else Unquoted
  }

  // ---------- What the guard is for, said of the whole stream ----------

  ghost function StateAfter(s: seq<byte>): QuoteState {
    if s == [] then FieldStart else Consume(StateAfter(s[..|s| - 1]), s[|s| - 1])
  }

  /** Byte i ends, outside quotes, a physical line that is empty or a lone CR. */
  ghost predicate BlankAt(s: seq<byte>, i: nat)
    requires i < |s|
  {
    && s[i] == LF && StateAfter(s[..i]) != Quoted
    && (i == 0 || s[i - 1] == LF || (s[i - 1] == CR && (i == 1 || s[i - 2] == LF)))
  }

  /** Where the first blank line ends; the length of the stream if it has none. */
  ghost function Cut(s: seq<byte>): (n: nat)
    ensures n <= |s|
  {
    if s == [] then 0
    else
      var last := |s| - 1;
      var n := Cut(s[..last]);
      if n < last then n else if BlankAt(s, last) then last else |s|
  }

  ghost predicate Clean(s: seq<byte>) {
    Cut(s) == |s|
  }

  /** Whether byte i ends a blank line is settled by the bytes up to it. */
  lemma BlankAtPrefix(s: seq<byte>, n: nat, i: nat)
    requires i < n <= |s|
    ensures BlankAt(s[..n], i) <==> BlankAt(s, i)
  {
    assert s[..n][..i] == s[..i];
  }

  /** The cut is the first blank line, by the definition of first. */
  lemma {:induction false} CutIsFirst(s: seq<byte>)
    ensures forall i :: 0 <= i < Cut(s) ==> !BlankAt(s, i)
    ensures Cut(s) < |s| ==> BlankAt(s, Cut(s))
  {
    if s != [] {
      var last := |s| - 1;
      CutIsFirst(s[..last]);
      forall i | 0 <= i < last
        ensures BlankAt(s[..last], i) <==> BlankAt(s, i)
      {
        BlankAtPrefix(s, last, i);
      }
    }
  }

  lemma CutUnique(s: seq<byte>, n: nat)
    requires n < |s| && BlankAt(s, n) && forall i :: 0 <= i < n ==> !BlankAt(s, i)
    ensures Cut(s) == n
  {
    CutIsFirst(s);
  }

  /** Reading on does not move a cut, and does not undo the absence of blank lines before. */
  lemma {:induction false} CutExtends(s: seq<byte>, more: seq<byte>)
    ensures Cut(s) < |s| ==> Cut(s + more) == Cut(s)
    ensures Cut(s + more) >= Cut(s)
  {
    if more == [] {
      assert s + more == s;
    } else {
      CutExtends(s, more[..|more| - 1]);
      assert (s + more)[..|s + more| - 1] == s + more[..|more| - 1];
    }
  }

  // ---------- The quote state, said of the current field ----------

  ghost function Quotes(s: seq<byte>): nat {
    if s == [] then 0 else Quotes(s[..|s| - 1]) + if s[|s| - 1] == QUOTE then 1 else 0
  }

  /** After its opening quote, something other than a quote or a CR stands where the quotes balance. */
  ghost predicate Strays(text: seq<byte>) {
    exists i :: 0 < i < |text| && Quotes(text[..i]) % 2 == 0 && text[i] != QUOTE && text[i] != CR
  }

  /** The state a field leaves, by its first byte and the parity of its quotes: quotes count only in a field
      that opens with one and has not strayed. */
  ghost function FieldState(text: seq<byte>): QuoteState {
    if text == [] then FieldStart
    else if text[0] != QUOTE || Strays(text) then Unquoted
    else if Quotes(text) % 2 == 1 then Quoted
    else AfterQuote
  }

  /** A comma or a newline outside quotes. */
  ghost predicate EndsField(text: seq<byte>, c: byte) {
    (c == COMMA || c == LF) && FieldState(text) != Quoted
  }

  ghost predicate WithinOneField(text: seq<byte>) {
    forall i :: 0 <= i < |text| ==> !EndsField(text[..i], text[i])
  }

  lemma StraysStep(text: seq<byte>, c: byte)
    ensures Strays(text + [c])
            <==> Strays(text) || (text != [] && Quotes(text) % 2 == 0 && c != QUOTE && c != CR)
    ensures Quotes(text + [c]) == Quotes(text) + if c == QUOTE then 1 else 0
  {
    var all, n := text + [c], |text|;
    assert all[..n] == text && all[n] == c && all[..|all| - 1] == text;
    assert forall i :: 0 <= i < n ==> all[..i] == text[..i] && all[i] == text[i];
  }

  lemma FieldStateStep(text: seq<byte>, c: byte)
    ensures Consume(FieldState(text), c) == if EndsField(text, c) then FieldStart else FieldState(text + [c])
  {
    hide Strays, Quotes;
    StraysStep(text, c);
    if text == [] {
      NothingStrays(c);
    }
  }

  lemma NothingStrays(c: byte)
    ensures !Strays([]) && !Strays([c]) && Quotes([]) == 0
    ensures Quotes([] + [c]) == Quotes([c])
  {
    assert [] + [c] == [c];
  }

  /** In any stream at all, from the start of a field to its end, the guard's state is that of the field; the
      comma or newline that ends it starts the next. */
  lemma {:induction false} StateIsFieldState(s: seq<byte>, text: seq<byte>)
    requires StateAfter(s) == FieldStart && WithinOneField(text)
    ensures StateAfter(s + text) == FieldState(text)
    ensures forall c {:trigger EndsField(text, c)} :: EndsField(text, c) ==> StateAfter(s + text + [c]) == FieldStart
  {
    hide FieldState, EndsField, Consume, StateAfter, WithinOneField;
    if text == [] {
      assert s + text == s;
      NoFieldYet();
    } else {
      var init, c := text[..|text| - 1], text[|text| - 1];
      WithinInit(text);
      Assoc(s, init, [c]);
      StateIsFieldState(s, init);
      FieldStateStep(init, c);
      AfterAppend(s + init, c);
    }
    forall c {:trigger EndsField(text, c)} | EndsField(text, c)
      ensures StateAfter(s + text + [c]) == FieldStart
    {
      FieldStateStep(text, c);
      AfterAppend(s + text, c);
    }
  }

  lemma WithinInit(text: seq<byte>)
    requires WithinOneField(text) && text != []
    ensures var init, c := text[..|text| - 1], text[|text| - 1];
            text == init + [c] && WithinOneField(init) && !EndsField(init, c)
  {
    hide EndsField;
    var init := text[..|text| - 1];
    assert forall i :: 0 <= i < |init| ==> init[..i] == text[..i] && init[i] == text[i];
    assert !EndsField(text[..|init|], text[|init|]);
  }

  lemma NoFieldYet()
    ensures FieldState([]) == FieldStart
  {
  }

  lemma AfterAppend(s: seq<byte>, c: byte)
    ensures StateAfter(s + [c]) == Consume(StateAfter(s), c)
  {
    assert (s + [c])[..|s + [c]| - 1] == s;
  }

  /** A quote in the middle of a bare field opens nothing: whatever quotes it holds, a blank line after the
      field is still cut. */
  lemma BareQuotesOpenNothing(s: seq<byte>, text: seq<byte>)
    requires StateAfter(s) == FieldStart && text != [] && text[0] != QUOTE
    requires forall i :: 0 <= i < |text| ==> text[i] != COMMA && text[i] != LF
    ensures StateAfter(s + text) == Unquoted
    ensures BlankAt(s + text + [LF] + [LF], |s| + |text| + 1)
    ensures Cut(s + text + [LF] + [LF]) <= |s| + |text| + 1
  {
    hide Consume, Strays;
    StateIsFieldState(s, text);
    assert EndsField(text, LF);
    var t := s + text + [LF] + [LF];
    assert t[..|s| + |text| + 1] == s + text + [LF];
    CutIsFirst(t);
  }

  // ---------- The reader ----------

  datatype SourceError = EOF | Failure(code: int)

  /** What the underlying reader hands over in one call: at most a buffer of bytes, and an error. */
  datatype Chunk = Chunk(bytes: seq<byte>, err: Option<SourceError>)

  /** The guard's own error, joined with a failure that arrived in the same call, or the source's. */
  datatype GuardError = BlankLine(cause: Option<SourceError>) | Source(e: SourceError)

  /** The bytes since the last newline. */
  ghost function LineLength(s: seq<byte>): nat {
    if s == [] || s[|s| - 1] == LF then 0 else 1 + LineLength(s[..|s| - 1])
  }

  class CsvLineReader {
    /** What the underlying reader will still return, call by call. */
    var reader: seq<Chunk>
    var lineSize: nat
    var lineEndsCR: bool
    var state: QuoteState
    var terminalErr: Option<GuardError>
    /** Everything delivered so far. */
    ghost var seen: seq<byte>

    ghost predicate Valid()
      reads this
    {
      if terminalErr.None? then Clean(seen) && Tracks(seen) else terminalErr.value.BlankLine?
    }

    /** The three fields hold what they should after the bytes of s. */
    ghost predicate Tracks(s: seq<byte>)
      reads this
    {
      && state == StateAfter(s) && lineSize == LineLength(s)
      && (lineEndsCR <==> lineSize > 0 && s[|s| - 1] == CR)
    }

    constructor (reader: seq<Chunk>)
      ensures Valid() && this.reader == reader && terminalErr == None && seen == []
    {
      this.reader := reader;
      lineSize, lineEndsCR, state, terminalErr, seen := 0, false, FieldStart, None, [];
    }

    /** One Read: data[..n] is delivered. */
    method Read() returns (data: seq<byte>, err: Option<GuardError>)
      requires Valid()
      modifies this
      ensures Valid()
      ensures seen == old(seen) + data
      ensures old(terminalErr).Some? ==> data == [] && err == old(terminalErr) && reader == old(reader)
      ensures old(terminalErr).None? ==>
                && reader == (if old(reader) == [] then [] else old(reader)[1..])
                && (data, err) == ReadSpec(old(seen), Head(old(reader)))
      ensures terminalErr.Some? <==> err.Some? && err.value.BlankLine?
      ensures terminalErr.Some? ==> err == terminalErr
    {
      hide BlankAt, StateAfter, Cut, LineLength, Consume;
      if terminalErr.Some? {
        return [], terminalErr;
      }
      var chunk := Head(reader);
      reader := if reader == [] then [] else reader[1..];
      var i := 0;
      ghost var before := seen;
      while i < |chunk.bytes|
        invariant 0 <= i <= |chunk.bytes|
        invariant terminalErr == None && seen == before + chunk.bytes[..i]
        invariant Clean(seen) && Tracks(seen)
        invariant reader == (if old(reader) == [] then [] else old(reader)[1..])
      {
        var value := chunk.bytes[i];
        TestIsBlank(seen, value);
        assert chunk.bytes[..i + 1] == chunk.bytes[..i] + [value];
        if value == LF && state != Quoted && (lineSize == 0 || (lineSize == 1 && lineEndsCR)) {
          BlankInChunk(before, chunk.bytes, i);
          terminalErr := Some(BlankLine(if chunk.err == Some(EOF) then None else chunk.err));
          return chunk.bytes[..i], terminalErr;
        }
        state := Consume(state, value);
        seen := seen + [value];
        if value == LF {
          lineSize, lineEndsCR := 0, false;
        } else {
          lineSize, lineEndsCR := lineSize + 1, value == CR;
        }
        i := i + 1;
      }
      assert chunk.bytes[..|chunk.bytes|] == chunk.bytes;
      return chunk.bytes, if chunk.err.None? then None else Some(Source(chunk.err.value));
    }

    /** A consumer that reads until the first error. */
    method ReadAll() returns (data: seq<byte>, err: GuardError)
      requires Valid() && terminalErr == None
      modifies this
      ensures Valid() && seen == old(seen) + data
      ensures (data, err) == Deliver(old(seen), old(reader))
    {
      data := [];
      while true
        invariant Valid() && terminalErr == None && seen == old(seen) + data
        invariant Deliver(old(seen), old(reader)).0 == data + Deliver(seen, reader).0
        invariant Deliver(old(seen), old(reader)).1 == Deliver(seen, reader).1
        decreases |reader|
      {
        hide BlankAt, StateAfter, Cut, LineLength, ReadSpec, Deliver;
        ghost var r, d := reader, data;
        DeliverStep(seen, reader);
        var more, e := Read();
        data := data + more;
        if e.Some? {
          Assoc(old(seen), d, more);
          return data, e.value;
        }
        Assoc(d, more, Deliver(seen, reader).0);
        Assoc(old(seen), d, more);
      }
    }
  }

  lemma BlankInChunk(before: seq<byte>, bytes: seq<byte>, i: nat)
    requires i < |bytes| && Cut(before + bytes[..i] + [bytes[i]]) == |before| + i
    ensures Cut(before + bytes) == |before| + i && (before + bytes)[|before|..|before| + i] == bytes[..i]
  {
    Regroup(before, bytes, i);
    SliceOfConcat(before, bytes, i);
    CutExtends(before + bytes[..i] + [bytes[i]], bytes[i + 1..]);
  }

  lemma SliceOfConcat<T>(a: seq<T>, b: seq<T>, i: nat)
    requires i <= |b|
    ensures (a + b)[|a|..|a| + i] == b[..i]
  {
  }

  lemma Regroup<T>(a: seq<T>, b: seq<T>, i: nat)
    requires i < |b|
    ensures a + b == a + b[..i] + [b[i]] + b[i + 1..]
  {
  }

  function Head(reader: seq<Chunk>): Chunk {
    if reader == [] then Chunk([], Some(EOF)) else reader[0]
  }

  /** The test the reader makes on its three fields decides BlankAt for the next byte. */
  lemma TestIsBlank(s: seq<byte>, c: byte)
    ensures BlankAt(s + [c], |s|) <==>
            c == LF && StateAfter(s) != Quoted
            && (LineLength(s) == 0 || (LineLength(s) == 1 && s[|s| - 1] == CR))
    ensures StateAfter(s + [c]) == Consume(StateAfter(s), c)
    ensures LineLength(s + [c]) == if c == LF then 0 else LineLength(s) + 1
    ensures Clean(s) && !BlankAt(s + [c], |s|) ==> Clean(s + [c])
    ensures Clean(s) && BlankAt(s + [c], |s|) ==> Cut(s + [c]) == |s|
  {
    var t := s + [c];
    assert t[..|s|] == s && t[..|t| - 1] == s;
    if |s| >= 2 {
      assert LineLength(s[..|s| - 1]) == 0 <==> s[|s| - 2] == LF;
    }
    CutExtends(s, [c]);
  }

  /** What one call delivers: the chunk up to the first blank line of the stream so far. */
  ghost function ReadSpec(seen: seq<byte>, chunk: Chunk): (seq<byte>, Option<GuardError>)
    requires Clean(seen)
  {
    var all := seen + chunk.bytes;
    if Clean(all) then (chunk.bytes, if chunk.err.None? then None else Some(Source(chunk.err.value)))
    else
      CutExtends(seen, chunk.bytes);
      (all[|seen|..Cut(all)], Some(BlankLine(if chunk.err == Some(EOF) then None else chunk.err)))
  }

  /** What a consumer gets that calls Read until the first error. */
  ghost function Deliver(seen: seq<byte>, reader: seq<Chunk>): (seq<byte>, GuardError)
    requires Clean(seen)
    decreases |reader|
  {
    var (data, err) := ReadSpec(seen, Head(reader));
    if err.Some? then (data, err.value)
    else
      var rest := Deliver(seen + data, reader[1..]);
      (data + rest.0, rest.1)
  }

  lemma DeliverStep(seen: seq<byte>, reader: seq<Chunk>)
    requires Clean(seen)
    ensures var (data, err) := ReadSpec(seen, Head(reader));
            if err.Some? then Deliver(seen, reader) == (data, err.value)
            else reader != [] && Clean(seen + data)
                 && Deliver(seen, reader).0 == data + Deliver(seen + data, reader[1..]).0
                 && Deliver(seen, reader).1 == Deliver(seen + data, reader[1..]).1
  {
    if reader == [] {
      assert seen + [] == seen;
    }
  }

  // ---------- Chunk independence ----------

  /** The bytes a source yields up to its first error, and that error. */
  ghost function Stream(reader: seq<Chunk>): seq<byte> {
    if reader == [] then []
    else reader[0].bytes + if reader[0].err.Some? then [] else Stream(reader[1..])
  }

  ghost function EndOf(reader: seq<Chunk>): SourceError {
    if reader == [] then EOF
    else if reader[0].err.Some? then reader[0].err.value
    else EndOf(reader[1..])
  }

  /** How many bytes of the stream arrive in the same call as its error. */
  ghost function LastLength(reader: seq<Chunk>): nat {
    if reader == [] then 0
    else if reader[0].err.Some? then |reader[0].bytes|
    else LastLength(reader[1..])
  }

  /** What comes out depends on the stream and its end only, not on the cuts: everything before the
      newline of the first blank line. The one trace of the cuts is whether a failure of the source
      arrived in the very call that found the blank line. */
  lemma {:induction false} DeliveryFromStream(seen: seq<byte>, reader: seq<Chunk>)
    requires Clean(seen)
    ensures var all := seen + Stream(reader);
            && Cut(all) >= |seen|
            && Deliver(seen, reader) ==
               (all[|seen|..Cut(all)],
                if Clean(all) then Source(EndOf(reader))
                else BlankLine(if EndOf(reader).Failure? && Cut(all) >= |all| - LastLength(reader)
                               then Some(EndOf(reader)) else None))
    decreases |reader|
  {
    hide BlankAt, Cut, StateAfter;
    var all, tail := seen + Stream(reader), if reader == [] then [] else Stream(reader[1..]);
    CutExtends(seen, Stream(reader));
    if reader == [] {
      SliceOfConcat(seen, [], 0);
      CutExtends(seen, []);
    } else {
      var chunk := reader[0];
      var next := seen + chunk.bytes;
      CutExtends(seen, chunk.bytes);
      if chunk.err.Some? {
        assert chunk.bytes + [] == chunk.bytes;
        SliceOfConcat(seen, chunk.bytes, |chunk.bytes|);
        assert chunk.bytes[..|chunk.bytes|] == chunk.bytes;
      } else {
        assert all == next + tail;
        CutExtends(next, tail);
        LastLengthBounded(reader[1..]);
        if Clean(next) {
          DeliveryFromStream(next, reader[1..]);
          SliceOverConcat(seen, chunk.bytes, tail, Cut(all));
        } else {
          SliceOfPrefix(next, tail, |seen|, Cut(next));
        }
      }
    }
  }

  lemma SliceOverConcat<T>(a: seq<T>, b: seq<T>, c: seq<T>, n: nat)
    requires |a + b| <= n <= |a + b + c|
    ensures (a + b + c)[|a|..n] == b + (a + b + c)[|a + b|..n]
  {
  }

  lemma SliceOfPrefix<T>(a: seq<T>, b: seq<T>, m: nat, n: nat)
    requires m <= n <= |a|
    ensures (a + b)[m..n] == a[m..n]
  {
  }

  lemma {:induction false} LastLengthBounded(reader: seq<Chunk>)
    ensures LastLength(reader) <= |Stream(reader)|
  {
    if reader != [] && reader[0].err.None? {
      LastLengthBounded(reader[1..]);
    }
  }

  /** Two cuttings of one stream with one end deliver the same bytes and fail in the same way, and
      when the stream ends in EOF the errors are the same value. */
  lemma ChunkIndependence(x: seq<Chunk>, y: seq<Chunk>)
    requires Stream(x) == Stream(y) && EndOf(x) == EndOf(y)
    ensures Deliver([], x).0 == Deliver([], y).0
    ensures Deliver([], x).1.BlankLine? <==> Deliver([], y).1.BlankLine?
    ensures Deliver([], x).1.Source? || EndOf(x) == EOF ==> Deliver([], x).1 == Deliver([], y).1
  {
    DeliveryFromStream([], x);
    DeliveryFromStream([], y);
  }

  /** When the source fails instead, the error value does depend on the cuts. */
  lemma JoinedErrorDependsOnCuts() returns (x: seq<Chunk>, y: seq<Chunk>)
    ensures Stream(x) == Stream(y) && EndOf(x) == EndOf(y)
    ensures Deliver([], x).1 != Deliver([], y).1
  {
    x := [Chunk([LF], Some(Failure(1)))];
    y := [Chunk([LF], None), Chunk([], Some(Failure(1)))];
    assert y[1..] == [Chunk([], Some(Failure(1)))];
    assert Stream(y) == [LF] + Stream(y[1..]) == [LF] == Stream(x);
    assert BlankAt([LF], 0);
    CutUnique([LF], 0);
    DeliveryFromStream([], x);
    DeliveryFromStream([], y);
    assert [] + Stream(x) == [LF];
    assert LastLength(x) == 1 && LastLength(y) == LastLength(y[1..]) == 0;
  }
}
