/**
 `pump_stream`: one output stream of a child is cut into records at newlines, and every record is
 written to the journal as one line. Records that are too long or not UTF-8 are replaced by a
 notice; after the first failure nothing more is written, but the stream is still drained.
 */
module OutputPump {
  import opened Basics
  import opened Text
  import opened Utf8
  import Sanitizer

  const NEWLINE: Byte := 0x0A
  const MAX_RECORD_BYTES: nat := 16384
  const CHUNK: nat := 4096

  datatype StreamKind = Stdout | Stderr

  datatype PumpFailure = InvalidUtf8 | RecordTooLong | ReadFailure | JournalWriteFailure

  datatype PumpOutcome = EndOfStream | BrokenStream

  datatype Config = Config(unitName: Bytes, stream: StreamKind, secrets: seq<Bytes>)

  predicate WellFormed(c: Config) {
    Valid(c.unitName) && Sanitizer.AllValid(c.secrets)
  }

  function StreamLabel(k: StreamKind): Bytes {
    match k
    case Stdout => Ascii("stdout")
    case Stderr => Ascii("stderr")
  }

  function FailureLabel(f: PumpFailure): Bytes {
    match f
    case InvalidUtf8 => Ascii("invalid_utf8")
    case RecordTooLong => Ascii("record_too_long")
    case ReadFailure => Ascii("pipe_read_failure")
    case JournalWriteFailure => Ascii("journal_write_failure")
  }

  function LinePrefix(c: Config): Bytes {
    Ascii("unit=") + c.unitName + Ascii(" stream=") + StreamLabel(c.stream) + Ascii(" ")
  }

  // ---------------------------------------------------------------- what a stream should produce

  /** The stream cut at newlines; the last piece is what follows the last newline. */
  function Pieces(s: Bytes): (p: seq<Bytes>)
    ensures |p| > 0
    decreases |s|
  {
    if s == [] then [[]]
    else
      var front, last := Pieces(s[..|s| - 1]), s[|s| - 1];
      if last == NEWLINE then front + [[]]
      else front[..|front| - 1] + [front[|front| - 1] + [last]]
  }

  function Complete(s: Bytes): seq<Bytes> {
    Pieces(s)[..|Pieces(s)| - 1]
  }

  function Rest(s: Bytes): Bytes {
    Pieces(s)[|Pieces(s)| - 1]
  }

  function Notice(c: Config, f: PumpFailure): Bytes {
    LinePrefix(c) + Ascii("stage=output_record_discarded reason=") + FailureLabel(f) + [NEWLINE]
  }

  /** The line for one record. */
  function Line(c: Config, record: Bytes): Bytes {
    if |record| > MAX_RECORD_BYTES then Notice(c, RecordTooLong)
    else if !Valid(record) then Notice(c, InvalidUtf8)
    else LinePrefix(c) + Sanitizer.Sanitize(record, c.secrets) + [NEWLINE]
  }

  function FailureMessage(c: Config, f: PumpFailure): Bytes {
    LinePrefix(c) + Ascii("stage=sanitizer_failure reason=") + FailureLabel(f)
  }

  function FailureLine(c: Config, f: PumpFailure): Bytes {
    Sanitizer.Sanitize(FailureMessage(c, f), c.secrets) + [NEWLINE]
  }

  function Lines(c: Config, records: seq<Bytes>): (lines: seq<Bytes>)
    ensures |lines| == |records|
    ensures forall k :: 0 <= k < |records| ==> lines[k] == Line(c, records[k])
  {
    seq(|records|, k requires 0 <= k < |records| => Line(c, records[k]))
  }

  /** The lines due once s has been read: a record is due at its newline, or when it gets too long. */
  function Due(c: Config, s: Bytes): seq<Bytes> {
    Lines(c, Complete(s)) + if |Rest(s)| > MAX_RECORD_BYTES then [Notice(c, RecordTooLong)] else []
  }

  /** The line due at the end of the stream. */
  function DueAtEnd(c: Config, s: Bytes): seq<Bytes> {
    if 0 < |Rest(s)| <= MAX_RECORD_BYTES then [Line(c, Rest(s))] else []
  }

  /** The first of the next n writes that the journal refuses. */
  function FirstRefused(accepts: nat -> bool, from: nat, n: nat): (k: Option<nat>)
    ensures k.Some? ==> k.value < n && !accepts(from + k.value)
    ensures forall i: nat :: from <= i < from + (if k.Some? then k.value else n) ==> accepts(i)
  {
    if n == 0 then None
    else
      var k := FirstRefused(accepts, from, n - 1);
      if k.Some? then k
      else if accepts(from + (n - 1)) then None else Some(n - 1)
  }

  /** What is written, and what failure is sent, for a list of lines and the end of the stream. */
  datatype Report = Report(written: seq<Bytes>, sent: seq<PumpFailure>)

  function Reported(c: Config, lines: seq<Bytes>, accepts: nat -> bool, from: nat, broken: bool): Report {
    var k := FirstRefused(accepts, from, |lines|);
    if k.Some? then Report(lines[..k.value + 1] + [FailureLine(c, JournalWriteFailure)], [JournalWriteFailure])
    else if broken then Report(lines + [FailureLine(c, ReadFailure)], [ReadFailure])
    else Report(lines, [])
  }

  /** What pumping a stream does; `broken` says that it ends with a read error. */
  function Pumped(c: Config, s: Bytes, broken: bool, accepts: nat -> bool, from: nat): Report {
    Reported(c, Due(c, s) + if broken then [] else DueAtEnd(c, s), accepts, from, broken)
  }

  // ---------------------------------------------------------------- the cut is the one at newlines

  function Join(pieces: seq<Bytes>): Bytes
    requires |pieces| > 0
  {
    if |pieces| == 1 then pieces[0] else Join(pieces[..|pieces| - 1]) + [NEWLINE] + pieces[|pieces| - 1]
  }

  predicate NoNewline(pieces: seq<Bytes>) {
    forall k :: 0 <= k < |pieces| ==> NEWLINE !in pieces[k]
  }

  lemma {:induction false} PiecesStep(s: Bytes, b: Byte)
    ensures Pieces(s + [b]) == if b == NEWLINE then Pieces(s) + [[]]
                               else Complete(s) + [Rest(s) + [b]]
  {
    assert (s + [b])[..|s|] == s;
  }

  lemma JoinLast(front: seq<Bytes>, last: Bytes, more: Bytes)
    ensures Join(front + [last + more]) == Join(front + [last]) + more
  {
    if front != [] {
      assert (front + [last])[..|front|] == front && (front + [last + more])[..|front|] == front;
    }
  }

  lemma JoinEmpty(pieces: seq<Bytes>)
    requires |pieces| > 0
    ensures Join(pieces + [[]]) == Join(pieces) + [NEWLINE]
  {
    assert (pieces + [[]])[..|pieces|] == pieces;
  }

  lemma NoNewlineLast(front: seq<Bytes>, last: Bytes, b: Byte)
    requires NoNewline(front + [last]) && b != NEWLINE
    ensures NoNewline(front + [last + [b]])
  {
    var p, q := front + [last], front + [last + [b]];
    assert p[|front|] == last && forall k :: 0 <= k < |front| ==> q[k] == p[k];
  }

  lemma LastPiece(s: Bytes)
    ensures Pieces(s) == Complete(s) + [Rest(s)]
    ensures s == [] ==> Pieces(s) == [[]] && Join([[]]) == []
  {
  }

  /** The pieces contain no newline, and joined by newlines they are the stream. */
  lemma {:induction false} PiecesJoin(s: Bytes)
    ensures Join(Pieces(s)) == s && NoNewline(Pieces(s))
    decreases |s|
  {
    hide Pieces, Complete, Rest, Join;
    LastPiece(s);
    if s != [] {
      var front, b := s[..|s| - 1], s[|s| - 1];
      PiecesJoin(front);
      LastPiece(front);
      assert s == front + [b];
      PiecesStep(front, b);
      if b == NEWLINE {
        JoinEmpty(Pieces(front));
      } else {
        JoinLast(Complete(front), Rest(front), [b]);
        NoNewlineLast(Complete(front), Rest(front), b);
      }
    }
  }

  /** There is no other such cut. */
  lemma {:induction false} PiecesUnique(pieces: seq<Bytes>)
    requires |pieces| > 0 && NoNewline(pieces)
    ensures Pieces(Join(pieces)) == pieces
    decreases |pieces|, |pieces[|pieces| - 1]|
  {
    var n := |pieces| - 1;
    var last := pieces[n];
    assert pieces == pieces[..n] + [last];
    if last == [] {
      if n > 0 {
        PiecesUnique(pieces[..n]);
        assert Join(pieces) == Join(pieces[..n]) + [NEWLINE];
        PiecesStep(Join(pieces[..n]), NEWLINE);
      }
    } else {
      var m := |last| - 1;
      var shorter := pieces[..n] + [last[..m]];
      assert last == last[..m] + [last[m]];
      PiecesUnique(shorter);
      JoinLast(pieces[..n], last[..m], [last[m]]);
      PiecesStep(Join(shorter), last[m]);
      assert Complete(Join(shorter)) == pieces[..n];
    }
  }

  // ---------------------------------------------------------------- what each byte adds

  lemma DueStep(c: Config, s: Bytes, b: Byte)
    ensures Rest(s + [b]) == if b == NEWLINE then [] else Rest(s) + [b]
    ensures b == NEWLINE && |Rest(s)| <= MAX_RECORD_BYTES ==> Due(c, s + [b]) == Due(c, s) + [Line(c, Rest(s))]
    ensures b == NEWLINE && |Rest(s)| > MAX_RECORD_BYTES ==> Due(c, s + [b]) == Due(c, s)
    ensures b != NEWLINE && |Rest(s)| == MAX_RECORD_BYTES ==> Due(c, s + [b]) == Due(c, s) + [Notice(c, RecordTooLong)]
    ensures b != NEWLINE && |Rest(s)| != MAX_RECORD_BYTES ==> Due(c, s + [b]) == Due(c, s)
  {
    hide Notice, Pieces, Join;
    PiecesStep(s, b);
    assert Pieces(s) == Complete(s) + [Rest(s)];
    if b == NEWLINE {
      assert Complete(s + [b]) == Complete(s) + [Rest(s)];
      assert Lines(c, Complete(s) + [Rest(s)]) == Lines(c, Complete(s)) + [Line(c, Rest(s))];
      assert Due(c, s + [b]) == Lines(c, Complete(s)) + [Line(c, Rest(s))];
      if |Rest(s)| > MAX_RECORD_BYTES {
        assert Line(c, Rest(s)) == Notice(c, RecordTooLong);
      } else {
        assert Due(c, s) == Lines(c, Complete(s));
      }
    } else {
      assert Complete(s + [b]) == Complete(s);
    }
  }

  // ---------------------------------------------------------------- main properties

  /**
   With a journal that accepts every line, a stream that ends normally produces exactly one line for
   every record, in order: those between newlines, and the last one unless it is empty.
   */
  lemma PumpIsMapOverSplit(c: Config, s: Bytes, accepts: nat -> bool, from: nat)
    requires forall i: nat :: accepts(i)
    ensures var records := Complete(s) + if Rest(s) == [] then [] else [Rest(s)];
            Pumped(c, s, false, accepts, from) == Report(Lines(c, records), [])
  {
    hide Line, Notice, Pieces;
    var records := Complete(s) + if Rest(s) == [] then [] else [Rest(s)];
    var lines := Due(c, s) + DueAtEnd(c, s);
    LongLine(c, Rest(s));
    assert lines == Lines(c, records);
    assert FirstRefused(accepts, from, |lines|).None?;
  }

  lemma LongLine(c: Config, record: Bytes)
    ensures |record| > MAX_RECORD_BYTES ==> Line(c, record) == Notice(c, RecordTooLong)
  {
  }

  /**
   With any journal: at most one failure is sent, and exactly if some line is refused or the stream
   breaks; the failure line is the last one written, behind it comes no record, and of the lines
   before it only the last can have been refused.
   */
  lemma FailureIsLast(c: Config, s: Bytes, broken: bool, accepts: nat -> bool, from: nat)
    ensures var r := Pumped(c, s, broken, accepts, from);
            var lines := Due(c, s) + if broken then [] else DueAtEnd(c, s);
            && |r.sent| <= 1
            && (r.sent == [] <==> !broken && forall i :: from <= i < from + |lines| ==> accepts(i))
            && (r.sent == [] ==> r.written == lines)
            && (r.sent != [] ==>
                  && r.written != [] && r.written[|r.written| - 1] == FailureLine(c, r.sent[0])
                  && r.written[..|r.written| - 1] <= lines
                  && (forall i: nat :: from <= i < from + |r.written| - 2 ==> accepts(i))
                  && (r.sent[0] == JournalWriteFailure <==>
                        |r.written| >= 2 && !accepts(from + |r.written| - 2)))
  {
    hide *;
    PumpedIs(c, s, broken, accepts, from);
    var lines := Due(c, s) + if broken then [] else DueAtEnd(c, s);
    ReportedShape(c, lines, accepts, from, broken);
  }

  lemma PumpedIs(c: Config, s: Bytes, broken: bool, accepts: nat -> bool, from: nat)
    ensures Pumped(c, s, broken, accepts, from)
            == Reported(c, Due(c, s) + if broken then [] else DueAtEnd(c, s), accepts, from, broken)
  {
  }

  lemma ReportedShape(c: Config, lines: seq<Bytes>, accepts: nat -> bool, from: nat, broken: bool)
    ensures var r := Reported(c, lines, accepts, from, broken);
            && |r.sent| <= 1
            && (r.sent == [] <==> !broken && forall i :: from <= i < from + |lines| ==> accepts(i))
            && (r.sent == [] ==> r.written == lines)
            && (r.sent != [] ==>
                  && r.written != [] && r.written[|r.written| - 1] == FailureLine(c, r.sent[0])
                  && r.written[..|r.written| - 1] <= lines
                  && (forall i: nat :: from <= i < from + |r.written| - 2 ==> accepts(i))
                  && (r.sent[0] == JournalWriteFailure <==>
                        |r.written| >= 2 && !accepts(from + |r.written| - 2)))
  {
    hide FailureLine, FirstRefused;
    var k := FirstRefused(accepts, from, |lines|);
    if k.Some? {
      assert !accepts(from + k.value);
      assert (lines[..k.value + 1] + [FailureLine(c, JournalWriteFailure)])[..k.value + 1] == lines[..k.value + 1];
    } else {
      assert (lines + [FailureLine(c, ReadFailure)])[..|lines|] == lines;
    }
  }

  lemma MoreLines(accepts: nat -> bool, from: nat, n: nat, m: nat)
    requires n <= m
    ensures FirstRefused(accepts, from, n).Some? ==> FirstRefused(accepts, from, m) == FirstRefused(accepts, from, n)
    decreases m
  {
    if n < m {
      MoreLines(accepts, from, n, m - 1);
    }
  }

  /** Once a line has been refused, further input changes nothing. */
  lemma RefusalIsFinal(c: Config, lines: seq<Bytes>, more: seq<Bytes>, accepts: nat -> bool, from: nat, broken: bool)
    requires FirstRefused(accepts, from, |lines|).Some?
    ensures Reported(c, lines + more, accepts, from, broken) == Reported(c, lines, accepts, from, false)
    ensures FirstRefused(accepts, from, |lines + more|).Some?
  {
    hide FailureLine;
    MoreLines(accepts, from, |lines|, |lines + more|);
    var k := FirstRefused(accepts, from, |lines|).value;
    assert (lines + more)[..k + 1] == lines[..k + 1];
  }

  // ---------------------------------------------------------------- reader, journal and failure channel

  datatype Read = Data(bytes: Bytes) | Interrupted | Failed

  datatype ReadResult = Count(n: nat) | ReadError(interrupted: bool)

  /** What the reader will deliver: chunks that fit the buffer, then the end of the stream. */
  predicate Readable(script: seq<Read>) {
    forall k :: 0 <= k < |script| && script[k].Data? ==> 1 <= |script[k].bytes| <= CHUNK
  }

  /** The bytes delivered before a read error or the end. */
  function Content(script: seq<Read>): Bytes {
    if script == [] || script[0].Failed? then []
    else if script[0].Interrupted? then Content(script[1..])
    else script[0].bytes + Content(script[1..])
  }

  predicate Broken(script: seq<Read>) {
    script != [] && (script[0].Failed? || Broken(script[1..]))
  }

  lemma {:induction false} ContentAppend(a: seq<Read>, b: seq<Read>)
    ensures Content(a + b) == if Broken(a) then Content(a) else Content(a) + Content(b)
    ensures Broken(a + b) == (Broken(a) || Broken(b))
    decreases |a|
  {
    if a == [] {
      assert a + b == b;
    } else {
      ContentAppend(a[1..], b);
      assert (a + b)[0] == a[0] && (a + b)[1..] == a[1..] + b;
    }
  }

  lemma OneRead(r: Read)
    ensures Content([r]) == (if r.Data? then r.bytes else []) && Broken([r]) == r.Failed?
  {
    assert [r][1..] == [];
  }

  /** How the stream is chunked, and where reads are interrupted, makes no difference. */
  lemma ChunkingIsInvisible(before: seq<Read>, a: Bytes, b: Bytes, after: seq<Read>)
    ensures Content(before + ([Data(a + b)] + after))
            == Content(before + ([Data(a)] + ([Interrupted] + ([Data(b)] + after))))
    ensures Broken(before + ([Data(a + b)] + after))
            == Broken(before + ([Data(a)] + ([Interrupted] + ([Data(b)] + after))))
  {
    hide Content, Broken;
    OneRead(Data(a + b));
    OneRead(Data(a));
    OneRead(Interrupted);
    OneRead(Data(b));
    ContentAppend([Data(a + b)], after);
    ContentAppend([Data(b)], after);
    ContentAppend([Interrupted], [Data(b)] + after);
    ContentAppend([Data(a)], [Interrupted] + ([Data(b)] + after));
    ContentAppend(before, [Data(a + b)] + after);
    ContentAppend(before, [Data(a)] + ([Interrupted] + ([Data(b)] + after)));
    Associates(a, b, Content(after));
  }

  class Reader {
    var script: seq<Read>

    constructor (script: seq<Read>)
      ensures this.script == script
    {
      this.script := script;
    }

    method Read(chunk: array<Byte>) returns (r: ReadResult)
      requires chunk.Length == CHUNK && Readable(script)
      modifies this, chunk
      ensures Readable(script)
      ensures old(script) == [] ==> r == Count(0) && script == []
      ensures old(script) != [] ==> script == old(script)[1..]
      ensures old(script) != [] && old(script)[0].Failed? ==> r == ReadError(false)
      ensures old(script) != [] && old(script)[0].Interrupted? ==> r == ReadError(true)
      ensures old(script) != [] && old(script)[0].Data? ==>
                r.Count? && 1 <= r.n <= CHUNK && chunk[..r.n] == old(script)[0].bytes
    {
      if script == [] {
        return Count(0);
      }
      var next := script[0];
      script := script[1..];
      match next
      case Failed => return ReadError(false);
      case Interrupted => return ReadError(true);
      case Data(bytes) =>
        forall k | 0 <= k < |bytes| {
          chunk[k] := bytes[k];
        }
        return Count(|bytes|);
    }
  }

  /** The journal. Lines it refuses are attempts too. */
  class Writer {
    const accepts: nat -> bool
    var attempts: seq<Bytes>

    constructor (accepts: nat -> bool)
      ensures this.accepts == accepts && attempts == []
    {
      this.accepts := accepts;
      attempts := [];
    }

    method WriteLine(line: Bytes) returns (ok: bool)
      modifies this
      ensures attempts == old(attempts) + [line] && ok == accepts(|old(attempts)|)
    {
      ok := accepts(|attempts|);
      attempts := attempts + [line];
    }
  }

  class FailureSink {
    var sent: seq<PumpFailure>
    var failed: bool

    constructor ()
      ensures sent == [] && !failed
    {
      sent, failed := [], false;
    }
  }

  // ---------------------------------------------------------------- the pump

  method EmitDiscardedRecord(writer: Writer, c: Config, reason: PumpFailure) returns (failure: Option<PumpFailure>)
    requires reason == InvalidUtf8 || reason == RecordTooLong
    modifies writer
    ensures writer.attempts == old(writer.attempts) + [Notice(c, reason)]
    ensures failure == if writer.accepts(|old(writer.attempts)|) then None else Some(JournalWriteFailure)
  {
    hide LinePrefix, FailureLabel;
    var ok := writer.WriteLine(LinePrefix(c) + Ascii("stage=output_record_discarded reason=") + FailureLabel(reason)
                               + [NEWLINE]);
    return if ok then None else Some(JournalWriteFailure);
  }

  method EmitRecordOrDiscard(writer: Writer, record: Bytes, c: Config) returns (failure: Option<PumpFailure>)
    requires |record| <= MAX_RECORD_BYTES && WellFormed(c)
    modifies writer
    ensures writer.attempts == old(writer.attempts) + [Line(c, record)]
    ensures failure == if writer.accepts(|old(writer.attempts)|) then None else Some(JournalWriteFailure)
  {
    hide LinePrefix, Notice, Valid, Sanitizer.Sanitize;
    if !Valid(record) {
      failure := EmitDiscardedRecord(writer, c, InvalidUtf8);
    } else {
      var safe := Sanitizer.SanitizeRecord(record, c.secrets);
      var ok := writer.WriteLine(LinePrefix(c) + safe + [NEWLINE]);
      return if ok then None else Some(JournalWriteFailure);
    }
  }

  lemma {:induction false} ValidAppend(a: Bytes, b: Bytes)
    requires Valid(a) && Valid(b)
    ensures Valid(a + b)
  {
    hide Valid, Run;
    AutomatonIsGrammar(a);
    AutomatonIsGrammar(b);
    RunAppend(Start, a, b);
    AutomatonIsGrammar(a + b);
  }

  lemma AsciiIsValid(s: string)
    requires forall k :: 0 <= k < |s| ==> s[k] as int < 128
    ensures Valid(Ascii(s))
  {
    hide Valid, Run;
    RunAscii(Ascii(s));
    AutomatonIsGrammar(Ascii(s));
  }

  lemma MessageIsValid(c: Config, f: PumpFailure)
    requires WellFormed(c)
    ensures Valid(FailureMessage(c, f))
  {
    hide Valid, Ascii, Sanitizer.AllValid;
    AsciiIsValid("unit=");
    AsciiIsValid(" stream=");
    AsciiIsValid(" ");
    AsciiIsValid("stage=sanitizer_failure reason=");
    LabelsAreValid(c.stream, f);
    ValidAppend(Ascii("unit="), c.unitName);
    ValidAppend(Ascii("unit=") + c.unitName, Ascii(" stream="));
    ValidAppend(Ascii("unit=") + c.unitName + Ascii(" stream="), StreamLabel(c.stream));
    ValidAppend(Ascii("unit=") + c.unitName + Ascii(" stream=") + StreamLabel(c.stream), Ascii(" "));
    ValidAppend(LinePrefix(c), Ascii("stage=sanitizer_failure reason="));
    ValidAppend(LinePrefix(c) + Ascii("stage=sanitizer_failure reason="), FailureLabel(f));
  }

  lemma LabelsAreValid(k: StreamKind, f: PumpFailure)
    ensures Valid(StreamLabel(k)) && Valid(FailureLabel(f))
  {
    hide Valid, Ascii;
    AsciiIsValid("stdout");
    AsciiIsValid("stderr");
    AsciiIsValid("invalid_utf8");
    AsciiIsValid("record_too_long");
    AsciiIsValid("pipe_read_failure");
    AsciiIsValid("journal_write_failure");
  }

  /** The first failure is reported: a last line, whether or not it is accepted, and one message. */
  method ReportPumpFailure(writer: Writer, c: Config, failure: PumpFailure, sink: FailureSink, reported: bool)
    returns (nowReported: bool)
    requires WellFormed(c)
    modifies writer, sink
    ensures nowReported
    ensures reported ==>
              && writer.attempts == old(writer.attempts)
              && sink.sent == old(sink.sent) && sink.failed == old(sink.failed)
    ensures !reported ==>
              && writer.attempts == old(writer.attempts) + [FailureLine(c, failure)]
              && sink.sent == old(sink.sent) + [failure] && sink.failed
  {
    hide FailureMessage, Valid, Sanitizer.Sanitize, Sanitizer.AllValid;
    if reported {
      return true;
    }
    sink.failed := true;
    MessageIsValid(c, failure);
    var safe := Sanitizer.SanitizeRecord(FailureMessage(c, failure), c.secrets);
    var _ := writer.WriteLine(safe + [NEWLINE]);
    sink.sent := sink.sent + [failure];
    return true;
  }

  /** Where the journal and the failure channel stood when the pump started. */
  datatype Origin = Origin(accepts: nat -> bool, attempts: seq<Bytes>, sent: seq<PumpFailure>, failed: bool)

  /** The journal and the channel hold what the lines so far and the first refusal make of them. */
  ghost predicate Written(o: Origin, c: Config, lines: seq<Bytes>, reported: bool, writer: Writer, sink: FailureSink)
    reads writer, sink
  {
    var r := Reported(c, lines, o.accepts, |o.attempts|, false);
    && writer.accepts == o.accepts
    && writer.attempts == o.attempts + r.written
    && sink.sent == o.sent + r.sent
    && sink.failed == (o.failed || reported)
    && reported == (r.sent != [])
  }

  /** The record buffer holds the rest of the stream since the last newline, unless it got too long. */
  predicate Buffered(s: Bytes, record: Bytes, discarding: bool, reported: bool) {
    && |record| <= MAX_RECORD_BYTES
    && (!reported ==> discarding == (|Rest(s)| > MAX_RECORD_BYTES) && record == if discarding then [] else Rest(s))
  }

  lemma ReportedStep(c: Config, lines: seq<Bytes>, line: Bytes, accepts: nat -> bool, from: nat)
    requires Reported(c, lines, accepts, from, false).sent == []
    ensures Reported(c, lines, accepts, from, false).written == lines
    ensures Reported(c, lines + [line], accepts, from, false)
            == if accepts(from + |lines|) then Report(lines + [line], [])
               else Report(lines + [line] + [FailureLine(c, JournalWriteFailure)], [JournalWriteFailure])
  {
    hide FailureLine;
    assert (lines + [line])[..|lines| + 1] == lines + [line];
  }

  /** After a line has been attempted, its refusal, if any, is reported. */
  method Conclude(writer: Writer, c: Config, sink: FailureSink, failure: Option<PumpFailure>,
                  ghost o: Origin, ghost lines: seq<Bytes>, ghost line: Bytes)
    returns (reported: bool)
    requires WellFormed(c)
    requires Reported(c, lines, o.accepts, |o.attempts|, false).sent == []
    requires writer.accepts == o.accepts && writer.attempts == o.attempts + lines + [line]
    requires sink.sent == o.sent && sink.failed == o.failed
    requires failure == if o.accepts(|o.attempts + lines|) then None else Some(JournalWriteFailure)
    modifies writer, sink
    ensures Written(o, c, lines + [line], reported, writer, sink)
  {
    hide Reported, FailureLine, WellFormed;
    ReportedStep(c, lines, line, o.accepts, |o.attempts|);
    reported := false;
    if failure.Some? {
      reported := ReportPumpFailure(writer, c, failure.value, sink, false);
    }
  }

  method ConsumeByte(byte: Byte, record: Bytes, discarding: bool, reported: bool,
                     writer: Writer, c: Config, sink: FailureSink, ghost o: Origin, ghost s: Bytes)
    returns (newRecord: Bytes, nowDiscarding: bool, nowReported: bool)
    requires WellFormed(c) && Buffered(s, record, discarding, reported)
    requires Written(o, c, Due(c, s), reported, writer, sink)
    modifies writer, sink
    ensures Buffered(s + [byte], newRecord, nowDiscarding, nowReported)
    ensures Written(o, c, Due(c, s + [byte]), nowReported, writer, sink)
  {
    hide WellFormed, Due, Rest, Line, Notice, Reported, FailureLine;
    newRecord, nowDiscarding, nowReported := record, discarding, reported;
    DueStep(c, s, byte);
    DueGrows(c, s, byte, o.accepts, |o.attempts|);
    NotReported(c, Due(c, s), o.accepts, |o.attempts|);
    if byte == NEWLINE {
      if !discarding && !reported {
        var failure := EmitRecordOrDiscard(writer, record, c);
        nowReported := Conclude(writer, c, sink, failure, o, Due(c, s), Line(c, record));
      }
      newRecord := [];
      nowDiscarding := false;
      return;
    }
    if reported || discarding {
      return;
    }
    if |record| == MAX_RECORD_BYTES {
      newRecord := [];
      nowDiscarding := true;
      var failure := EmitDiscardedRecord(writer, c, RecordTooLong);
      nowReported := Conclude(writer, c, sink, failure, o, Due(c, s), Notice(c, RecordTooLong));
      return;
    }
    newRecord := record + [byte];
  }

  lemma NotReported(c: Config, lines: seq<Bytes>, accepts: nat -> bool, from: nat)
    ensures Reported(c, lines, accepts, from, false).sent == [] ==>
            Reported(c, lines, accepts, from, false).written == lines
  {
    hide FailureLine;
  }

  lemma DueGrows(c: Config, s: Bytes, b: Byte, accepts: nat -> bool, from: nat)
    ensures Reported(c, Due(c, s), accepts, from, false).sent != [] ==>
              Reported(c, Due(c, s + [b]), accepts, from, false) == Reported(c, Due(c, s), accepts, from, false)
  {
    hide FailureLine, Due, Rest, Line, Notice;
    DueStep(c, s, b);
    if Due(c, s + [b]) != Due(c, s) && Reported(c, Due(c, s), accepts, from, false).sent != [] {
      var more := Due(c, s + [b])[|Due(c, s)|..];
      assert Due(c, s + [b]) == Due(c, s) + more;
      RefusalIsFinal(c, Due(c, s), more, accepts, from, false);
    }
  }

  method ConsumeChunk(chunk: Bytes, record: Bytes, discarding: bool, reported: bool,
                      writer: Writer, c: Config, sink: FailureSink, ghost o: Origin, ghost s: Bytes)
    returns (newRecord: Bytes, nowDiscarding: bool, nowReported: bool)
    requires WellFormed(c) && Buffered(s, record, discarding, reported)
    requires Written(o, c, Due(c, s), reported, writer, sink)
    modifies writer, sink
    ensures Buffered(s + chunk, newRecord, nowDiscarding, nowReported)
    ensures Written(o, c, Due(c, s + chunk), nowReported, writer, sink)
  {
    hide WellFormed, Due, Rest, Reported, Buffered, Written;
    newRecord, nowDiscarding, nowReported := record, discarding, reported;
    assert s + chunk[..0] == s;
    for k := 0 to |chunk|
      invariant Buffered(s + chunk[..k], newRecord, nowDiscarding, nowReported)
      invariant Written(o, c, Due(c, s + chunk[..k]), nowReported, writer, sink)
    {
      newRecord, nowDiscarding, nowReported :=
        ConsumeByte(chunk[k], newRecord, nowDiscarding, nowReported, writer, c, sink, o, s + chunk[..k]);
      assert s + chunk[..k] + [chunk[k]] == s + chunk[..k + 1];
    }
    assert chunk[..|chunk|] == chunk;
  }

  lemma PumpStart(c: Config, accepts: nat -> bool, from: nat)
    ensures Reported(c, Due(c, []), accepts, from, false) == Report([], []) && Rest([]) == []
  {
    assert Due(c, []) == [];
  }

  lemma NextRead(script: seq<Read>, s: Bytes)
    requires script != []
    ensures script[0].Data? ==> s + Content(script) == s + script[0].bytes + Content(script[1..])
    ensures script[0].Interrupted? ==> Content(script) == Content(script[1..])
    ensures script[0].Failed? ==> Content(script) == []
    ensures Broken(script) == (script[0].Failed? || Broken(script[1..]))
  {
  }

  lemma BrokenEnd(c: Config, s: Bytes, accepts: nat -> bool, from: nat)
    ensures var r := Reported(c, Due(c, s), accepts, from, false);
            Pumped(c, s, true, accepts, from)
            == if r.sent != [] then r else Report(r.written + [FailureLine(c, ReadFailure)], [ReadFailure])
  {
    hide FailureLine, Due;
    assert Due(c, s) + [] == Due(c, s);
  }

  lemma NormalEnd(c: Config, s: Bytes, accepts: nat -> bool, from: nat)
    ensures Pumped(c, s, false, accepts, from) == Reported(c, Due(c, s) + DueAtEnd(c, s), accepts, from, false)
    ensures DueAtEnd(c, s) == [] || Reported(c, Due(c, s), accepts, from, false).sent != [] ==>
              Pumped(c, s, false, accepts, from) == Reported(c, Due(c, s), accepts, from, false)
  {
    hide FailureLine, Due, DueAtEnd;
    if DueAtEnd(c, s) == [] {
      assert Due(c, s) + [] == Due(c, s);
    } else if Reported(c, Due(c, s), accepts, from, false).sent != [] {
      RefusalIsFinal(c, Due(c, s), DueAtEnd(c, s), accepts, from, false);
    }
  }

  /** What is left of the record at the end of the stream. */
  method FlushRecord(writer: Writer, c: Config, sink: FailureSink, record: Bytes, discarding: bool, reported: bool,
                     ghost o: Origin, ghost s: Bytes)
    requires WellFormed(c) && Buffered(s, record, discarding, reported)
    requires Written(o, c, Due(c, s), reported, writer, sink)
    modifies writer, sink
    ensures var r := Pumped(c, s, false, o.accepts, |o.attempts|);
            && writer.attempts == o.attempts + r.written
            && sink.sent == o.sent + r.sent && sink.failed == (o.failed || r.sent != [])
  {
    hide WellFormed, Due, Rest, Line, Reported, FailureLine, Pumped;
    NormalEnd(c, s, o.accepts, |o.attempts|);
    NotReported(c, Due(c, s), o.accepts, |o.attempts|);
    if !reported && !discarding && record != [] {
      var failure := EmitRecordOrDiscard(writer, record, c);
      var _ := Conclude(writer, c, sink, failure, o, Due(c, s), Line(c, record));
    }
  }

  method PumpStream(reader: Reader, writer: Writer, c: Config, sink: FailureSink) returns (outcome: PumpOutcome)
    requires WellFormed(c) && Readable(reader.script)
    modifies reader, writer, sink
    ensures var script := old(reader.script);
            var r := Pumped(c, Content(script), Broken(script), writer.accepts, |old(writer.attempts)|);
            && writer.attempts == old(writer.attempts) + r.written
            && sink.sent == old(sink.sent) + r.sent
            && sink.failed == (old(sink.failed) || r.sent != [])
            && outcome == (if Broken(script) then BrokenStream else EndOfStream)
            && (!Broken(script) ==> reader.script == [])
  {
    hide WellFormed, Due, Reported, FailureLine, Pumped, Content, Broken, Rest;
    ghost var script := reader.script;
    ghost var o := Origin(writer.accepts, writer.attempts, sink.sent, sink.failed);
    ghost var s: Bytes := [];
    var record: Bytes, discarding, reported := [], false, false;
    var chunk := new Byte[CHUNK](_ => 0);
    PumpStart(c, o.accepts, |o.attempts|);
    while true
      invariant fresh(chunk) && chunk.Length == CHUNK && Readable(reader.script)
      invariant Buffered(s, record, discarding, reported)
      invariant Written(o, c, Due(c, s), reported, writer, sink)
      invariant s + Content(reader.script) == Content(script) && Broken(reader.script) == Broken(script)
      decreases |reader.script|
    {
      ghost var before := reader.script;
      if before != [] {
        NextRead(before, s);
      }
      var r := reader.Read(chunk);
      if r.ReadError? {
        if r.interrupted {
          continue;
        }
        BrokenEnd(c, s, o.accepts, |o.attempts|);
        NotReported(c, Due(c, s), o.accepts, |o.attempts|);
        assert s + [] == s;
        reported := ReportPumpFailure(writer, c, ReadFailure, sink, reported);
        return BrokenStream;
      }
      if r.n == 0 {
        break;
      }
      record, discarding, reported := ConsumeChunk(chunk[..r.n], record, discarding, reported, writer, c, sink, o, s);
      s := s + chunk[..r.n];
    }
    EmptyScript();
    assert s + [] == s;
    FlushRecord(writer, c, sink, record, discarding, reported, o, s);
    return EndOfStream;
  }

  lemma EmptyScript()
    ensures Content([]) == [] && !Broken([])
  {
  }
}
