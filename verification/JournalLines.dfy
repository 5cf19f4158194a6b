/**
 What the journal gets to see of a stream: every line a pump writes is the line of one record or the
 line of a failure, and neither shows what the sanitizer has to hide. The lines are spelled out here,
 apart from the functions that build them.
 */
module JournalLines {
  import opened Basics
  import opened Text
  import opened Utf8
  import opened Masking
  import opened OutputPump
  import Sanitizer
  import SecretRemoval
  import SanitizedRecord
  import UriGrammar

  function Prefix(c: Config): Bytes {
    Ascii("unit=") + c.unitName + if c.stream == Stdout then Ascii(" stream=stdout ") else Ascii(" stream=stderr ")
  }

  /** The body is the sanitized text, and shows no secret, no bearer token and no password. */
  ghost predicate Safe(text: Bytes, secrets: seq<Bytes>, body: Bytes) {
    && SanitizedRecord.SanitizedTo(text, secrets, body)
    && (forall secret :: Hidden(secret, secrets) ==> !Occurs(secret, body))
    && SanitizedRecord.NoTokenShown(body)
    && (forall segs :: UriGrammar.Reading(body, segs) ==> SanitizedRecord.PasswordsMarked(segs))
  }

  /** A secret that must not be shown: it cannot overlap the marker or end in the bearer scheme. */
  predicate Hidden(secret: Bytes, secrets: seq<Bytes>) {
    secret in secrets && secret != [] && Apart(secret, Ascii("[REDACTED]")) && !SecretRemoval.EndsInScheme(secret)
  }

  ghost predicate BodyLine(c: Config, record: Bytes, line: Bytes, body: Bytes) {
    line == Prefix(c) + body + Ascii("\n") && Safe(record, c.secrets, body)
  }

  /** The line for a record: a notice if it is too long or not UTF-8, and otherwise its safe body. */
  ghost predicate RecordLine(c: Config, record: Bytes, line: Bytes) {
    if |record| > 16384 then line == Discarded(c, Ascii("record_too_long"))
    else if !Valid(record) then line == Discarded(c, Ascii("invalid_utf8"))
    else exists body :: BodyLine(c, record, line, body)
  }

  function FailureText(c: Config, f: PumpFailure): Bytes {
    var reason := match f
      case InvalidUtf8 => Ascii("invalid_utf8")
      case RecordTooLong => Ascii("record_too_long")
      case ReadFailure => Ascii("pipe_read_failure")
      case JournalWriteFailure => Ascii("journal_write_failure");
    Prefix(c) + Ascii("stage=sanitizer_failure reason=") + reason
  }

  function Discarded(c: Config, reason: Bytes): Bytes {
    Prefix(c) + Ascii("stage=output_record_discarded reason=") + reason + Ascii("\n")
  }

  ghost predicate SafeFailure(c: Config, f: PumpFailure, line: Bytes) {
    exists body :: FailureBody(c, f, line, body)
  }

  ghost predicate FailureBody(c: Config, f: PumpFailure, line: Bytes, body: Bytes) {
    line == body + Ascii("\n") && Safe(FailureText(c, f), c.secrets, body)
  }

  // ---------------------------------------------------------------- the lines of the pump

  lemma MarkerText()
    ensures Ascii("[REDACTED]") == MARKER && Ascii("\n") == [NEWLINE] && MAX_RECORD_BYTES == 16384
  {
  }

  lemma PrefixIs(c: Config)
    ensures LinePrefix(c) == Prefix(c)
  {
    hide *;
    PrefixTails();
    PrefixParts(c);
    Associates(Ascii("unit=") + c.unitName + Ascii(" stream="), StreamLabel(c.stream), Ascii(" "));
    Associates(Ascii("unit=") + c.unitName, Ascii(" stream="), StreamLabel(c.stream) + Ascii(" "));
  }

  lemma PrefixParts(c: Config)
    ensures LinePrefix(c) == Ascii("unit=") + c.unitName + Ascii(" stream=") + StreamLabel(c.stream) + Ascii(" ")
    ensures Prefix(c)
            == Ascii("unit=") + c.unitName
               + if c.stream == Stdout then Ascii(" stream=stdout ") else Ascii(" stream=stderr ")
  {
  }

  lemma PrefixTails()
    ensures Ascii(" stream=") + (StreamLabel(Stdout) + Ascii(" ")) == Ascii(" stream=stdout ")
    ensures Ascii(" stream=") + (StreamLabel(Stderr) + Ascii(" ")) == Ascii(" stream=stderr ")
  {
  }

  lemma NoticeIs(c: Config)
    ensures Notice(c, RecordTooLong) == Discarded(c, Ascii("record_too_long"))
    ensures Notice(c, InvalidUtf8) == Discarded(c, Ascii("invalid_utf8"))
  {
    hide LinePrefix, Prefix;
    PrefixIs(c);
    MarkerText();
  }

  lemma FailureIs(c: Config, f: PumpFailure)
    ensures FailureMessage(c, f) == FailureText(c, f)
  {
    hide LinePrefix, Prefix;
    PrefixIs(c);
  }

  /** The sanitized form of any text is safe. */
  lemma SanitizedIsSafe(text: Bytes, secrets: seq<Bytes>)
    ensures Safe(text, secrets, Sanitizer.Sanitize(text, secrets))
  {
    hide Sanitizer.Sanitize, Occurs, SanitizedRecord.SanitizedTo, SanitizedRecord.NoTokenShown, UriGrammar.Reading,
      SanitizedRecord.PasswordsMarked, Apart, SecretRemoval.EndsInScheme, Ascii;
    var body := Sanitizer.Sanitize(text, secrets);
    MarkerText();
    SanitizedRecord.SanitizeIsRead(text, secrets);
    SanitizedRecord.NoTokenIsLeft(text, secrets);
    forall secret | Hidden(secret, secrets)
      ensures !Occurs(secret, body)
    {
      SecretRemoval.NoSecretSurvives(text, secrets, secret);
    }
    forall segs | UriGrammar.Reading(body, segs)
      ensures SanitizedRecord.PasswordsMarked(segs)
    {
      SanitizedRecord.NoPasswordIsLeft(text, secrets, segs);
    }
  }

  lemma LineIs(c: Config, record: Bytes)
    ensures RecordLine(c, record, Line(c, record))
  {
    hide Safe, Ascii, Valid, LinePrefix, Prefix, Notice, Sanitizer.Sanitize;
    MarkerText();
    PrefixIs(c);
    NoticeIs(c);
    var body := Sanitizer.Sanitize(record, c.secrets);
    SanitizedIsSafe(record, c.secrets);
    assert BodyLine(c, record, Prefix(c) + body + [NEWLINE], body);
  }

  lemma FailureLineIs(c: Config, f: PumpFailure)
    ensures SafeFailure(c, f, FailureLine(c, f))
  {
    hide Safe, Ascii, FailureMessage, FailureText, Sanitizer.Sanitize;
    MarkerText();
    FailureIs(c, f);
    SanitizedIsSafe(FailureText(c, f), c.secrets);
    assert FailureBody(c, f, FailureLine(c, f), Sanitizer.Sanitize(FailureText(c, f), c.secrets));
  }

  /** Which lines are due: one for each piece, in order, up to the last if that is complete. */
  lemma DueLines(c: Config, s: Bytes, broken: bool)
    ensures var lines := Due(c, s) + if broken then [] else DueAtEnd(c, s);
            |lines| <= |Pieces(s)| && forall k :: 0 <= k < |lines| ==> lines[k] == Line(c, Pieces(s)[k])
  {
    hide Line, Notice, Pieces;
    LongLine(c, Rest(s));
    LastPiece(s);
  }

  /**
   How many lines are due: one for each complete record, and one for what follows the last newline if
   it is too long, or if the stream ends there and there is something.
   */
  function DueCount(s: Bytes, broken: bool): nat {
    var last := Pieces(s)[|Pieces(s)| - 1];
    |Pieces(s)| - 1 + if |last| > 16384 || (!broken && last != []) then 1 else 0
  }

  predicate AllAccepted(accepts: nat -> bool, from: nat, n: nat) {
    forall i: nat :: from <= i < from + n ==> accepts(i)
  }

  lemma DueCounted(c: Config, s: Bytes, broken: bool)
    ensures |Due(c, s) + if broken then [] else DueAtEnd(c, s)| == DueCount(s, broken)
  {
    hide Line, Notice, Pieces;
    LastPiece(s);
  }

  /** No failure: every line is due and accepted. A read failure comes behind all of them, too. */
  lemma FailureExactly(c: Config, lines: seq<Bytes>, accepts: nat -> bool, from: nat, broken: bool)
    ensures var r := Reported(c, lines, accepts, from, broken);
            var n := |r.written| - |r.sent|;
            && (r.sent == [] <==> !broken && AllAccepted(accepts, from, |lines|))
            && (r.sent == [ReadFailure] <==> broken && AllAccepted(accepts, from, |lines|))
            && (r.sent == [JournalWriteFailure] <==> !AllAccepted(accepts, from, |lines|))
            && (r.sent == [JournalWriteFailure] ==>
                  1 <= n <= |lines| && AllAccepted(accepts, from, n - 1) && !accepts(from + (n - 1)))
            && (r.sent != [JournalWriteFailure] ==> n == |lines|)
  {
    hide FailureLine, FirstRefused;
    var k := FirstRefused(accepts, from, |lines|);
    if k.Some? {
      assert from <= from + k.value < from + |lines|;
      assert !accepts(from + k.value);
    }
  }

  /**
   Every line a pump writes, whatever the stream and the journal: the lines before a failure are those
   of the first records, in order, and the last line is the failure's if there is one. The journal's
   first refusal ends them, and otherwise there is one for every record.
   */
  lemma WrittenIsSafe(c: Config, s: Bytes, broken: bool, accepts: nat -> bool, from: nat)
    ensures var r := Pumped(c, s, broken, accepts, from);
            var n := |r.written| - |r.sent|;
            var due := DueCount(s, broken);
            && 0 <= n <= |Pieces(s)|
            && (forall k :: 0 <= k < n ==> RecordLine(c, Pieces(s)[k], r.written[k]))
            && |r.sent| <= 1 && (r.sent != [] ==> SafeFailure(c, r.sent[0], r.written[n]))
            && (r.sent == [] <==> !broken && AllAccepted(accepts, from, due))
            && (r.sent == [ReadFailure] <==> broken && AllAccepted(accepts, from, due))
            && (r.sent == [JournalWriteFailure] <==> !AllAccepted(accepts, from, due))
            && (r.sent == [JournalWriteFailure] ==>
                  1 <= n <= due && AllAccepted(accepts, from, n - 1) && !accepts(from + (n - 1)))
            && (r.sent != [JournalWriteFailure] ==> n == due)
  {
    hide *;
    WrittenLines(c, s, broken, accepts, from);
    PumpedIs(c, s, broken, accepts, from);
    DueCounted(c, s, broken);
    FailureExactly(c, Due(c, s) + if broken then [] else DueAtEnd(c, s), accepts, from, broken);
  }

  lemma WrittenLines(c: Config, s: Bytes, broken: bool, accepts: nat -> bool, from: nat)
    ensures var r := Pumped(c, s, broken, accepts, from);
            var n := |r.written| - |r.sent|;
            && 0 <= n <= |Pieces(s)|
            && (forall k :: 0 <= k < n ==> RecordLine(c, Pieces(s)[k], r.written[k]))
            && |r.sent| <= 1 && (r.sent != [] ==> SafeFailure(c, r.sent[0], r.written[n]))
  {
    hide Due, DueAtEnd, Line, FailureLine, Pieces, Pumped, RecordLine, SafeFailure;
    var r := Pumped(c, s, broken, accepts, from);
    var lines := Due(c, s) + if broken then [] else DueAtEnd(c, s);
    DueLines(c, s, broken);
    FailureIsLast(c, s, broken, accepts, from);
    var n := |r.written| - |r.sent|;
    assert r.written[..n] <= lines by {
      assert r.sent == [] ==> r.written[..n] == lines;
    }
    forall k | 0 <= k < n
      ensures RecordLine(c, Pieces(s)[k], r.written[k])
    {
      LineIs(c, Pieces(s)[k]);
      assert r.written[k] == r.written[..n][k] == lines[k];
    }
    if r.sent != [] {
      FailureLineIs(c, r.sent[0]);
    }
  }
}
