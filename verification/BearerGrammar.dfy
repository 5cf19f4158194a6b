/**
 The bearer pass stated as a grammar of the record: the word "bearer" in any case, where no key goes
 on and behind which the record ends or a blank stands, with its blanks and the token behind them;
 every other byte stands for itself.
 */
module BearerGrammar {
  import opened Basics
  import opened Text
  import opened Masking
  import opened RecordGrammar
  import BearerRedaction

  datatype Segment = Other(b: Byte) | Bearer(word: Bytes, blanks: Bytes, token: Bytes)

  function Source(seg: Segment): Bytes {
    match seg
    case Other(b) => [b]
    case Bearer(word, blanks, token) => word + blanks + token
  }

  function Shown(seg: Segment): Bytes {
    match seg
    case Other(b) => [b]
    case Bearer(word, blanks, token) => word + blanks + if token == [] then [] else Ascii("[REDACTED]")
  }

  function ShownAll(segs: seq<Segment>): Bytes {
    if segs == [] then [] else Shown(segs[0]) + ShownAll(segs[1..])
  }

  predicate WordHere(s: Bytes) {
    NameAt(s, "bearer", 0) && (|s| == 6 || Blank(s[6]))
  }

  /** The segment may stand at the start of s; `free` says that no key goes on there. */
  predicate Stands(seg: Segment, s: Bytes, free: bool) {
    && Source(seg) <= s
    && match seg
       case Other(b) => !(free && WordHere(s))
       case Bearer(word, blanks, token) =>
         var rest := s[|word + blanks|..];
         && free && WordHere(s) && |word| == 6 && Blanks(blanks) && (rest == [] || !Blank(rest[0]))
         && (forall k :: 0 <= k < |token| ==> TokenByte(token[k]))
         && (|token| < |rest| ==> !TokenByte(rest[|token|]))
  }

  /** The segments are a reading of the whole record. */
  predicate Reading(s: Bytes, free: bool, segs: seq<Segment>)
    decreases |segs|
  {
    if segs == [] then s == []
    else
      && Stands(segs[0], s, free)
      && var n := |Source(segs[0])|;
         n > 0 && Reading(s[n..], !KeyByte(s[n - 1]), segs[1..])
  }

  lemma SameWord(s: Bytes)
    ensures WordHere(s) <==> BearerRedaction.Word(s)
  {
    hide LowerAll, Blank, IsSpace, NameAt;
    SameNameAt(s, "bearer", 0);
    BearerName();
    SameAll();
    if |s| >= 6 {
      LowerFront(s, 6);
    }
    NameFits(s);
  }

  lemma NameFits(s: Bytes)
    ensures NameAt(s, "bearer", 0) ==> |s| >= 6
  {
  }

  lemma BearerName()
    ensures LowerName("bearer") && LowerAll(BEARER[..6]) == Ascii("bearer") && Ascii("[REDACTED]") == MARKER
  {
  }

  lemma BearerStands(s: Bytes, seg: Segment)
    requires seg.Bearer? && Stands(seg, s, true)
    ensures s != [] && BearerRedaction.Word(s)
    ensures BearerRedaction.Chunk(s, true).0 == |Source(seg)|
    ensures After(BearerRedaction.Chunk(s, true).1) == Shown(seg)
  {
    hide Blank, IsSpace, KeyByte, IsKey, TokenByte, IsBearer, Before, After, Span, BearerRedaction.Word, WordHere,
      BearerRedaction.Chunk;
    var front := seg.word + seg.blanks;
    SameWord(s);
    BearerName();
    BlanksSpan(s, seg);
    TokenSpan(s, seg);
    HeadIs(s, |front|, |seg.token|);
    BearerRedaction.WordStep(s);
    assert s[..|front|] == front;
  }

  lemma BlanksSpan(s: Bytes, seg: Segment)
    requires seg.Bearer? && Stands(seg, s, true)
    ensures 6 <= |seg.word + seg.blanks| <= |s| && |seg.word + seg.blanks| == 6 + Span(s[6..], IsSpace)
  {
    hide Blank, IsSpace, TokenByte, Span, WordHere;
    var n := |seg.word + seg.blanks|;
    SameAll();
    assert forall k :: 6 <= k < n ==> s[k] == seg.blanks[k - 6];
    assert n < |s| ==> s[n..][0] == s[n];
    RunIs(s, 6, n, IsSpace);
  }

  lemma TokenSpan(s: Bytes, seg: Segment)
    requires seg.Bearer? && Stands(seg, s, true)
    ensures |seg.word + seg.blanks| <= |s| && |seg.token| == Span(s[|seg.word + seg.blanks|..], IsBearer)
  {
    hide Blank, TokenByte, IsBearer, Span, WordHere;
    var n, m := |seg.word + seg.blanks|, |seg.token|;
    SameAll();
    assert forall k :: n <= k < n + m ==> s[k] == seg.token[k - n];
    assert n + m < |s| ==> s[n..][m] == s[n + m];
    RunIs(s, n, n + m, IsBearer);
  }

  lemma HeadIs(s: Bytes, h: nat, t: nat)
    requires BearerRedaction.Word(s) && 6 <= h <= |s| && h == 6 + Span(s[6..], IsSpace) && t == Span(s[h..], IsBearer)
    ensures BearerRedaction.HeadLength(s) == h && BearerRedaction.TokenLength(s) == t
  {
    hide Span, IsSpace, IsBearer, BearerRedaction.Word;
  }

  /** What the pass makes of a segment. */
  lemma SegmentStep(s: Bytes, seg: Segment, free: bool)
    requires Stands(seg, s, free)
    ensures var n := |Source(seg)|;
            && 0 < n <= |s|
            && BearerRedaction.Redacted(s, free)
               == Shown(seg) + BearerRedaction.Redacted(s[n..], !IsKey(s[n - 1]))
  {
    hide BearerRedaction.Redacted, BearerRedaction.Word, WordHere, BearerRedaction.Chunk, After, Before, TokenByte,
      Blank, IsKey;
    SameWord(s);
    match seg
    case Other(b) => BearerRedaction.CopyStep(s, free);
    case Bearer(_, _, _) =>
      BearerStands(s, seg);
      BearerRedaction.RedactedStep(s, true);
  }

  /** Every reading of a record shows what the pass makes of it. */
  lemma {:induction false} ReadingShows(s: Bytes, segs: seq<Segment>, free: bool)
    requires Reading(s, free, segs)
    ensures BearerRedaction.Redacted(s, free) == ShownAll(segs)
    decreases |segs|
  {
    hide Stands, BearerRedaction.Redacted, IsKey, KeyByte, Shown, Source;
    if segs == [] {
      BearerRedaction.NothingRedacted(free);
    } else {
      SegmentStep(s, segs[0], free);
      SameAll();
      var n := |Source(segs[0])|;
      ReadingShows(s[n..], segs[1..], !IsKey(s[n - 1]));
    }
  }

  lemma SegmentExists(s: Bytes, free: bool) returns (seg: Segment)
    requires s != []
    ensures Stands(seg, s, free)
  {
    hide Blank, IsSpace, TokenByte, IsBearer, BearerRedaction.Word, WordHere, Span;
    SameWord(s);
    SameAll();
    if free && WordHere(s) {
      var h := BearerRedaction.HeadLength(s);
      var t := BearerRedaction.TokenLength(s);
      TokenEnds(s);
      seg := Bearer(s[..6], s[6..h], s[h..h + t]);
      assert s[..6] + s[6..h] == s[..h];
      assert Source(seg) == s[..h + t];
    } else {
      seg := Other(s[0]);
    }
  }

  lemma TokenEnds(s: Bytes)
    requires BearerRedaction.Word(s)
    ensures var h, t := BearerRedaction.HeadLength(s), BearerRedaction.TokenLength(s);
            && (forall k :: 6 <= k < h ==> IsSpace(s[k])) && (h < |s| ==> !IsSpace(s[h]))
            && (forall k :: h <= k < h + t ==> IsBearer(s[k])) && (h + t < |s| ==> !IsBearer(s[h + t]))
  {
    hide IsSpace, IsBearer, Span, BearerRedaction.Word;
    var h, t := BearerRedaction.HeadLength(s), BearerRedaction.TokenLength(s);
    RunIs(s, 6, h, IsSpace);
    RunIs(s, h, h + t, IsBearer);
  }

  lemma {:induction false} ReadingExists(s: Bytes, free: bool) returns (segs: seq<Segment>)
    ensures Reading(s, free, segs)
    decreases |s|
  {
    hide Stands, KeyByte, IsKey, Source;
    if s == [] {
      segs := [];
    } else {
      var seg := SegmentExists(s, free);
      SegmentStep(s, seg, free);
      var n := |Source(seg)|;
      var more := ReadingExists(s[n..], !KeyByte(s[n - 1]));
      segs := [seg] + more;
      ReadingOn(s, free, seg, more);
    }
  }

  lemma ReadingOn(s: Bytes, free: bool, seg: Segment, more: seq<Segment>)
    requires Stands(seg, s, free)
    requires var n := |Source(seg)|; 0 < n <= |s| && Reading(s[n..], !KeyByte(s[n - 1]), more)
    ensures Reading(s, free, [seg] + more)
  {
    hide Stands, KeyByte, Source;
    assert ([seg] + more)[1..] == more;
  }

  /** Every record has a reading, and the pass shows what any reading of it shows. */
  lemma TokensAreMasked(record: Bytes)
    ensures exists segs :: Reading(record, true, segs)
    ensures forall segs :: Reading(record, true, segs) ==> BearerRedaction.RedactBearer(record) == ShownAll(segs)
  {
    hide Reading, ShownAll, BearerRedaction.Redacted;
    var some := ReadingExists(record, true);
    forall segs | Reading(record, true, segs)
      ensures BearerRedaction.RedactBearer(record) == ShownAll(segs)
    {
      ReadingShows(record, segs, true);
    }
  }
}
