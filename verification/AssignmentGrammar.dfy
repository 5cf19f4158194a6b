/**
 The assignment pass stated as a grammar of the record, apart from the functions that compute it.

 A record is read from left to right as bytes that are no key bytes, words (maximal runs of key
 bytes), and assignments: a word that contains one of nine names in any case, a gap with an equals
 sign or a colon, and a value. `Reading` says what each segment may be where it stands; the pass
 shows every segment unchanged but for the values of assignments.
 */
module AssignmentGrammar {
  import opened Basics
  import opened Text
  import opened Masking
  import opened RecordGrammar
  import AssignmentRedaction

  datatype Segment =
    | Other(b: Byte)
    | Word(key: Bytes)
    | Assigned(key: Bytes, gap: Bytes, value: Bytes, mask: Bytes)

  function Source(seg: Segment): Bytes {
    match seg
    case Other(b) => [b]
    case Word(key) => key
    case Assigned(key, gap, value, _) => key + gap + value
  }

  function Shown(seg: Segment): Bytes {
    match seg
    case Other(b) => [b]
    case Word(key) => key
    case Assigned(key, gap, _, mask) => key + gap + mask
  }

  function ShownAll(segs: seq<Segment>): Bytes {
    if segs == [] then [] else Shown(segs[0]) + ShownAll(segs[1..])
  }

  // ---------------------------------------------------------------- what the segments may be

  predicate SensitiveName(key: Bytes) {
    || Names(key, "token") || Names(key, "secret") || Names(key, "password") || Names(key, "passwd")
    || Names(key, "api_key") || Names(key, "api-key") || Names(key, "credential")
    || Names(key, "authorization") || Names(key, "cookie")
  }

  /** A maximal run of key bytes. */
  predicate WholeKey(key: Bytes, s: Bytes) {
    && key != [] && key <= s && (forall k :: 0 <= k < |key| ==> KeyByte(key[k]))
    && (|key| < |s| ==> !KeyByte(s[|key|]))
  }

  predicate GapParts(gap: Bytes, a: Bytes, q: Bytes, b: Bytes, sign: Byte, c: Bytes) {
    && gap == a + (q + (b + ([sign] + c)))
    && Blanks(a) && Blanks(b) && Blanks(c) && (q == [] || (|q| == 1 && Quote(q[0])))
    && (sign as char == '=' || sign as char == ':')
  }

  /** Blanks, at most one quote, blanks, an equals sign or a colon, and blanks. */
  ghost predicate Gap(gap: Bytes) {
    exists a: Bytes, q: Bytes, b: Bytes, sign: Byte, c: Bytes :: GapParts(gap, a, q, b, sign, c)
  }

  predicate BearerValue(rest: Bytes) {
    NameAt(rest, "bearer ", 0) && |rest| > 7 && TokenByte(rest[7])
  }

  /** The value at the start of the rest of the record, and what is shown for it. */
  predicate MaskedValue(key: Bytes, rest: Bytes, value: Bytes, mask: Bytes) {
    var marker := Ascii("[REDACTED]");
    var n := |value|;
    && value <= rest
    && if marker <= rest then value == marker && mask == marker
       else if rest != [] && Quote(rest[0]) then
         && n > 0 && (forall k :: 1 <= k < n - 1 ==> value[k] != rest[0])
         && (if n > 1 && value[n - 1] == rest[0] then mask == [rest[0]] + marker + [rest[0]]
             else n == |rest| && mask == [rest[0]] + marker)
       else if BearerValue(rest) then
         && n > 7 && (forall k :: 7 <= k < n ==> TokenByte(value[k])) && (n < |rest| ==> !TokenByte(rest[n]))
         && mask == Ascii("Bearer ") + marker
       else if Names(key, "cookie") || Names(key, "authorization") then value == rest && mask == marker
       else
         && (forall k :: 0 <= k < n ==> !EndsValue(value[k])) && (n < |rest| ==> EndsValue(rest[n]))
         && mask == marker
  }

  /** The segment may stand at the start of s. */
  ghost predicate Stands(seg: Segment, s: Bytes) {
    && Source(seg) <= s
    && match seg
       case Other(b) => !KeyByte(b)
       case Word(key) => WholeKey(key, s) && !(SensitiveName(key) && exists gap :: Gap(gap) && key + gap <= s)
       case Assigned(key, gap, value, mask) =>
         var rest := s[|key + gap|..];
         && WholeKey(key, s) && SensitiveName(key) && Gap(gap) && (rest == [] || !Blank(rest[0]))
         && MaskedValue(key, rest, value, mask)
  }

  /** The segments are a reading of the whole record. */
  ghost predicate Reading(s: Bytes, segs: seq<Segment>)
    decreases |segs|
  {
    if segs == [] then s == []
    else Stands(segs[0], s) && Reading(s[|Source(segs[0])|..], segs[1..])
  }

  // ---------------------------------------------------------------- the grammar's words and the pass's

  lemma NeedleAt(key: Bytes, k: nat, name: string)
    requires k < 9 && LowerName(name) && AssignmentRedaction.Needles()[k] == Ascii(name)
    ensures Names(key, name) <==> Occurs(AssignmentRedaction.Needles()[k], LowerAll(key))
  {
    hide *;
    SameNames(key, name);
  }

  lemma SameSensitive(key: Bytes)
    ensures SensitiveName(key) <==> AssignmentRedaction.Sensitive(key)
  {
    hide Names, Occurs, LowerAll;
    NeedleAt(key, 0, "token");
    NeedleAt(key, 1, "secret");
    NeedleAt(key, 2, "password");
    NeedleAt(key, 3, "passwd");
    NeedleAt(key, 4, "api_key");
    NeedleAt(key, 5, "api-key");
    NeedleAt(key, 6, "credential");
    NeedleAt(key, 7, "authorization");
    NeedleAt(key, 8, "cookie");
    assert |AssignmentRedaction.Needles()| == 9;
  }

  lemma SameWords()
    ensures Ascii("[REDACTED]") == MARKER && Ascii("Bearer ") == BEARER && LowerAll(BEARER) == Ascii("bearer ")
    ensures LowerName("bearer ") && LowerName("cookie") && LowerName("authorization")
  {
  }

  lemma SameBearer(rest: Bytes)
    ensures BearerValue(rest) <==>
            AssignmentRedaction.BearerHead(rest) && Span(rest[7..], IsBearer) > 0
  {
    hide LowerAll, NameAt, TokenByte, IsBearer;
    SameWords();
    SameNameAt(rest, "bearer ", 0);
    SameAll();
    if |rest| >= 7 {
      LowerFront(rest, 7);
      assert |rest| > 7 ==> rest[7..][0] == rest[7];
    }
  }

  // ---------------------------------------------------------------- values

  lemma QuotedMasked(key: Bytes, rest: Bytes, value: Bytes, mask: Bytes)
    requires rest != [] && Quote(rest[0]) && value <= rest
    ensures MaskedValue(key, rest, value, mask) <==>
            |value| == AssignmentRedaction.Value(rest, key).0 && mask == After(AssignmentRedaction.Value(rest, key).1)
  {
    hide Until, Names, Span, IsBearer, TokenByte, BearerValue, AssignmentRedaction.BearerHead, After,
      AssignmentRedaction.TakesWholeRest, EndsValue, AssignmentRedaction.IsValueBoundary;
    SameWords();
    SameBytes(rest[0]);
    var end := 1 + Until(rest[1..], rest[0]);
    AssignmentRedaction.QuotedPieces(rest, end);
    assert AssignmentRedaction.Value(rest, key).1 == AssignmentRedaction.Quoted(rest, end);
    QuoteScan(rest, value, end);
  }

  lemma QuoteScan(rest: Bytes, value: Bytes, end: nat)
    requires rest != [] && value <= rest && end == 1 + Until(rest[1..], rest[0])
    ensures (|value| > 1 && value[|value| - 1] == rest[0] && forall k :: 1 <= k < |value| - 1 ==> value[k] != rest[0])
            <==> end < |rest| && |value| == end + 1
    ensures end == |rest| <==> forall k :: 1 <= k < |rest| ==> rest[k] != rest[0]
    ensures forall k :: 1 <= k < end ==> rest[k] != rest[0]
    ensures end < |rest| ==> rest[end] == rest[0]
  {
    hide Until;
    assert forall k :: 1 <= k < |rest| ==> rest[k] == rest[1..][k - 1];
  }

  lemma BearerMasked(key: Bytes, rest: Bytes, value: Bytes, mask: Bytes)
    requires rest != [] && !Quote(rest[0]) && !(MARKER <= rest) && BearerValue(rest) && value <= rest
    ensures MaskedValue(key, rest, value, mask) <==>
            |value| == AssignmentRedaction.Value(rest, key).0 && mask == After(AssignmentRedaction.Value(rest, key).1)
  {
    hide Span, Names, AssignmentRedaction.BearerHead, After, AssignmentRedaction.Value, TokenByte, IsBearer;
    SameWords();
    SameAll();
    SameBearer(rest);
    AssignmentRedaction.ValueIsToken(rest, key);
    RunIs(rest, 7, |value|, IsBearer);
    assert forall k :: 7 <= k < |value| ==> value[k] == rest[k];
  }

  lemma PlainMasked(key: Bytes, rest: Bytes, value: Bytes, mask: Bytes)
    requires !(rest != [] && Quote(rest[0])) && !(MARKER <= rest) && !BearerValue(rest) && value <= rest
    ensures MaskedValue(key, rest, value, mask) <==>
            |value| == AssignmentRedaction.Value(rest, key).0 && mask == After(AssignmentRedaction.Value(rest, key).1)
  {
    hide Span, Names, AssignmentRedaction.BearerHead, After, AssignmentRedaction.Value, TokenByte, IsBearer,
      BearerValue,
      AssignmentRedaction.IsValueBoundary, EndsValue, Occurs, LowerAll;
    SameWords();
    SameAll();
    SameBearer(rest);
    SameNames(key, "cookie");
    SameNames(key, "authorization");
    if rest == [] {
      AssignmentRedaction.ValueIsMarker(rest, key);
    } else {
      AssignmentRedaction.ValueIsPlain(rest, key);
      RunIs(rest, 0, |value|, AssignmentRedaction.InValue);
      assert rest[0..] == rest;
      assert forall k :: 0 <= k < |value| ==> value[k] == rest[k];
    }
  }

  /** The grammar's value and mask are those of the pass. */
  lemma SameMasked(key: Bytes, rest: Bytes, value: Bytes, mask: Bytes)
    requires value <= rest
    ensures MaskedValue(key, rest, value, mask) <==>
            |value| == AssignmentRedaction.Value(rest, key).0 && mask == After(AssignmentRedaction.Value(rest, key).1)
  {
    hide AssignmentRedaction.Value, After, BearerValue, Quote, Names;
    SameWords();
    if MARKER <= rest {
      AssignmentRedaction.ValueIsMarker(rest, key);
      assert rest[..|MARKER|] == MARKER;
    } else if rest != [] && Quote(rest[0]) {
      QuotedMasked(key, rest, value, mask);
    } else if BearerValue(rest) {
      BearerNotEmpty(rest);
      BearerMasked(key, rest, value, mask);
    } else {
      PlainMasked(key, rest, value, mask);
    }
  }

  lemma BearerNotEmpty(rest: Bytes)
    ensures BearerValue(rest) ==> rest != []
  {
  }

  // ---------------------------------------------------------------- gaps

  lemma {:induction false} SeparatorBehindBlanks(a: Bytes, r: Bytes, quoted: bool)
    requires Blanks(a)
    ensures AssignmentRedaction.Separator(a + r, quoted)
            == AssignmentRedaction.Longer(AssignmentRedaction.Separator(r, quoted), |a|)
    decreases |a|
  {
    hide Blank, IsSpace, AssignmentRedaction.IsQuoteByte;
    if a == [] {
      assert a + r == r;
    } else {
      SameBytes(a[0]);
      assert (a + r)[0] == a[0] && (a + r)[1..] == a[1..] + r;
      SeparatorBehindBlanks(a[1..], r, quoted);
    }
  }

  lemma SeparatorAtSign(sign: Byte, r: Bytes, quoted: bool)
    requires sign as char == '=' || sign as char == ':'
    ensures AssignmentRedaction.Separator([sign] + r, quoted) == Some(1)
  {
  }

  lemma SeparatorAtQuote(q: Byte, r: Bytes)
    requires Quote(q)
    ensures AssignmentRedaction.Separator([q] + r, false)
            == AssignmentRedaction.Longer(AssignmentRedaction.Separator(r, true), 1)
  {
    assert ([q] + r)[1..] == r;
  }

  lemma SeparatorOfSign(b: Bytes, sign: Byte, r: Bytes, quoted: bool)
    requires Blanks(b) && (sign as char == '=' || sign as char == ':')
    ensures AssignmentRedaction.Separator(b + ([sign] + r), quoted) == Some(|b| + 1)
  {
    hide AssignmentRedaction.Separator, Blanks;
    SeparatorBehindBlanks(b, [sign] + r, quoted);
    SeparatorAtSign(sign, r, quoted);
  }

  /** The pass finds the sign of a gap. */
  lemma SeparatorOfGap(a: Bytes, q: Bytes, b: Bytes, sign: Byte, r: Bytes)
    requires Blanks(a) && Blanks(b) && (q == [] || (|q| == 1 && Quote(q[0])))
    requires sign as char == '=' || sign as char == ':'
    ensures AssignmentRedaction.Separator(a + (q + (b + ([sign] + r))), false) == Some(|a| + |q| + |b| + 1)
  {
    hide AssignmentRedaction.Separator, Quote, Blanks;
    var t := b + ([sign] + r);
    SeparatorBehindBlanks(a, q + t, false);
    SeparatorOfSign(b, sign, r, q != []);
    if q == [] {
      assert q + t == t;
    } else {
      assert q == [q[0]];
      SeparatorAtQuote(q[0], t);
    }
  }

  /** What the pass takes for a separator is a gap. */
  lemma {:induction false} PartsOfSeparator(s: Bytes, quoted: bool) returns (a: Bytes, q: Bytes, b: Bytes, sign: Byte)
    requires AssignmentRedaction.Separator(s, quoted).Some?
    ensures var n := AssignmentRedaction.Separator(s, quoted).value;
            GapParts(s[..n], a, q, b, sign, []) && (quoted ==> q == [])
    decreases |s|
  {
    SameBytes(s[0]);
    var n := AssignmentRedaction.Separator(s, quoted).value;
    if IsSpace(s[0]) {
      a, q, b, sign := PartsOfSeparator(s[1..], quoted);
      assert s[..n] == [s[0]] + s[1..][..n - 1];
      assert [s[0]] + (a + (q + (b + ([sign] + [])))) == ([s[0]] + a) + (q + (b + ([sign] + [])));
      a := [s[0]] + a;
    } else if !quoted && AssignmentRedaction.IsQuoteByte(s[0]) {
      a, q, b, sign := PartsOfSeparator(s[1..], true);
      assert s[..n] == [s[0]] + s[1..][..n - 1];
      assert a + (q + (b + ([sign] + []))) == (a + b) + ([sign] + []);
      assert [] + ([s[0]] + ((a + b) + ([sign] + []))) == [s[0]] + ((a + b) + ([sign] + []));
      a, q, b := [], [s[0]], a + b;
    } else {
      a, q, b, sign := [], [], [], s[0];
      assert s[..1] == [s[0]] == [] + ([] + ([] + ([s[0]] + [])));
    }
  }

  // ---------------------------------------------------------------- one segment

  lemma GapShape(a: Bytes, q: Bytes, b: Bytes, sign: Byte, c: Bytes, gap: Bytes, r: Bytes)
    requires GapParts(gap, a, q, b, sign, c)
    ensures var sep := a + (q + (b + ([sign] + [])));
            && sep != [] && !IsKey(sep[0]) && gap == sep + c
            && AssignmentRedaction.Separator(sep + (c + r), false) == Some(|sep|)
  {
    hide AssignmentRedaction.Separator, IsKey;
    SeparatorOfGap(a, q, b, sign, c + r);
    GapRegroup(a, q, b, [sign], c);
    GapRegroup(a, q, b, [sign], c + r);
    FirstOfGap(a, q, b, sign);
  }

  lemma GapRegroup(a: Bytes, q: Bytes, b: Bytes, t: Bytes, r: Bytes)
    ensures a + (q + (b + (t + r))) == a + (q + (b + (t + []))) + r
  {
  }

  lemma FirstOfGap(a: Bytes, q: Bytes, b: Bytes, sign: Byte)
    requires Blanks(a) && Blanks(b) && (q == [] || (|q| == 1 && Quote(q[0])))
    requires sign as char == '=' || sign as char == ':'
    ensures !IsKey((a + (q + (b + ([sign] + []))))[0])
  {
    var t := a + (q + (b + ([sign] + [])));
    assert t[0] == if a != [] then a[0] else if q != [] then q[0] else if b != [] then b[0] else sign;
  }

  /** A gap behind a key makes the pass see an assignment there. */
  lemma GapAssigns(s: Bytes, key: Bytes, gap: Bytes)
    requires WholeKey(key, s) && Gap(gap) && key + gap <= s
    ensures Span(s, IsKey) == |key| && AssignmentRedaction.Separator(s[|key|..], false).Some?
    ensures AssignmentRedaction.Sensitive(key) && (|key + gap| == |s| || !IsSpace(s[|key + gap|])) ==>
              AssignmentRedaction.Assignment(s) == Some(|key + gap|)
  {
    hide AssignmentRedaction.Separator, AssignmentRedaction.Sensitive, AssignmentRedaction.Assignment, Span, KeyByte,
      IsKey, Blank, IsSpace, Quote;
    var a: Bytes, q: Bytes, b: Bytes, sign: Byte, c: Bytes :| GapParts(gap, a, q, b, sign, c);
    var r := s[|key + gap|..];
    var sep := a + (q + (b + ([sign] + [])));
    SameAll();
    GapShape(a, q, b, sign, c, gap, r);
    KeySpan(key, s);
    CutGap(s, key, sep, c, r);
    if AssignmentRedaction.Sensitive(key) && (r == [] || !IsSpace(r[0])) {
      AssignmentRedaction.AssignmentIs(key, sep, c, r);
    }
  }

  lemma CutGap(s: Bytes, key: Bytes, sep: Bytes, c: Bytes, r: Bytes)
    requires key + (sep + c) <= s && r == s[|key + (sep + c)|..]
    ensures s == key + (sep + (c + r)) && s[|key|..] == sep + (c + r)
  {
  }

  lemma KeySpan(key: Bytes, s: Bytes)
    requires WholeKey(key, s)
    ensures Span(s, IsKey) == |key| && IsKey(s[0]) && key == s[..|key|]
  {
    hide KeyByte, IsKey, Span;
    SameAll();
    RunIs(s, 0, |key|, IsKey);
    assert s[0..] == s;
    assert forall k :: 0 <= k < |key| ==> s[k] == key[k];
  }

  lemma WordStands(s: Bytes, key: Bytes)
    requires Stands(Word(key), s)
    ensures s != [] && IsKey(s[0]) && Span(s, IsKey) == |key| && AssignmentRedaction.Assignment(s).None?
  {
    hide AssignmentRedaction.Separator, AssignmentRedaction.Sensitive, Span, SensitiveName, IsKey, KeyByte;
    KeySpan(key, s);
    SameSensitive(key);
    if AssignmentRedaction.Assignment(s).Some? {
      GapFound(s, |key|);
    }
  }

  /** Where the pass sees a separator, the grammar sees a gap. */
  lemma GapFound(s: Bytes, k: nat)
    requires k <= |s| && AssignmentRedaction.Separator(s[k..], false).Some?
    ensures exists gap :: Gap(gap) && s[..k] + gap <= s
  {
    hide AssignmentRedaction.Separator;
    var a, q, b, sign := PartsOfSeparator(s[k..], false);
    var n := AssignmentRedaction.Separator(s[k..], false).value;
    var gap := s[k..][..n];
    assert Gap(gap);
    assert s[..k] + gap == s[..k + n];
  }

  lemma AssignedStands(s: Bytes, seg: Segment)
    requires seg.Assigned? && Stands(seg, s)
    ensures s != [] && IsKey(s[0]) && AssignmentRedaction.Assignment(s).Some?
    ensures var c := AssignmentRedaction.Chunk(s, true); c.0 == |Source(seg)| && After(c.1) == Shown(seg)
  {
    hide AssignmentRedaction.Separator, AssignmentRedaction.Sensitive, AssignmentRedaction.Assignment, Span, KeyByte,
      IsKey, Blank, IsSpace, SensitiveName, MaskedValue, Gap, AssignmentRedaction.Chunk, AssignmentRedaction.Value,
      After, Before, AssignmentRedaction.NoBearer, WholeKey;
    var front := seg.key + seg.gap;
    var rest := s[|front|..];
    SameSensitive(seg.key);
    SameAll();
    KeySpan(seg.key, s);
    assert front <= s;
    GapAssigns(s, seg.key, seg.gap);
    AssignmentRedaction.MaskedChunk(s, true);
    assert s == front + rest;
    assert seg.value <= rest by {
      ValueFollows(s, front, seg.value);
    }
    SameMasked(seg.key, rest, seg.value, seg.mask);
    assert s[..|front|] == front;
  }

  lemma ValueFollows(s: Bytes, front: Bytes, value: Bytes)
    requires front + value <= s
    ensures front <= s && value <= s[|front|..]
  {
  }

  /** What the pass makes of a segment. */
  lemma SegmentStep(s: Bytes, seg: Segment, boundary: bool)
    requires Stands(seg, s) && (boundary || !IsKey(s[0]))
    ensures s != [] && 0 < |Source(seg)| <= |s|
    ensures var rest := s[|Source(seg)|..];
            && AssignmentRedaction.Redacted(s, boundary)
               == Shown(seg) + AssignmentRedaction.Redacted(rest, !IsKey(s[|Source(seg)| - 1]))
            && (!IsKey(s[|Source(seg)| - 1]) || rest == [] || !IsKey(rest[0]))
  {
    hide AssignmentRedaction.Redacted, Span, Gap, MaskedValue, SensitiveName, AssignmentRedaction.Assignment,
      AssignmentRedaction.Chunk, After, Before, KeyByte, IsKey;
    match seg
    case Other(b) =>
      SameBytes(b);
      AssignmentRedaction.CopyStep(s, boundary);
    case Word(key) =>
      WordStands(s, key);
      AssignmentRedaction.KeyStep(s);
      KeyEnds(s);
    case Assigned(key, gap, value, _) =>
      AssignedStands(s, seg);
      AssignmentRedaction.RedactedStep(s, true);
      AssignedEnds(s, seg);
  }

  lemma KeyEnds(s: Bytes)
    ensures Span(s, IsKey) < |s| ==> !IsKey(s[Span(s, IsKey)])
  {
  }

  /** Behind a value no key goes on. */
  lemma AssignedEnds(s: Bytes, seg: Segment)
    requires seg.Assigned? && Stands(seg, s)
    ensures var n := |Source(seg)|; 0 < n <= |s| && (n == |s| || !IsKey(s[n - 1]) || !IsKey(s[n]))
  {
    hide SensitiveName, Gap, WholeKey, Names, BearerValue;
    var front := seg.key + seg.gap;
    var rest := s[|front|..];
    var n := |seg.value|;
    SameWords();
    EndsNoKey();
    assert forall k :: 0 <= k < |rest| ==> rest[k] == s[|front| + k];
    ValueFollows(s, front, seg.value);
    if n == 0 {
      GapEnds(seg.gap);
      assert s[|front| - 1] == front[|front| - 1] == seg.gap[|seg.gap| - 1];
    } else {
      assert s[|front| + n - 1] == seg.value[n - 1];
    }
  }

  lemma EndsNoKey()
    ensures forall b :: EndsValue(b) || Quote(b) || !TokenByte(b) ==> !IsKey(b)
    ensures !IsKey(MARKER[|MARKER| - 1])
  {
  }

  lemma GapEnds(gap: Bytes)
    requires Gap(gap)
    ensures gap != [] && !IsKey(gap[|gap| - 1])
  {
    var a: Bytes, q: Bytes, b: Bytes, sign: Byte, c: Bytes :| GapParts(gap, a, q, b, sign, c);
    SameAll();
    if c == [] {
      assert gap == a + (q + b) + [sign];
    } else {
      assert gap[|gap| - 1] == c[|c| - 1];
    }
  }

  // ---------------------------------------------------------------- the whole record

  /** Every reading of a record shows what the pass makes of it. */
  lemma {:induction false} ReadingShows(s: Bytes, segs: seq<Segment>, boundary: bool)
    requires Reading(s, segs) && (boundary || s == [] || !IsKey(s[0]))
    ensures AssignmentRedaction.Redacted(s, boundary) == ShownAll(segs)
    decreases |segs|
  {
    hide Stands, AssignmentRedaction.Redacted, IsKey, Shown, Source;
    if segs == [] {
      AssignmentRedaction.NothingRedacted(boundary);
    } else {
      NotEmpty(segs[0], s);
      SegmentStep(s, segs[0], boundary);
      var n := |Source(segs[0])|;
      ReadingShows(s[n..], segs[1..], !IsKey(s[n - 1]));
    }
  }

  lemma NotEmpty(seg: Segment, s: Bytes)
    requires Stands(seg, s)
    ensures s != []
  {
    hide Gap, MaskedValue, SensitiveName;
  }

  lemma AssignedFound(s: Bytes) returns (seg: Segment)
    requires AssignmentRedaction.Assignment(s).Some?
    ensures Stands(seg, s)
  {
    hide AssignmentRedaction.Separator, AssignmentRedaction.Sensitive, AssignmentRedaction.Assignment, KeyByte,
      IsKey, Blank, IsSpace, SensitiveName, MaskedValue, AssignmentRedaction.Value, After, Span;
    var v := AssignmentRedaction.Assignment(s).value;
    var key, sep, ws := AssignmentRedaction.AssignmentParts(s);
    var rest := s[v..];
    SameAll();
    SameSensitive(key);
    var a, q, b, sign := PartsOfSeparator(s[|key|..], false);
    GapRegroup(a, q, b, [sign], ws);
    assert GapParts(sep + ws, a, q, b, sign, ws);
    assert Gap(sep + ws);
    var n := AssignmentRedaction.Value(rest, key).0;
    var value, mask := rest[..n], After(AssignmentRedaction.Value(rest, key).1);
    SameMasked(key, rest, value, mask);
    BlanksEnd(s);
    KeyEnds(s);
    seg := Assigned(key, sep + ws, value, mask);
    assert Source(seg) == s[..v + n];
    assert |key + (sep + ws)| == v;
  }

  lemma BlanksEnd(s: Bytes)
    requires AssignmentRedaction.Assignment(s).Some?
    ensures var v := AssignmentRedaction.Assignment(s).value; v < |s| ==> !IsSpace(s[v])
  {
    hide AssignmentRedaction.Separator, AssignmentRedaction.Sensitive, IsSpace, IsKey;
    var k := Span(s, IsKey);
    var n := AssignmentRedaction.Separator(s[k..], false).value;
    var m := Span(s[k + n..], IsSpace);
    assert k + n + m < |s| ==> s[k + n..][m] == s[k + n + m];
  }

  lemma WordFound(s: Bytes) returns (key: Bytes)
    requires s != [] && IsKey(s[0]) && AssignmentRedaction.Assignment(s).None?
    ensures Stands(Word(key), s)
  {
    hide AssignmentRedaction.Separator, AssignmentRedaction.Sensitive, IsKey, KeyByte, SensitiveName, Span, Gap;
    var k := Span(s, IsKey);
    key := s[..k];
    SameAll();
    KeyEnds(s);
    AssignmentRedaction.SpanPositive(s);
    SameSensitive(key);
    if gap :| Gap(gap) && key + gap <= s && SensitiveName(key) {
      GapAssigns(s, key, gap);
    }
  }

  lemma {:induction false} ReadingExists(s: Bytes) returns (segs: seq<Segment>)
    ensures Reading(s, segs)
    decreases |s|
  {
    hide Stands, Gap, KeyByte, IsKey, AssignmentRedaction.Assignment;
    if s == [] {
      segs := [];
    } else {
      var seg := SegmentExists(s);
      SegmentStep(s, seg, true);
      var more := ReadingExists(s[|Source(seg)|..]);
      segs := [seg] + more;
    }
  }

  lemma SegmentExists(s: Bytes) returns (seg: Segment)
    requires s != []
    ensures Stands(seg, s)
  {
    hide Gap, KeyByte, IsKey, AssignmentRedaction.Assignment, WholeKey, SensitiveName, MaskedValue;
    SameBytes(s[0]);
    if !IsKey(s[0]) {
      seg := Other(s[0]);
    } else if AssignmentRedaction.Assignment(s).None? {
      var key := WordFound(s);
      seg := Word(key);
    } else {
      seg := AssignedFound(s);
    }
  }

  /** Every record has a reading, and the pass shows what any reading of it shows. */
  lemma AssignmentsAreMasked(record: Bytes)
    ensures exists segs :: Reading(record, segs)
    ensures forall segs :: Reading(record, segs) ==> AssignmentRedaction.RedactAssignments(record) == ShownAll(segs)
  {
    hide Reading, ShownAll, AssignmentRedaction.Redacted;
    var some := ReadingExists(record);
    forall segs | Reading(record, segs)
      ensures AssignmentRedaction.RedactAssignments(record) == ShownAll(segs)
    {
      ReadingShows(record, segs, true);
    }
  }
}
