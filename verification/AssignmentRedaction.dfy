/**
 `redact_sensitive_assignments`: values assigned to sensitive keys are replaced by a marker.

 `Assign` describes the pass on the rest of a record, given whether a key may start there; the
 methods are the index-driven scanners of the source.
 */
module AssignmentRedaction {
  import opened Basics
  import opened Text
  import opened Utf8
  import opened Masking

  /** White space, or one of , ; ) ] } */
  predicate IsValueBoundary(b: Byte) {
    IsSpace(b) || b == 0x2C || b == 0x3B || b == 0x29 || b == 0x5D || b == 0x7D
  }

  predicate InValue(b: Byte) {
    !IsValueBoundary(b)
  }

  predicate IsQuoteByte(b: Byte) {
    b == 0x27 || b == 0x22
  }

  function Needles(): seq<Bytes> {
    [Ascii("token"), Ascii("secret"), Ascii("password"), Ascii("passwd"), Ascii("api_key"), Ascii("api-key"),
     Ascii("credential"), Ascii("authorization"), Ascii("cookie")]
  }

  /** `has_sensitive_key` */
  predicate Sensitive(key: Bytes) {
    exists k :: 0 <= k < |Needles()| && Occurs(Needles()[k], LowerAll(key))
  }

  predicate TakesWholeRest(key: Bytes) {
    Occurs(Ascii("cookie"), LowerAll(key)) || Occurs(Ascii("authorization"), LowerAll(key))
  }

  /**
   The length of the separator after a key: white space, at most one quote, white space, then `=`
   or `:`. `quoted` says that the quote has been read.
   */
  function Separator(s: Bytes, quoted: bool): (n: Option<nat>)
    ensures n.Some? ==> 1 <= n.value <= |s|
    decreases |s|
  {
    if s == [] then None
    else if IsSpace(s[0]) then Longer(Separator(s[1..], quoted), 1)
    else if !quoted && IsQuoteByte(s[0]) then Longer(Separator(s[1..], true), 1)
    else if s[0] == 0x3D || s[0] == 0x3A then Some(1)
    else None
  }

  function Longer(n: Option<nat>, m: nat): Option<nat> {
    if n.Some? then Some(n.value + m) else None
  }

  predicate BearerHead(s: Bytes) {
    |s| >= 7 && LowerAll(s[..7]) == LowerAll(BEARER)
  }

  /** The pieces a sensitive value becomes, and how many bytes it takes. */
  function Value(s: Bytes, key: Bytes): (r: (nat, seq<Piece>))
    ensures r.0 <= |s|
  {
    if s == [] then (0, [Hidden([], MARKER)])
    else if MARKER <= s then (|MARKER|, [Hidden(MARKER, MARKER)])
    else if IsQuoteByte(s[0]) then
      var end := 1 + Until(s[1..], s[0]);
      if end < |s| then (end + 1, [Kept([s[0]]), Hidden(s[1..end], MARKER), Kept([s[0]])])
      else (end, [Kept([s[0]]), Hidden(s[1..], MARKER)])
    else if BearerHead(s) && Span(s[7..], IsBearer) > 0 then
      var end := 7 + Span(s[7..], IsBearer);
      (end, [Hidden(s[..end], BEARER + MARKER)])
    else if TakesWholeRest(key) then (|s|, [Hidden(s, MARKER)])
    else
      var end := Span(s, InValue);
      (end, [Hidden(s[..end], MARKER)])
  }

  /** Where the value starts, given where the key ends. */
  function AfterKey(s: Bytes, k: nat): (v: Option<nat>)
    requires 1 <= k <= |s|
    ensures v.Some? ==> 1 <= v.value <= |s|
  {
    var sep := Separator(s[k..], false);
    if sep.None? then None
    else Some(k + sep.value + Span(s[k + sep.value..], IsSpace))
  }

  /** Where the value starts if an assignment to a sensitive key starts here. */
  function Assignment(s: Bytes): (v: Option<nat>)
    ensures v.Some? ==> 1 <= v.value <= |s|
  {
    var k := Span(s, IsKey);
    if k == 0 || !Sensitive(s[..k]) then None else AfterKey(s, k)
  }

  /** The first step of the pass: how many bytes it consumes and the pieces it makes of them. */
  function Chunk(s: Bytes, boundary: bool): (c: (nat, seq<Piece>))
    requires s != []
    ensures 1 <= c.0 <= |s|
  {
    if boundary && IsKey(s[0]) then
      var k := Span(s, IsKey);
      var v := Assignment(s);
      if v.None? then (k, [Kept(s[..k])])
      else
        var r := Value(s[v.value..], s[..k]);
        (v.value + r.0, [Kept(s[..v.value])] + r.1)
    else (1, [Kept(s[..1])])
  }

  /** The whole pass; a key may start where the byte before is not a key byte. */
  function Assign(s: Bytes, boundary: bool): seq<Piece>
    decreases |s|
  {
    if s == [] then []
    else
      var c := Chunk(s, boundary);
      c.1 + Assign(s[c.0..], !IsKey(s[c.0 - 1]))
  }

  function Redacted(s: Bytes, boundary: bool): Bytes {
    After(Assign(s, boundary))
  }

  lemma RedactedStep(s: Bytes, boundary: bool)
    requires s != []
    ensures var c := Chunk(s, boundary);
            var flag := !IsKey(s[c.0 - 1]);
            && Before(Assign(s, boundary)) == Before(c.1) + Before(Assign(s[c.0..], flag))
            && Redacted(s, boundary) == After(c.1) + Redacted(s[c.0..], flag)
  {
    hide Chunk, IsKey, Before, After;
    var c := Chunk(s, boundary);
    PiecesAppend(c.1, Assign(s[c.0..], !IsKey(s[c.0 - 1])));
  }

  lemma NothingRedacted(boundary: bool)
    ensures Assign([], boundary) == [] && Before([]) == [] && Redacted([], boundary) == []
  {
  }

  // ---------------------------------------------------------------- nothing else changes

  /** A quoted value: the quotes stay, what is between them is replaced. */
  function Quoted(s: Bytes, end: nat): seq<Piece>
    requires 1 <= end <= |s|
  {
    if end < |s| then [Kept([s[0]]), Hidden(s[1..end], MARKER), Kept([s[0]])]
    else [Kept([s[0]]), Hidden(s[1..], MARKER)]
  }

  lemma QuotedPieces(s: Bytes, end: nat)
    requires 1 <= end <= |s| && (end < |s| ==> s[end] == s[0])
    ensures Before(Quoted(s, end)) == if end < |s| then s[..end + 1] else s
    ensures After(Quoted(s, end)) == if end < |s| then [s[0]] + MARKER + [s[0]] else [s[0]] + MARKER
  {
    hide Before, After;
    var q := Kept([s[0]]);
    QuotedText(s, end);
    if end < |s| {
      var h := Hidden(s[1..end], MARKER);
      assert Quoted(s, end) == [q] + ([h] + [q]);
      OnePiece(q);
      PieceFirst(h, [q]);
      PieceFirst(q, [h] + [q]);
      Associates([s[0]], MARKER, [s[0]]);
    } else {
      var h := Hidden(s[1..], MARKER);
      assert Quoted(s, end) == [q] + [h];
      OnePiece(h);
      PieceFirst(q, [h]);
    }
  }

  lemma QuotedText(s: Bytes, end: nat)
    requires 1 <= end <= |s| && (end < |s| ==> s[end] == s[0])
    ensures s == [s[0]] + s[1..]
    ensures end < |s| ==> s[..end + 1] == [s[0]] + (s[1..end] + [s[0]])
  {
  }

  lemma ValueBefore(s: Bytes, key: Bytes)
    ensures Before(Value(s, key).1) == s[..Value(s, key).0]
  {
    var r := Value(s, key);
    if s != [] && !(MARKER <= s) && IsQuoteByte(s[0]) {
      var end := 1 + Until(s[1..], s[0]);
      QuotedPieces(s, end);
      assert r.1 == Quoted(s, end);
    } else {
      OnePiece(r.1[0]);
      assert r.1 == [r.1[0]];
    }
  }

  /** The replaced value was a bearer token, which is shown behind its scheme. */
  predicate ShowsBearer(p: Piece) {
    p.Hidden? && p.shown == BEARER + MARKER
  }

  predicate NoBearer(pieces: seq<Piece>) {
    forall k :: 0 <= k < |pieces| ==> !ShowsBearer(pieces[k])
  }

  lemma NoBearerAppend(a: seq<Piece>, b: seq<Piece>)
    ensures NoBearer(a + b) <==> NoBearer(a) && NoBearer(b)
  {
    assert forall k :: 0 <= k < |a| ==> (a + b)[k] == a[k];
    assert forall k :: 0 <= k < |b| ==> (a + b)[|a| + k] == b[k];
  }

  /** The step that redacts a value, taken apart. */
  lemma MaskedChunk(s: Bytes, boundary: bool)
    requires s != [] && boundary && IsKey(s[0]) && Assignment(s).Some?
    ensures var v, key := Assignment(s).value, s[..Span(s, IsKey)];
            var r, c := Value(s[v..], key), Chunk(s, boundary);
            && c.0 == v + r.0 && c.1 == [Kept(s[..v])] + r.1
            && Before(c.1) == s[..v] + Before(r.1) && After(c.1) == s[..v] + After(r.1)
            && (NoBearer(c.1) <==> NoBearer(r.1))
  {
    hide Before, After, Value, Assignment, NoBearer;
    var v, key := Assignment(s).value, s[..Span(s, IsKey)];
    var r := Value(s[v..], key);
    PieceFirst(Kept(s[..v]), r.1);
    NoBearerAppend([Kept(s[..v])], r.1);
    KeptIsPlain(s[..v]);
  }

  lemma KeptIsPlain(b: Bytes)
    ensures NoBearer([Kept(b)]) && Before([Kept(b)]) == After([Kept(b)]) == b
  {
    OnePiece(Kept(b));
  }

  lemma ChunkBefore(s: Bytes, boundary: bool)
    requires s != []
    ensures Before(Chunk(s, boundary).1) == s[..Chunk(s, boundary).0]
  {
    hide Before, Assignment, Value;
    if boundary && IsKey(s[0]) && Assignment(s).Some? {
      var v, key := Assignment(s).value, s[..Span(s, IsKey)];
      MaskedChunk(s, boundary);
      ValueBefore(s[v..], key);
      assert s[..v + Value(s[v..], key).0] == s[..v] + s[v..][..Value(s[v..], key).0];
    } else {
      KeptIsPlain(s[..Chunk(s, boundary).0]);
    }
  }

  /** The pass copies every byte outside the replaced values unchanged and in order. */
  lemma {:induction false} AssignCopiesTheRest(s: Bytes, boundary: bool)
    ensures Before(Assign(s, boundary)) == s
    decreases |s|
  {
    hide *;
    if s == [] {
      NothingRedacted(boundary);
    } else {
      var c := Chunk(s, boundary);
      ChunkBefore(s, boundary);
      AssignCopiesTheRest(s[c.0..], !IsKey(s[c.0 - 1]));
      RedactedStep(s, boundary);
      assert s == s[..c.0] + s[c.0..];
    }
  }

  /** A maximal run of key bytes; `boundary` says whether one may begin at the start. */
  predicate KeyRun(s: Bytes, boundary: bool, i: nat, j: nat) {
    && i < j <= |s|
    && (forall k :: i <= k < j ==> IsKey(s[k]))
    && (if i == 0 then boundary else !IsKey(s[i - 1]))
    && (j == |s| || !IsKey(s[j]))
  }

  ghost predicate NoSensitiveRun(s: Bytes, boundary: bool) {
    forall i: nat, j: nat :: KeyRun(s, boundary, i, j) ==> !Sensitive(s[i..j])
  }

  lemma NoSensitiveRunRest(s: Bytes, boundary: bool, n: nat)
    requires 1 <= n <= |s| && NoSensitiveRun(s, boundary)
    ensures NoSensitiveRun(s[n..], !IsKey(s[n - 1]))
  {
    forall i: nat, j: nat | KeyRun(s[n..], !IsKey(s[n - 1]), i, j)
      ensures !Sensitive(s[n..][i..j])
    {
      assert s[n..][i..j] == s[i + n..j + n];
      assert forall k :: i + n <= k < j + n ==> s[k] == s[n..][k - n];
      assert KeyRun(s, boundary, i + n, j + n);
    }
  }

  // ---------------------------------------------------------------- the pass twice

  lemma HeadSame(s: Bytes, boundary: bool)
    ensures Redacted(s, boundary) == [] <==> s == []
    ensures s != [] ==> Redacted(s, boundary)[0] == s[0]
  {
    if s != [] {
      RedactedStep(s, boundary);
      var c := Chunk(s, boundary);
      assert c.1[0].Kept? && c.1[0].bytes != [] && c.1[0].bytes[0] == s[0];
    }
  }

  lemma FlagIrrelevant(s: Bytes, b1: bool, b2: bool)
    requires s == [] || !IsKey(s[0])
    ensures Assign(s, b1) == Assign(s, b2)
  {
  }

  lemma CopyStep(s: Bytes, boundary: bool)
    requires s != [] && !(boundary && IsKey(s[0]))
    ensures Redacted(s, boundary) == [s[0]] + Redacted(s[1..], !IsKey(s[0]))
  {
    RedactedStep(s, boundary);
    assert Chunk(s, boundary).1[1..] == [];
    assert s[..1] == [s[0]];
  }

  /** If no separator follows a key in the record, none follows it in the output. */
  lemma {:induction false} NoSeparatorAfter(s: Bytes, boundary: bool, quoted: bool)
    requires Separator(s, quoted).None?
    ensures Separator(Redacted(s, boundary), quoted).None?
    decreases |s|
  {
    HeadSame(s, boundary);
    if s != [] && (IsSpace(s[0]) || IsQuoteByte(s[0])) {
      CopyStep(s, boundary);
      var out := Redacted(s, boundary);
      assert out[1..] == Redacted(s[1..], !IsKey(s[0]));
      if IsSpace(s[0]) {
        NoSeparatorAfter(s[1..], !IsKey(s[0]), quoted);
      } else if !quoted {
        NoSeparatorAfter(s[1..], !IsKey(s[0]), true);
      }
    }
  }

  lemma {:induction false} SeparatorOfPrefix(s: Bytes, quoted: bool, r: Bytes)
    requires Separator(s, quoted).Some?
    ensures var n := Separator(s, quoted).value; Separator(s[..n] + r, quoted) == Some(n)
    decreases |s|
  {
    var n := Separator(s, quoted).value;
    var t := s[..n] + r;
    if IsSpace(s[0]) || (!quoted && IsQuoteByte(s[0])) {
      var q := quoted || IsQuoteByte(s[0]);
      assert Separator(s[1..], q) == Some(n - 1);
      SeparatorOfPrefix(s[1..], q, r);
      assert t[1..] == s[1..][..n - 1] + r;
    }
  }

  lemma AssignmentFound(s: Bytes, k: nat, n: nat)
    requires 0 < k == Span(s, IsKey) && Sensitive(s[..k]) && Separator(s[k..], false) == Some(n)
    ensures k + n <= |s| && Assignment(s) == Some(k + n + Span(s[k + n..], IsSpace))
  {
    hide Sensitive, Span, Separator, IsKey, IsSpace;
    AfterKeyFound(s, k, n);
  }

  lemma AfterKeyFound(s: Bytes, k: nat, n: nat)
    requires 0 < k <= |s| && Separator(s[k..], false) == Some(n)
    ensures k + n <= |s| && AfterKey(s, k) == Some(k + n + Span(s[k + n..], IsSpace))
  {
    hide Separator, Span, IsSpace;
  }

  /** A sensitive key, a separator and white space make an assignment, whatever the value. */
  lemma AssignmentIs(key: Bytes, sep: Bytes, ws: Bytes, r: Bytes)
    requires key != [] && (forall i :: 0 <= i < |key| ==> IsKey(key[i])) && Sensitive(key)
    requires sep != [] && !IsKey(sep[0]) && Separator(sep + (ws + r), false) == Some(|sep|)
    requires (forall i :: 0 <= i < |ws| ==> IsSpace(ws[i])) && (r == [] || !IsSpace(r[0]))
    ensures var t := key + (sep + (ws + r));
            Span(t, IsKey) == |key| && t[..|key|] == key && Assignment(t) == Some(|key| + |sep| + |ws|)
  {
    hide *;
    var t := key + (sep + (ws + r));
    assert Span(t, IsKey) == |key| by {
      SpanIs(key, sep + (ws + r), IsKey);
    }
    CutTwice(key, sep, ws + r);
    assert Span(ws + r, IsSpace) == |ws| by {
      SpanIs(ws, r, IsSpace);
    }
    AssignmentFound(t, |key|, |sep|);
  }

  lemma AssignmentParts(s: Bytes) returns (key: Bytes, sep: Bytes, ws: Bytes)
    requires Assignment(s).Some?
    ensures s[..Assignment(s).value] == key + (sep + ws)
    ensures key != [] && (forall i :: 0 <= i < |key| ==> IsKey(key[i])) && Sensitive(key)
    ensures |key| == Span(s, IsKey) < |s| && key == s[..|key|]
    ensures sep != [] && !IsKey(sep[0]) && Separator(s[|key|..], false) == Some(|sep|) && s[|key|..][..|sep|] == sep
    ensures forall i :: 0 <= i < |ws| ==> IsSpace(ws[i])
  {
    hide Sensitive, Separator, IsKey, IsSpace;
    var k := Span(s, IsKey);
    key := s[..k];
    var n := Separator(s[k..], false).value;
    sep := s[k..][..n];
    var m := Span(s[k + n..], IsSpace);
    ws := s[k + n..][..m];
    ThreeParts(s, k, n, m);
  }

  lemma ThreeParts(s: Bytes, k: nat, n: nat, m: nat)
    requires k + n + m <= |s|
    ensures s[..k + n + m] == s[..k] + (s[k..][..n] + s[k + n..][..m])
  {
    assert s[..k + n + m] == s[..k] + s[k..k + n + m];
    assert s[k..k + n + m] == s[k..][..n] + s[k + n..][..m];
  }

  lemma {:induction false} SeparatorLast(s: Bytes, quoted: bool)
    requires Separator(s, quoted).Some?
    ensures var b := s[Separator(s, quoted).value - 1]; b == 0x3D || b == 0x3A
    decreases |s|
  {
    if IsSpace(s[0]) {
      SeparatorLast(s[1..], quoted);
    } else if !quoted && IsQuoteByte(s[0]) {
      SeparatorLast(s[1..], true);
    }
  }

  /** The byte before a value is white space or the end of the separator. */
  lemma BeforeValue(s: Bytes)
    requires Assignment(s).Some?
    ensures var b := s[Assignment(s).value - 1]; IsSpace(b) || b == 0x3D || b == 0x3A
  {
    hide Sensitive;
    var k := Span(s, IsKey);
    var n := Separator(s[k..], false).value;
    SeparatorLast(s[k..], false);
    assert s[k..][n - 1] == s[k + n - 1];
    var m := Span(s[k + n..], IsSpace);
    assert m > 0 ==> s[k + n..][m - 1] == s[k + n + m - 1];
  }

  /** The key, separator and white space before a value determine where the value starts. */
  lemma AssignmentOfPrefix(s: Bytes, r: Bytes)
    requires Assignment(s).Some? && r != [] && !IsSpace(r[0])
    ensures var v := Assignment(s).value;
            && Span(s[..v] + r, IsKey) == Span(s, IsKey) < v
            && (s[..v] + r)[..Span(s, IsKey)] == s[..Span(s, IsKey)]
            && Assignment(s[..v] + r) == Some(v)
  {
    hide *;
    var key, sep, ws := AssignmentParts(s);
    SeparatorOfPrefix(s[|key|..], false, ws + r);
    AssignmentIs(key, sep, ws, r);
    Regroup(key, sep, ws, r);
  }

  lemma Regroup(a: Bytes, b: Bytes, c: Bytes, d: Bytes)
    ensures a + (b + c) + d == a + (b + (c + d))
  {
  }

  /** What a value that is not a bearer token becomes. */
  lemma ShownValue(s: Bytes, key: Bytes)
    requires NoBearer(Value(s, key).1)
    ensures var shown := After(Value(s, key).1);
            || shown == MARKER
            || (s != [] && IsQuoteByte(s[0]) && shown == [s[0]] + MARKER + [s[0]])
            || (s != [] && IsQuoteByte(s[0]) && Value(s, key).0 == |s| && shown == [s[0]] + MARKER)
  {
    hide After, TakesWholeRest, BearerHead;
    var r := Value(s, key);
    if s != [] && !(MARKER <= s) && IsQuoteByte(s[0]) {
      var end := 1 + Until(s[1..], s[0]);
      QuotedPieces(s, end);
      assert r.1 == Quoted(s, end);
    } else {
      assert !ShowsBearer(r.1[0]);
      assert r.1 == [r.1[0]] && Seen(r.1[0]) == MARKER;
      OnePiece(r.1[0]);
    }
  }

  /** A replaced value is replaced by itself, and ends where a key may start. */
  lemma ValueTwice(s: Bytes, key: Bytes, rest: Bytes)
    requires NoBearer(Value(s, key).1) && (Value(s, key).0 == |s| ==> rest == [])
    ensures var shown := After(Value(s, key).1);
            && shown != [] && !IsSpace(shown[0]) && !IsKey(shown[|shown| - 1])
            && Value(shown + rest, key).0 == |shown|
            && After(Value(shown + rest, key).1) == shown
            && NoBearer(Value(shown + rest, key).1)
  {
    hide *;
    ShownValue(s, key);
    var shown := After(Value(s, key).1);
    if shown == MARKER {
      MarkerTwice(rest, key);
    } else {
      QuotedTwice(s[0], shown == [s[0]] + MARKER + [s[0]], rest, key);
      assert [s[0]] + MARKER + [] == [s[0]] + MARKER;
      QuoteIsPlain(s[0]);
      MarkerIsPlain();
    }
  }

  lemma QuoteIsPlain(q: Byte)
    requires IsQuoteByte(q)
    ensures !IsSpace(q) && !IsKey(q)
  {
  }

  lemma MarkerIsPlain()
    ensures MARKER != [] && !IsSpace(MARKER[0]) && !IsKey(MARKER[|MARKER| - 1])
  {
  }

  lemma MarkerTwice(rest: Bytes, key: Bytes)
    ensures Value(MARKER + rest, key) == (|MARKER|, [Hidden(MARKER, MARKER)])
    ensures After(Value(MARKER + rest, key).1) == MARKER && NoBearer(Value(MARKER + rest, key).1)
    ensures MARKER != [] && !IsSpace(MARKER[0]) && !IsKey(MARKER[|MARKER| - 1])
  {
    hide TakesWholeRest, BearerHead, Span, Until, After;
    assert MARKER <= MARKER + rest;
    OnePiece(Hidden(MARKER, MARKER));
  }

  lemma QuotedTwice(q: Byte, closed: bool, rest: Bytes, key: Bytes)
    requires IsQuoteByte(q) && (!closed ==> rest == [])
    ensures var shown := [q] + MARKER + if closed then [q] else [];
            && Value(shown + rest, key).0 == |shown|
            && After(Value(shown + rest, key).1) == shown
            && NoBearer(Value(shown + rest, key).1)
  {
    var shown := [q] + MARKER + if closed then [q] else [];
    var after := (if closed then [q] else []) + rest;
    var t := shown + rest;
    assert t == [q] + (MARKER + after);
    QuotedValue(q, after, key);
    QuotedPieces(t, 11);
  }

  lemma QuotedValue(q: Byte, after: Bytes, key: Bytes)
    requires IsQuoteByte(q) && (after == [] || after[0] == q)
    ensures var t := [q] + (MARKER + after);
            && t[0] == q && (11 < |t| ==> t[11] == q)
            && Value(t, key) == (if 11 < |t| then 12 else 11, Quoted(t, 11))
            && NoBearer(Quoted(t, 11))
  {
    var t := [q] + (MARKER + after);
    assert t[0] != MARKER[0];
    assert t[1..] == MARKER + after;
    UntilIs(MARKER, q, after);
  }

  /** Where a value ends, either a non-key byte follows or the value's last byte is not a key byte. */
  lemma ValueEnd(s: Bytes, key: Bytes)
    ensures var n := Value(s, key).0; n == |s| || !IsKey(s[n]) || (n > 0 && !IsKey(s[n - 1]))
  {
    if BearerHead(s) && Span(s[7..], IsBearer) > 0 {
      var t := Span(s[7..], IsBearer);
      assert t < |s[7..]| ==> s[7..][t] == s[7 + t];
    }
  }

  /** The steps that only copy: one byte, or a whole key that is not assigned to. */
  lemma PlainChunk(s: Bytes, boundary: bool)
    requires s != [] && !(boundary && IsKey(s[0]) && Assignment(s).Some?)
    ensures var c := Chunk(s, boundary);
            && After(c.1) == s[..c.0] && NoBearer(c.1)
            && c.0 == if boundary && IsKey(s[0]) then Span(s, IsKey) else 1
  {
    hide After, Span, Assignment, NoBearer;
    KeptIsPlain(s[..Chunk(s, boundary).0]);
  }

  /** The first step on the output repeats the first step on the record. */
  lemma ChunkTwice(s: Bytes, boundary: bool)
    requires s != [] && NoBearer(Chunk(s, boundary).1)
    ensures var c := Chunk(s, boundary);
            var shown, rest := After(c.1), Redacted(s[c.0..], !IsKey(s[c.0 - 1]));
            && shown != []
            && Chunk(shown + rest, boundary).0 == |shown| && After(Chunk(shown + rest, boundary).1) == shown
            && (s[c.0..] == [] || !IsKey(s[c.0]) || IsKey(s[c.0 - 1]) == IsKey(shown[|shown| - 1]))
  {
    hide *;
    var c := Chunk(s, boundary);
    var rest := Redacted(s[c.0..], !IsKey(s[c.0 - 1]));
    HeadSame(s[c.0..], !IsKey(s[c.0 - 1]));
    if !(boundary && IsKey(s[0])) {
      PlainChunk(s, boundary);
      CopiedTwice(s, boundary, rest);
    } else if Assignment(s).None? {
      PlainChunk(s, boundary);
      KeyTwice(s, rest);
    } else {
      MaskedTwice(s, rest);
    }
  }

  lemma CopiedTwice(s: Bytes, boundary: bool, rest: Bytes)
    requires s != [] && !(boundary && IsKey(s[0]))
    ensures Chunk(s[..1] + rest, boundary).0 == 1 && After(Chunk(s[..1] + rest, boundary).1) == s[..1]
  {
    assert (s[..1] + rest)[..1] == s[..1];
    KeptIsPlain(s[..1]);
  }

  lemma KeyTwice(s: Bytes, rest: Bytes)
    requires s != [] && IsKey(s[0]) && Assignment(s).None?
    requires rest == Redacted(s[Span(s, IsKey)..], false)
    ensures var key := s[..Span(s, IsKey)];
            key != [] && IsKey(key[|key| - 1]) && Chunk(key + rest, true).0 == |key|
              && After(Chunk(key + rest, true).1) == key
  {
    var k := Span(s, IsKey);
    var key, out := s[..k], s[..k] + rest;
    HeadSame(s[k..], false);
    SpanIs(key, rest, IsKey);
    assert out[..k] == key && out[k..] == rest;
    if Sensitive(key) {
      NoSeparatorAfter(s[k..], false, false);
    }
    assert Assignment(out).None?;
    KeptIsPlain(key);
  }

  lemma MaskedTwice(s: Bytes, rest: Bytes)
    requires s != [] && IsKey(s[0]) && Assignment(s).Some? && NoBearer(Chunk(s, true).1)
    requires s[Chunk(s, true).0..] == [] ==> rest == []
    ensures var c := Chunk(s, true);
            var shown := After(c.1);
            && shown != [] && !IsKey(shown[|shown| - 1])
            && Chunk(shown + rest, true).0 == |shown| && After(Chunk(shown + rest, true).1) == shown
            && (s[c.0..] == [] || !IsKey(s[c.0]) || !IsKey(s[c.0 - 1]))
  {
    hide Value, Assignment, After, NoBearer, Chunk;
    var v, key := Assignment(s).value, s[..Span(s, IsKey)];
    var r := Value(s[v..], key);
    MaskedChunk(s, true);
    ValueTwice(s[v..], key, rest);
    BeforeValue(s);
    ValueEndInRecord(s, v, key);
    var x := After(r.1);
    var out := s[..v] + x + rest;
    assert out == s[..v] + (x + rest);
    AssignmentOfPrefix(s, x + rest);
    assert out[..v] == s[..v] && out[v..] == x + rest && IsKey(out[0]);
    MaskedChunk(out, true);
  }

  lemma ValueEndInRecord(s: Bytes, v: nat, key: Bytes)
    requires 1 <= v <= |s| && !IsKey(s[v - 1])
    ensures var end := v + Value(s[v..], key).0;
            s[end..] == [] || !IsKey(s[end]) || !IsKey(s[end - 1])
  {
    ValueEnd(s[v..], key);
    var n := Value(s[v..], key).0;
    assert n < |s[v..]| ==> s[v..][n] == s[v + n];
    assert n > 0 ==> s[v..][n - 1] == s[v + n - 1];
  }

  /** A record in which no bearer token is replaced is left alone by a second pass. */
  lemma {:induction false} RedactTwice(s: Bytes, boundary: bool)
    requires NoBearer(Assign(s, boundary))
    ensures Redacted(Redacted(s, boundary), boundary) == Redacted(s, boundary)
    decreases |s|
  {
    hide *;
    if s == [] {
      NothingRedacted(boundary);
    } else {
      var c := Chunk(s, boundary);
      var flag := !IsKey(s[c.0 - 1]);
      NoBearerStep(s, boundary);
      RedactTwice(s[c.0..], flag);
      SecondPassStep(s, boundary);
    }
  }

  lemma NoBearerStep(s: Bytes, boundary: bool)
    requires s != []
    ensures var c := Chunk(s, boundary);
            NoBearer(Assign(s, boundary)) <==> NoBearer(c.1) && NoBearer(Assign(s[c.0..], !IsKey(s[c.0 - 1])))
  {
    hide Chunk, IsKey, NoBearer;
    var c := Chunk(s, boundary);
    NoBearerAppend(c.1, Assign(s[c.0..], !IsKey(s[c.0 - 1])));
  }

  /** The second pass repeats the first step and goes on with the rest of the output. */
  lemma SecondPassStep(s: Bytes, boundary: bool)
    requires s != [] && NoBearer(Chunk(s, boundary).1)
    ensures var c := Chunk(s, boundary);
            var flag := !IsKey(s[c.0 - 1]);
            var rest := Redacted(s[c.0..], flag);
            && Redacted(s, boundary) == After(c.1) + rest
            && Redacted(Redacted(s, boundary), boundary) == After(c.1) + Redacted(rest, flag)
  {
    hide *;
    var c := Chunk(s, boundary);
    var flag := !IsKey(s[c.0 - 1]);
    var shown, rest := After(c.1), Redacted(s[c.0..], flag);
    RedactedStep(s, boundary);
    ChunkTwice(s, boundary);
    HeadSame(s[c.0..], flag);
    var out := shown + rest;
    RedactedStep(out, boundary);
    assert out[|shown|..] == rest && out[|shown| - 1] == shown[|shown| - 1];
    if flag != !IsKey(shown[|shown| - 1]) {
      FlagDoesNotMatter(rest, flag);
    }
  }

  lemma FlagDoesNotMatter(s: Bytes, flag: bool)
    requires s == [] || !IsKey(s[0])
    ensures Redacted(s, flag) == Redacted(s, !flag)
  {
    FlagIrrelevant(s, flag, !flag);
  }

  /** A bearer token that was replaced is replaced again, scheme and all. */
  lemma {:induction false} BearerNotFixed(s: Bytes, boundary: bool)
    requires !NoBearer(Assign(s, boundary))
    ensures Redacted(Redacted(s, boundary), boundary) != Redacted(s, boundary)
    decreases |s|
  {
    hide *;
    NothingRedacted(boundary);
    NothingHidden();
    if s != [] {
      var c := Chunk(s, boundary);
      var flag := !IsKey(s[c.0 - 1]);
      var rest := Redacted(s[c.0..], flag);
      NoBearerStep(s, boundary);
      if NoBearer(c.1) {
        BearerNotFixed(s[c.0..], flag);
        SecondPassStep(s, boundary);
        SamePrefix(After(c.1), rest, Redacted(rest, flag));
      } else {
        BearerShownAgain(s, boundary);
      }
    }
  }

  lemma SamePrefix(a: Bytes, b: Bytes, c: Bytes)
    ensures a + b == a + c ==> b == c
  {
    assert (a + b)[|a|..] == b && (a + c)[|a|..] == c;
  }

  lemma ValueOfBearer(s: Bytes, key: Bytes)
    requires !NoBearer(Value(s, key).1)
    ensures After(Value(s, key).1) == BEARER + MARKER
  {
    OnePiece(Value(s, key).1[0]);
  }

  lemma BearerThenMarker(rest: Bytes, key: Bytes)
    ensures var shown := After(Value(BEARER + MARKER + rest, key).1); shown != [] && shown[0] == MARKER[0]
  {
    var t := BEARER + MARKER + rest;
    assert t[0] == BEARER[0] && t[7] == MARKER[0] && !IsBearer(MARKER[0]);
    assert t[7..][0] == t[7];
    OnePiece(Value(t, key).1[0]);
  }

  /** On a prefix that assigns to the key, the pass shows the value it finds there. */
  lemma ShownAtValue(s: Bytes, boundary: bool, x: Bytes)
    requires s != [] && boundary && IsKey(s[0]) && Assignment(s).Some? && x != [] && !IsSpace(x[0])
    requires After(Value(x, s[..Span(s, IsKey)]).1) != []
    ensures var v := Assignment(s).value;
            var again := Redacted(s[..v] + x, boundary);
            |again| > v && again[v] == After(Value(x, s[..Span(s, IsKey)]).1)[0]
  {
    hide Value, Assignment, After, NoBearer, Chunk, Redacted, Span, IsKey, IsSpace;
    var v, key := Assignment(s).value, s[..Span(s, IsKey)];
    AssignmentOfPrefix(s, x);
    var out := s[..v] + x;
    assert out[..v] == s[..v] && out[v..] == x && out[0] == s[0];
    MaskedChunk(out, boundary);
    RedactedStep(out, boundary);
  }

  lemma BearerChunk(s: Bytes, boundary: bool)
    requires s != [] && !NoBearer(Chunk(s, boundary).1)
    ensures boundary && IsKey(s[0]) && Assignment(s).Some?
    ensures After(Chunk(s, boundary).1) == s[..Assignment(s).value] + (BEARER + MARKER)
  {
    hide After, Chunk, Value, Assignment;
    if boundary && IsKey(s[0]) && Assignment(s).Some? {
      MaskedChunk(s, boundary);
      ValueOfBearer(s[Assignment(s).value..], s[..Span(s, IsKey)]);
    } else {
      PlainChunk(s, boundary);
    }
  }

  lemma BearerShownAgain(s: Bytes, boundary: bool)
    requires s != [] && !NoBearer(Chunk(s, boundary).1)
    ensures Redacted(Redacted(s, boundary), boundary) != Redacted(s, boundary)
  {
    hide *;
    var c := Chunk(s, boundary);
    var rest := Redacted(s[c.0..], !IsKey(s[c.0 - 1]));
    BearerChunk(s, boundary);
    RedactedStep(s, boundary);
    var v, key := Assignment(s).value, s[..Span(s, IsKey)];
    Regroup(s[..v], BEARER, MARKER, rest);
    var x := BEARER + (MARKER + rest);
    BearerIsPlain();
    BearerThenMarker(rest, key);
    assert BEARER + MARKER + rest == x && x[0] == BEARER[0];
    ShownAtValue(s, boundary, x);
    assert (s[..v] + x)[v] == BEARER[0];
  }

  lemma BearerIsPlain()
    ensures |BEARER| > 0 && |MARKER| > 0 && !IsSpace(BEARER[0]) && BEARER[0] != MARKER[0]
  {
  }

  /**
   The pass is idempotent on a record exactly when it replaces no bearer token behind its scheme.
   */
  lemma IdempotentExactlyWithoutBearer(s: Bytes)
    ensures RedactAssignments(RedactAssignments(s)) == RedactAssignments(s) <==> NoBearer(Assign(s, true))
  {
    if NoBearer(Assign(s, true)) {
      RedactTwice(s, true);
    } else {
      BearerNotFixed(s, true);
    }
  }

  function RedactAssignments(s: Bytes): Bytes {
    Redacted(s, true)
  }

  lemma ChunkNoBearer(s: Bytes, boundary: bool)
    requires s != [] && forall i :: 0 <= i <= |s| ==> !BearerHead(s[i..])
    ensures NoBearer(Chunk(s, boundary).1)
  {
    if boundary && IsKey(s[0]) && Assignment(s).Some? {
      MaskedChunk(s, boundary);
      assert !BearerHead(s[Assignment(s).value..]);
    } else {
      assert Chunk(s, boundary).1 == [Kept(s[..Chunk(s, boundary).0])];
    }
  }

  /** In particular it is idempotent on records that do not contain "bearer " in any case. */
  lemma {:induction false} NoBearerText(s: Bytes, boundary: bool)
    requires forall i :: 0 <= i <= |s| ==> !BearerHead(s[i..])
    ensures NoBearer(Assign(s, boundary))
    decreases |s|
  {
    hide Chunk, BearerHead, NoBearer;
    if s == [] {
      assert Assign(s, boundary) == [];
      NothingHidden();
    } else {
      var c := Chunk(s, boundary);
      ChunkNoBearer(s, boundary);
      forall i | 0 <= i <= |s[c.0..]|
        ensures !BearerHead(s[c.0..][i..])
      {
        assert s[c.0..][i..] == s[c.0 + i..];
      }
      NoBearerText(s[c.0..], !IsKey(s[c.0 - 1]));
      NoBearerAppend(c.1, Assign(s[c.0..], !IsKey(s[c.0 - 1])));
    }
  }

  lemma NothingHidden()
    ensures NoBearer([])
  {
  }

  // ---------------------------------------------------------------- records without sensitive keys

  /** A record without a sensitive key comes through unchanged. */
  lemma {:induction false} IdentityWithoutSensitiveKey(s: Bytes, boundary: bool)
    requires NoSensitiveRun(s, boundary)
    ensures Redacted(s, boundary) == s
    decreases |s|
  {
    hide *;
    if s == [] {
      NothingRedacted(boundary);
    } else {
      var c := Chunk(s, boundary);
      NoAssignment(s, boundary);
      PlainChunk(s, boundary);
      RedactedStep(s, boundary);
      NoSensitiveRunRest(s, boundary, c.0);
      IdentityWithoutSensitiveKey(s[c.0..], !IsKey(s[c.0 - 1]));
      assert s == s[..c.0] + s[c.0..];
    }
  }

  /** A key without an assignment is copied. */
  lemma KeyStep(s: Bytes)
    requires s != [] && IsKey(s[0]) && Assignment(s).None?
    ensures var k := Span(s, IsKey); 0 < k && Redacted(s, true) == s[..k] + Redacted(s[k..], !IsKey(s[k - 1]))
  {
    hide Assignment, Redacted;
    RedactedStep(s, true);
    OnePiece(Kept(s[..Span(s, IsKey)]));
  }

  lemma NoAssignment(s: Bytes, boundary: bool)
    requires s != [] && NoSensitiveRun(s, boundary)
    ensures !(boundary && IsKey(s[0]) && Assignment(s).Some?)
  {
    hide Sensitive, Separator;
    if boundary && IsKey(s[0]) {
      assert KeyRun(s, boundary, 0, Span(s, IsKey));
    }
  }

  // ---------------------------------------------------------------- UTF-8

  lemma ValueEndAscii(s: Bytes, key: Bytes)
    ensures var n := Value(s, key).0; n == 0 || n == |s| || s[n] <= 0x7F || s[n - 1] <= 0x7F
  {
    hide TakesWholeRest;
    if BearerHead(s) && Span(s[7..], IsBearer) > 0 {
      var t := Span(s[7..], IsBearer);
      assert s[7..][t - 1] == s[7 + t - 1];
    }
  }

  lemma ShownIsAscii(s: Bytes, key: Bytes)
    ensures AllAscii(After(Value(s, key).1))
  {
    hide Value, After;
    if NoBearer(Value(s, key).1) {
      ShownValue(s, key);
    } else {
      ValueOfBearer(s, key);
    }
  }

  /** A value in a well-formed rest is well formed, and so is what replaces it. */
  lemma ValueKeepsUtf8(s: Bytes, key: Bytes)
    requires Run(Start, s) == Start
    ensures Run(Start, s[..Value(s, key).0]) == Start && Run(Start, After(Value(s, key).1)) == Start
  {
    hide Value, After;
    var n := Value(s, key).0;
    ShownIsAscii(s, key);
    RunAscii(After(Value(s, key).1));
    ValueEndAscii(s, key);
    assert s == s[..n] + s[n..];
    CutBesideAscii(s[..n], s[n..]);
  }

  lemma ChunkKeepsState(s: Bytes, boundary: bool, st: State)
    requires s != [] && Run(st, s) == Start
    ensures var c := Chunk(s, boundary); Run(st, After(c.1)) == Run(st, s[..c.0])
  {
    hide Chunk, After, Value, Run, Assignment, Span;
    if boundary && IsKey(s[0]) && Assignment(s).Some? {
      var v, key := Assignment(s).value, s[..Span(s, IsKey)];
      var n := Value(s[v..], key).0;
      MaskedChunk(s, boundary);
      RunBeforeAscii(st, s);
      BeforeValue(s);
      assert s == s[..v] + s[v..];
      CutBesideAscii(s[..v], s[v..]);
      ValueKeepsUtf8(s[v..], key);
      RunAppend(Start, s[..v], After(Value(s[v..], key).1));
      assert s[..v + n] == s[..v] + s[v..][..n];
      RunAppend(Start, s[..v], s[v..][..n]);
    } else {
      PlainChunk(s, boundary);
    }
  }

  /** The pass maps well-formed UTF-8 to well-formed UTF-8, from any point of the record. */
  lemma {:induction false} AssignKeepsUtf8(s: Bytes, boundary: bool, st: State)
    requires Run(st, s) == Start
    ensures Run(st, Redacted(s, boundary)) == Start
    decreases |s|
  {
    hide Chunk, Redacted, IsKey;
    if s == [] {
      NothingRedacted(boundary);
    } else {
      var c := Chunk(s, boundary);
      var flag := !IsKey(s[c.0 - 1]);
      ChunkKeepsState(s, boundary, st);
      assert s == s[..c.0] + s[c.0..];
      RunAppend(st, s[..c.0], s[c.0..]);
      AssignKeepsUtf8(s[c.0..], flag, Run(st, s[..c.0]));
      RedactedStep(s, boundary);
      RunAppend(st, After(c.1), Redacted(s[c.0..], flag));
    }
  }

  /** So the whole-record fallback for broken UTF-8 is never taken. */
  lemma RedactAssignmentsKeepsUtf8(s: Bytes)
    requires Valid(s)
    ensures Valid(RedactAssignments(s))
  {
    AutomatonIsGrammar(s);
    AssignKeepsUtf8(s, true, Start);
    AutomatonIsGrammar(RedactAssignments(s));
  }

  // ---------------------------------------------------------------- the scanners

  lemma SuffixStarts(bytes: Bytes, start: nat, head: Bytes)
    requires start <= |bytes|
    ensures head <= bytes[start..] <==> start + |head| <= |bytes| && bytes[start..start + |head|] == head
    ensures start + |head| <= |bytes| ==> bytes[start..][..|head|] == bytes[start..start + |head|]
  {
    if start + |head| <= |bytes| {
      assert bytes[start..][..|head|] == bytes[start..start + |head|];
    }
  }

  lemma ValueIsMarker(s: Bytes, key: Bytes)
    requires s == [] || MARKER <= s
    ensures Value(s, key).0 == (if s == [] then 0 else |MARKER|) && After(Value(s, key).1) == MARKER
  {
    OnePiece(Hidden([], MARKER));
    OnePiece(Hidden(MARKER, MARKER));
  }

  lemma ValueIsToken(s: Bytes, key: Bytes)
    requires s != [] && !(MARKER <= s) && !IsQuoteByte(s[0]) && BearerHead(s) && Span(s[7..], IsBearer) > 0
    ensures Value(s, key).0 == 7 + Span(s[7..], IsBearer) && After(Value(s, key).1) == BEARER + MARKER
  {
    OnePiece(Hidden(s[..7 + Span(s[7..], IsBearer)], BEARER + MARKER));
  }

  lemma ValueIsPlain(s: Bytes, key: Bytes)
    requires s != [] && !(MARKER <= s) && !IsQuoteByte(s[0]) && (BearerHead(s) ==> Span(s[7..], IsBearer) == 0)
    ensures Value(s, key).0 == if TakesWholeRest(key) then |s| else Span(s, InValue)
    ensures After(Value(s, key).1) == MARKER
  {
    hide BearerHead;
    OnePiece(Hidden(s, MARKER));
    OnePiece(Hidden(s[..Span(s, InValue)], MARKER));
  }

  method SensitiveValueReplacement(bytes: Bytes, start: nat, key: Bytes) returns (end: nat, replacement: Bytes)
    requires start <= |bytes|
    ensures end == start + Value(bytes[start..], key).0
    ensures replacement == After(Value(bytes[start..], key).1)
  {
    hide Value, After, Span, InValue, IsBearer;
    ghost var s := bytes[start..];
    SuffixStarts(bytes, start, MARKER);
    if start >= |bytes| {
      ValueIsMarker(s, key);
      return start, MARKER;
    }
    if start + |MARKER| <= |bytes| && bytes[start..start + |MARKER|] == MARKER {
      ValueIsMarker(s, key);
      return start + |MARKER|, MARKER;
    }
    if bytes[start] == 0x27 || bytes[start] == 0x22 {
      end, replacement := QuotedReplacement(bytes, start, key);
      return;
    }
    SuffixStarts(bytes, start, BEARER);
    if start + 7 <= |bytes| && LowerAll(bytes[start..start + 7]) == LowerAll(BEARER) {
      var tokenStart := start + 7;
      var tokenEnd := ScanToken(bytes, tokenStart);
      DropDrop(bytes, start, 7);
      if tokenEnd > tokenStart {
        ValueIsToken(s, key);
        return tokenEnd, BEARER + MARKER;
      }
    }
    ValueIsPlain(s, key);
    if Occurs(Ascii("cookie"), LowerAll(key)) {
      return |bytes|, MARKER;
    }
    if Occurs(Ascii("authorization"), LowerAll(key)) {
      return |bytes|, MARKER;
    }
    end := start;
    while end < |bytes| && InValue(bytes[end])
      invariant start <= end <= |bytes|
      invariant forall k :: start <= k < end ==> InValue(bytes[k])
    {
      end := end + 1;
    }
    SpanFrom(bytes, start, end, InValue);
    return end, MARKER;
  }

  method QuotedReplacement(bytes: Bytes, start: nat, key: Bytes) returns (after: nat, replacement: Bytes)
    requires start < |bytes| && IsQuoteByte(bytes[start])
    ensures after == start + Value(bytes[start..], key).0
    ensures replacement == After(Value(bytes[start..], key).1)
  {
    var quote := bytes[start];
    var end := start + 1;
    while end < |bytes| && bytes[end] != quote
      invariant start + 1 <= end <= |bytes|
      invariant quote !in bytes[start + 1..end]
    {
      end := end + 1;
    }
    after := if end < |bytes| then end + 1 else end;
    replacement := [quote] + MARKER + if after > end then [quote] else [];
    QuotedScan(bytes, start, end, key);
  }

  lemma ValueIsQuoted(s: Bytes, key: Bytes)
    requires s != [] && IsQuoteByte(s[0])
    ensures var end := 1 + Until(s[1..], s[0]);
            Value(s, key) == (if end < |s| then end + 1 else end, Quoted(s, end))
  {
    hide TakesWholeRest, BearerHead, Until;
    assert s[0] != MARKER[0];
  }

  lemma QuotedScan(bytes: Bytes, start: nat, end: nat, key: Bytes)
    requires start < end <= |bytes| && IsQuoteByte(bytes[start])
    requires bytes[start] !in bytes[start + 1..end] && (end == |bytes| || bytes[end] == bytes[start])
    ensures var r := Value(bytes[start..], key);
            && r.0 == (if end < |bytes| then end + 1 else end) - start
            && After(r.1) == [bytes[start]] + MARKER + if end < |bytes| then [bytes[start]] else []
  {
    hide *;
    var s := bytes[start..];
    ValueIsQuoted(s, key);
    assert s[1..] == bytes[start + 1..end] + bytes[end..];
    UntilIs(bytes[start + 1..end], s[0], bytes[end..]);
    QuotedPieces(s, end - start);
    assert [bytes[start]] + MARKER + [] == [bytes[start]] + MARKER;
  }

  /** Skipping white space, or the quote, shortens the separator by as much. */
  lemma {:induction false} SeparatorSkips(bytes: Bytes, i: nat, j: nat, quoted: bool)
    requires i <= j <= |bytes| && forall k :: i <= k < j ==> IsSpace(bytes[k])
    ensures Separator(bytes[i..], quoted) == Longer(Separator(bytes[j..], quoted), j - i)
    decreases j - i
  {
    if i < j {
      SeparatorSkips(bytes, i + 1, j, quoted);
      assert bytes[i..][1..] == bytes[i + 1..] && bytes[i..][0] == bytes[i];
    }
  }

  lemma SeparatorHere(bytes: Bytes, i: nat, quoted: bool)
    requires i <= |bytes| && (i == |bytes| || !IsSpace(bytes[i]))
    ensures i < |bytes| && !quoted && IsQuoteByte(bytes[i]) ==>
              Separator(bytes[i..], false) == Longer(Separator(bytes[i + 1..], true), 1)
    ensures i == |bytes| || quoted || !IsQuoteByte(bytes[i]) ==>
              Separator(bytes[i..], quoted)
              == if i < |bytes| && (bytes[i] == 0x3D || bytes[i] == 0x3A) then Some(1) else None
  {
    assert i < |bytes| ==> bytes[i..][1..] == bytes[i + 1..] && bytes[i..][0] == bytes[i];
  }

  method ScanSpace(bytes: Bytes, start: nat) returns (index: nat)
    requires start <= |bytes|
    ensures start <= index <= |bytes| && index == start + Span(bytes[start..], IsSpace)
    ensures forall k :: start <= k < index ==> IsSpace(bytes[k])
    ensures index < |bytes| ==> !IsSpace(bytes[index])
  {
    index := start;
    while index < |bytes| && IsSpace(bytes[index])
      invariant start <= index <= |bytes|
      invariant forall k :: start <= k < index ==> IsSpace(bytes[k])
    {
      index := index + 1;
    }
    SpanFrom(bytes, start, index, IsSpace);
  }

  /** Looks for the = or : after a key that ends at index. */
  method FindSeparator(bytes: Bytes, index: nat) returns (separator: nat)
    requires index <= |bytes|
    ensures index <= separator <= |bytes|
    ensures Separator(bytes[index..], false)
            == if separator < |bytes| && (bytes[separator] == 0x3D || bytes[separator] == 0x3A)
               then Some(separator + 1 - index) else None
  {
    hide Separator, Span, IsSpace;
    separator := ScanSpace(bytes, index);
    SeparatorSkips(bytes, index, separator, false);
    SeparatorHere(bytes, separator, false);
    if separator < |bytes| && (bytes[separator] == 0x27 || bytes[separator] == 0x22) {
      ghost var quote := separator;
      separator := ScanSpace(bytes, separator + 1);
      SeparatorSkips(bytes, quote + 1, separator, true);
      SeparatorHere(bytes, separator, true);
    }
  }

  /** The scanner's position after a step, and what it has written by then. */
  lemma StepAt(bytes: Bytes, index: nat, boundary: bool)
    requires index < |bytes|
    ensures var s := bytes[index..];
            var c := Chunk(s, boundary);
            && index + c.0 <= |bytes|
            && Redacted(s, boundary) == After(c.1) + Redacted(bytes[index + c.0..], !IsKey(bytes[index + c.0 - 1]))
  {
    hide Chunk, IsKey, After, Assign;
    var s := bytes[index..];
    var c := Chunk(s, boundary);
    RedactedStep(s, boundary);
    DropDrop(bytes, index, c.0);
    assert s[c.0 - 1] == bytes[index + c.0 - 1];
  }

  lemma CopyChunk(s: Bytes)
    requires s != [] && Span(s, IsKey) > 0 && (Sensitive(s[..Span(s, IsKey)]) ==> AfterKey(s, Span(s, IsKey)).None?)
    ensures Chunk(s, true).0 == Span(s, IsKey) && After(Chunk(s, true).1) == s[..Span(s, IsKey)]
  {
    hide Span, Sensitive, AfterKey, After, IsKey;
    SpanPositive(s);
    PlainChunk(s, true);
  }

  lemma SpanPositive(s: Bytes)
    ensures Span(s, IsKey) > 0 <==> s != [] && IsKey(s[0])
  {
  }

  lemma RedactChunk(s: Bytes, v: nat)
    requires s != [] && Span(s, IsKey) > 0 && Sensitive(s[..Span(s, IsKey)]) && AfterKey(s, Span(s, IsKey)) == Some(v)
    ensures v <= |s|
    ensures var r := Value(s[v..], s[..Span(s, IsKey)]);
            Chunk(s, true).0 == v + r.0 && After(Chunk(s, true).1) == s[..v] + After(r.1)
  {
    hide Span, Sensitive, AfterKey, After, IsKey, Value, NoBearer, Before;
    SpanPositive(s);
    MaskedChunk(s, true);
  }

  method ScanKey(bytes: Bytes, start: nat) returns (index: nat)
    requires start <= |bytes|
    ensures index == start + Span(bytes[start..], IsKey) <= |bytes|
  {
    index := start;
    while index < |bytes| && IsKey(bytes[index])
      invariant start <= index <= |bytes|
      invariant forall k :: start <= k < index ==> IsKey(bytes[k])
    {
      index := index + 1;
    }
    SpanFrom(bytes, start, index, IsKey);
  }

  /** The step of the scanner that starts at a key. */
  method RedactKey(bytes: Bytes, keyStart: nat) returns (index: nat, written: Bytes)
    requires keyStart < |bytes| && IsKey(bytes[keyStart])
    ensures index == keyStart + Chunk(bytes[keyStart..], true).0 && written == After(Chunk(bytes[keyStart..], true).1)
  {
    hide *;
    ghost var s := bytes[keyStart..];
    var keyEnd := ScanKey(bytes, keyStart);
    SpanPositive(s);
    var key := bytes[keyStart..keyEnd];
    assert key == s[..keyEnd - keyStart];
    if Sensitive(key) {
      var separator := FindSeparator(bytes, keyEnd);
      if separator < |bytes| && (bytes[separator] == 0x3D || bytes[separator] == 0x3A) {
        index := ScanSpace(bytes, separator + 1);
        written := bytes[keyStart..separator + 1] + bytes[separator + 1..index];
        ValueFound(bytes, keyStart, keyEnd, separator, index);
        var end, replacement := SensitiveValueReplacement(bytes, index, key);
        return end, written + replacement;
      }
      DropDrop(bytes, keyStart, keyEnd - keyStart);
      NoValue(s, keyEnd - keyStart);
    }
    CopyChunk(s);
    return keyEnd, key;
  }

  lemma NoValue(s: Bytes, k: nat)
    requires 1 <= k <= |s| && Separator(s[k..], false).None?
    ensures AfterKey(s, k).None?
  {
  }

  lemma ValueFound(bytes: Bytes, keyStart: nat, keyEnd: nat, separator: nat, index: nat)
    requires keyStart < keyEnd <= separator < index <= |bytes|
    requires keyEnd == keyStart + Span(bytes[keyStart..], IsKey) && Sensitive(bytes[keyStart..keyEnd])
    requires Separator(bytes[keyEnd..], false) == Some(separator + 1 - keyEnd)
    requires index == separator + 1 + Span(bytes[separator + 1..], IsSpace)
    ensures var s := bytes[keyStart..];
            var r := Value(bytes[index..], bytes[keyStart..keyEnd]);
            && s != [] && keyStart + Chunk(s, true).0 == index + r.0
            && After(Chunk(s, true).1) == bytes[keyStart..separator + 1] + bytes[separator + 1..index] + After(r.1)
  {
    hide *;
    var s := bytes[keyStart..];
    DropDrop(bytes, keyStart, keyEnd - keyStart);
    DropDrop(bytes, keyStart, separator + 1 - keyStart);
    DropDrop(bytes, keyStart, index - keyStart);
    assert bytes[keyStart..keyEnd] == s[..keyEnd - keyStart];
    AfterKeyFound(s, keyEnd - keyStart, separator + 1 - keyEnd);
    RedactChunk(s, index - keyStart);
    assert s[..index - keyStart] == bytes[keyStart..separator + 1] + bytes[separator + 1..index];
  }

  lemma PassIs(record: Bytes)
    ensures RedactAssignments(record) == Redacted(record, true)
  {
  }

  /** One step of the scanner: a key with what is assigned to it, or one byte. */
  method RedactNext(bytes: Bytes, start: nat, boundary: bool) returns (index: nat, written: Bytes)
    requires start < |bytes|
    ensures index == start + Chunk(bytes[start..], boundary).0 && written == After(Chunk(bytes[start..], boundary).1)
  {
    hide *;
    if boundary && IsKey(bytes[start]) {
      index, written := RedactKey(bytes, start);
    } else {
      PlainChunk(bytes[start..], boundary);
      index, written := start + 1, [bytes[start]];
    }
  }

  method RedactSensitiveAssignments(record: Bytes) returns (redacted: Bytes)
    requires Valid(record)
    ensures redacted == RedactAssignments(record) && Valid(redacted)
  {
    hide *;
    PassIs(record);
    RedactAssignmentsKeepsUtf8(record);
    var output: Bytes := [];
    var index := 0;
    assert record[0..] == record;
    while index < |record|
      invariant index <= |record|
      invariant output + Redacted(record[index..], index == 0 || !IsKey(record[index - 1])) == Redacted(record, true)
    {
      var boundary := index == 0 || !IsKey(record[index - 1]);
      StepAt(record, index, boundary);
      ghost var c := Chunk(record[index..], boundary);
      ghost var rest := Redacted(record[index + c.0..], !IsKey(record[index + c.0 - 1]));
      Associates(output, After(c.1), rest);
      var end, written := RedactNext(record, index, boundary);
      output := output + written;
      index := end;
    }
    NothingRedacted(index == 0 || !IsKey(record[index - 1]));
    assert output + [] == output;
    return if Valid(output) then output else MARKER;
  }
}
