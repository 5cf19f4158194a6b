/** `redact_bearer_values`: the token after the word "bearer", in any case, is replaced by a marker. */
module BearerRedaction {
  import opened Basics
  import opened Text
  import opened Utf8
  import opened Masking

  /** The word starts here and ends the record or is followed by white space. */
  predicate Word(s: Bytes) {
    |s| >= 6 && LowerAll(s[..6]) == LowerAll(BEARER[..6]) && (|s| == 6 || IsSpace(s[6]))
  }

  /** The word and the white space after it. */
  function HeadLength(s: Bytes): (n: nat)
    requires Word(s)
    ensures 6 <= n <= |s| && (n < |s| ==> !IsSpace(s[n]))
  {
    var w := Span(s[6..], IsSpace);
    assert w < |s[6..]| ==> s[6..][w] == s[6 + w];
    6 + w
  }

  function TokenLength(s: Bytes): (n: nat)
    requires Word(s)
    ensures HeadLength(s) + n <= |s|
  {
    Span(s[HeadLength(s)..], IsBearer)
  }

  function Token(s: Bytes): seq<Piece>
    requires Word(s)
  {
    var h, t := HeadLength(s), TokenLength(s);
    if t == 0 then [] else [Hidden(s[h..h + t], MARKER)]
  }

  /** The first step of the pass: how many bytes it consumes and the pieces it makes of them. */
  function Chunk(s: Bytes, boundary: bool): (c: (nat, seq<Piece>))
    requires s != []
    ensures 1 <= c.0 <= |s|
  {
    if boundary && Word(s) then
      (HeadLength(s) + TokenLength(s), [Kept(s[..HeadLength(s)])] + Token(s))
    else (1, [Kept(s[..1])])
  }

  /** The whole pass; the word may start where the byte before is not a key byte. */
  function Bearer(s: Bytes, boundary: bool): seq<Piece>
    decreases |s|
  {
    if s == [] then []
    else
      var c := Chunk(s, boundary);
      c.1 + Bearer(s[c.0..], !IsKey(s[c.0 - 1]))
  }

  function Redacted(s: Bytes, boundary: bool): Bytes {
    After(Bearer(s, boundary))
  }

  function RedactBearer(s: Bytes): Bytes {
    Redacted(s, true)
  }

  lemma NothingRedacted(boundary: bool)
    ensures Bearer([], boundary) == [] && Before([]) == [] && Redacted([], boundary) == []
  {
  }

  lemma RedactedStep(s: Bytes, boundary: bool)
    requires s != []
    ensures var c := Chunk(s, boundary);
            var flag := !IsKey(s[c.0 - 1]);
            && Before(Bearer(s, boundary)) == Before(c.1) + Before(Bearer(s[c.0..], flag))
            && Redacted(s, boundary) == After(c.1) + Redacted(s[c.0..], flag)
  {
    hide Chunk, IsKey, Before, After;
    var c := Chunk(s, boundary);
    PiecesAppend(c.1, Bearer(s[c.0..], !IsKey(s[c.0 - 1])));
  }

  lemma CopyStep(s: Bytes, boundary: bool)
    requires s != [] && !(boundary && Word(s))
    ensures Chunk(s, boundary) == (1, [Kept(s[..1])])
    ensures Redacted(s, boundary) == [s[0]] + Redacted(s[1..], !IsKey(s[0]))
  {
    hide Word, IsKey, After, Bearer;
    RedactedStep(s, boundary);
    OnePiece(Kept(s[..1]));
    assert s[..1] == [s[0]];
  }

  /** What the step at the word keeps and shows. */
  lemma WordStep(s: Bytes)
    requires Word(s)
    ensures var h, t := HeadLength(s), TokenLength(s);
            && Chunk(s, true).0 == h + t
            && Before(Chunk(s, true).1) == s[..h + t]
            && After(Chunk(s, true).1) == s[..h] + if t == 0 then [] else MARKER
  {
    hide Before, After, Word, HeadLength, TokenLength;
    var h, t := HeadLength(s), TokenLength(s);
    if t == 0 {
      OnePiece(Kept(s[..h]));
      assert Chunk(s, true).1 == [Kept(s[..h])] + [] == [Kept(s[..h])];
      assert s[..h] + [] == s[..h];
    } else {
      var hidden := Hidden(s[h..h + t], MARKER);
      PieceFirst(Kept(s[..h]), [hidden]);
      OnePiece(hidden);
      assert s[..h] + s[h..h + t] == s[..h + t];
    }
  }

  lemma {:induction false} BearerCopiesTheRest(s: Bytes, boundary: bool)
    ensures Before(Bearer(s, boundary)) == s
    decreases |s|
  {
    hide *;
    if s == [] {
      NothingRedacted(boundary);
    } else {
      var c := Chunk(s, boundary);
      if boundary && Word(s) {
        WordStep(s);
      } else {
        CopyStep(s, boundary);
        OnePiece(Kept(s[..1]));
        PlainPiece(s[..1]);
      }
      BearerCopiesTheRest(s[c.0..], !IsKey(s[c.0 - 1]));
      RedactedStep(s, boundary);
      assert s == s[..c.0] + s[c.0..];
    }
  }

  lemma PlainPiece(b: Bytes)
    ensures Original(Kept(b)) == b && Seen(Kept(b)) == b
  {
  }

  // ---------------------------------------------------------------- the pass twice

  /** A word and its white space, wherever they are followed by something else. */
  lemma WordHead(s: Bytes, r: Bytes)
    requires Word(s) && (r == [] || (!IsSpace(r[0]) && HeadLength(s) > 6))
    ensures var t := s[..HeadLength(s)] + r;
            Word(t) && HeadLength(t) == HeadLength(s) && TokenLength(t) == Span(r, IsBearer)
  {
    hide IsSpace, IsBearer, LowerAll;
    var h := HeadLength(s);
    var t := s[..h] + r;
    assert t[..6] == s[..6];
    assert t[6..] == s[6..h] + r;
    assert forall k :: 0 <= k < h - 6 ==> s[6..h][k] == s[6..][k];
    SpanIs(s[6..h], r, IsSpace);
    assert t[h..] == r;
  }

  lemma HeadIsSeparated(s: Bytes)
    requires Word(s)
    ensures HeadLength(s) < |s| ==> HeadLength(s) > 6
    ensures IsSpace(s[HeadLength(s) - 1]) || HeadLength(s) == 6
  {
    var w := Span(s[6..], IsSpace);
    assert |s| > 6 ==> s[6..][0] == s[6];
    assert w > 0 ==> s[6..][w - 1] == s[6 + w - 1];
  }

  /** The pass leaves the head of the record alone. */
  lemma HeadSame(s: Bytes, boundary: bool)
    ensures Redacted(s, boundary) == [] <==> s == []
    ensures s != [] ==> Redacted(s, boundary)[0] == s[0]
  {
    hide *;
    if s == [] {
      NothingRedacted(boundary);
    } else if boundary && Word(s) {
      WordStep(s);
      RedactedStep(s, true);
    } else {
      CopyStep(s, boundary);
    }
  }

  lemma NotWord(s: Bytes)
    requires s == [] || (s[0] != 0x42 && s[0] != 0x62)
    ensures !Word(s)
  {
    if |s| >= 6 {
      assert LowerAll(s[..6])[0] == Lower(s[0]) && LowerAll(BEARER[..6])[0] == 0x62;
    }
  }

  lemma NotWordFlag(s: Bytes, b1: bool, b2: bool)
    requires !Word(s)
    ensures Redacted(s, b1) == Redacted(s, b2)
  {
    hide Word, IsKey, After, Bearer;
    if s != [] {
      CopyStep(s, b1);
      CopyStep(s, b2);
    } else {
      NothingRedacted(b1);
      NothingRedacted(b2);
    }
  }

  lemma CopyByte(b: Byte, r: Bytes, boundary: bool)
    requires b != 0x42 && b != 0x62
    ensures Redacted([b] + r, boundary) == [b] + Redacted(r, !IsKey(b))
  {
    hide Word, IsKey, Redacted, Chunk;
    NotWord([b] + r);
    CopyStep([b] + r, boundary);
    assert ([b] + r)[1..] == r;
  }

  lemma MarkerByte(k: nat)
    requires k < |MARKER|
    ensures MARKER[k] != 0x42 && MARKER[k] != 0x62 && (k + 1 == |MARKER| ==> !IsKey(MARKER[k]))
  {
  }

  lemma {:induction false} CopyMarker(k: nat, r: Bytes, boundary: bool)
    requires k < |MARKER|
    ensures Redacted(MARKER[k..] + r, boundary) == MARKER[k..] + Redacted(r, true)
    decreases |MARKER| - k
  {
    hide *;
    var b := MARKER[k];
    MarkerByte(k);
    CopyByte(b, MARKER[k + 1..] + r, boundary);
    assert MARKER[k..] == [b] + MARKER[k + 1..];
    assert MARKER[k..] + r == [b] + (MARKER[k + 1..] + r);
    if k + 1 < |MARKER| {
      CopyMarker(k + 1, r, !IsKey(b));
      assert [b] + (MARKER[k + 1..] + Redacted(r, true)) == MARKER[k..] + Redacted(r, true);
    } else {
      assert MARKER[k + 1..] + r == r;
    }
  }

  /** A word with a token: the second pass finds the marker, which it copies. */
  lemma TokenTwice(s: Bytes, rest: Bytes)
    requires Word(s) && TokenLength(s) > 0
    ensures var h := HeadLength(s);
            Redacted(s[..h] + (MARKER + rest), true) == s[..h] + (MARKER + Redacted(rest, true))
  {
    hide *;
    var h := HeadLength(s);
    var r := MARKER + rest;
    HeadIsSeparated(s);
    NoTokenAtMarker(rest);
    WordHead(s, r);
    var t := s[..h] + r;
    WordStep(t);
    RedactedStep(t, true);
    assert t[..h] == s[..h] && t[h..] == r;
    assert s[..h] + [] == s[..h];
    CopyMarker(0, rest, !IsKey(t[h - 1]));
    assert MARKER[0..] == MARKER;
  }

  lemma NoTokenAtMarker(rest: Bytes)
    ensures |MARKER| == 10 && !IsSpace((MARKER + rest)[0]) && Span(MARKER + rest, IsBearer) == 0
  {
  }

  /** A word without a token is found again and followed by the same. */
  lemma BareWordTwice(s: Bytes, rest: Bytes)
    requires Word(s) && TokenLength(s) == 0
    requires (rest == [] <==> s[HeadLength(s)..] == []) && (rest != [] ==> rest[0] == s[HeadLength(s)])
    ensures var h := HeadLength(s);
            Redacted(s[..h] + rest, true) == s[..h] + Redacted(rest, !IsKey(s[h - 1]))
  {
    hide *;
    var h := HeadLength(s);
    HeadIsSeparated(s);
    NoTokenHere(s, rest);
    WordHead(s, rest);
    var t := s[..h] + rest;
    WordStep(t);
    RedactedStep(t, true);
    assert t[..h] == s[..h] && t[h..] == rest;
    assert s[..h] + [] == s[..h];
  }

  lemma NoTokenHere(s: Bytes, rest: Bytes)
    requires Word(s) && TokenLength(s) == 0
    requires (rest == [] <==> s[HeadLength(s)..] == []) && (rest != [] ==> rest[0] == s[HeadLength(s)])
    ensures Span(rest, IsBearer) == 0
  {
  }

  /** After a token comes no bearer byte, so no word. */
  lemma AfterToken(s: Bytes)
    requires Word(s)
    ensures var r := s[HeadLength(s) + TokenLength(s)..]; r == [] || (r[0] != 0x42 && r[0] != 0x62)
  {
    hide HeadLength, Word;
    DropDrop(s, HeadLength(s), TokenLength(s));
    var u := s[HeadLength(s)..];
    assert TokenLength(s) < |u| ==> u[TokenLength(s)..][0] == u[TokenLength(s)];
  }

  /** The pass is idempotent. */
  lemma {:induction false} RedactTwice(s: Bytes, boundary: bool)
    ensures Redacted(Redacted(s, boundary), boundary) == Redacted(s, boundary)
    decreases |s|
  {
    hide *;
    if s == [] {
      NothingRedacted(boundary);
    } else {
      var c := Chunk(s, boundary);
      var flag := !IsKey(s[c.0 - 1]);
      var rest := Redacted(s[c.0..], flag);
      RedactedStep(s, boundary);
      RedactTwice(s[c.0..], flag);
      HeadSame(s[c.0..], flag);
      if boundary && Word(s) {
        WordStep(s);
        var h := HeadLength(s);
        if TokenLength(s) > 0 {
          assert s[..h] + MARKER + rest == s[..h] + (MARKER + rest);
          TokenTwice(s, rest);
          AfterToken(s);
          NotWord(rest);
          NotWordFlag(rest, true, flag);
        } else {
          assert s[..h] + [] == s[..h];
          BareWordTwice(s, rest);
        }
      } else {
        CopyStep(s, boundary);
        CopiedTwice(s, boundary, rest);
      }
    }
  }

  lemma CopiedTwice(s: Bytes, boundary: bool, rest: Bytes)
    requires s != [] && !(boundary && Word(s)) && rest == Redacted(s[1..], !IsKey(s[0]))
    ensures Redacted([s[0]] + rest, boundary) == [s[0]] + Redacted(rest, !IsKey(s[0]))
  {
    hide Redacted, Chunk, IsKey;
    var t := [s[0]] + rest;
    assert t[1..] == rest;
    if boundary {
      NoNewWord(s);
    }
    CopyStep(t, boundary);
  }

  /** Key bytes that no boundary precedes come through unchanged, with the byte after them. */
  lemma {:induction false} SameText(s: Bytes, n: nat)
    requires n <= |Redacted(s, false)| && forall k :: 0 <= k < n ==> IsKey(Redacted(s, false)[k])
    ensures n <= |s| && Redacted(s, false)[..n] == s[..n]
    ensures |Redacted(s, false)| > n <==> |s| > n
    ensures |s| > n ==> Redacted(s, false)[n] == s[n]
    decreases n
  {
    hide Redacted, Chunk, Word, IsKey;
    HeadSame(s, false);
    if n > 0 {
      CopyStep(s, false);
      var out := Redacted(s, false);
      assert out[1..] == Redacted(s[1..], false);
      SameText(s[1..], n - 1);
      assert s[1..][..n - 1] == s[1..n];
      assert out[..n] == [out[0]] + out[1..][..n - 1];
      assert s[..n] == [s[0]] + s[1..n];
      assert |s| > n ==> out[n] == out[1..][n - 1] && s[n] == s[1..][n - 1];
    }
  }

  /** Copying a first byte does not create a word. */
  lemma NoNewWord(s: Bytes)
    requires s != [] && !Word(s)
    ensures !Word([s[0]] + Redacted(s[1..], !IsKey(s[0])))
  {
    hide Redacted, IsKey, IsSpace;
    var out := Redacted(s[1..], !IsKey(s[0]));
    var t := [s[0]] + out;
    if |t| >= 6 && LowerAll(t[..6]) == LowerAll(BEARER[..6]) {
      LettersOfWord(t);
      assert t[0] == s[0];
      assert forall k :: 0 <= k < 5 ==> out[k] == t[k + 1];
      SameText(s[1..], 5);
      assert s[..6] == [s[0]] + s[1..][..5];
      assert t[..6] == [s[0]] + out[..5];
      assert |t| > 6 ==> t[6] == out[5] && s[6] == s[1..][5];
    }
  }

  lemma LettersOfWord(t: Bytes)
    requires |t| >= 6 && LowerAll(t[..6]) == LowerAll(BEARER[..6])
    ensures forall k :: 0 <= k < 6 ==> IsKey(t[k])
  {
    forall k | 0 <= k < 6
      ensures IsKey(t[k])
    {
      assert LowerAll(t[..6])[k] == Lower(t[k]) && LowerAll(BEARER[..6])[k] == Lower(BEARER[k]);
    }
  }

  // ---------------------------------------------------------------- no token is left

  /** The word starts at i, where a key may start, and a token follows its white space. */
  predicate ExposedAt(s: Bytes, boundary: bool, i: nat) {
    i <= |s| && (if i == 0 then boundary else !IsKey(s[i - 1])) && Word(s[i..]) && TokenLength(s[i..]) > 0
  }

  ghost predicate NothingExposed(s: Bytes, boundary: bool) {
    forall i: nat :: !ExposedAt(s, boundary, i)
  }

  lemma ExposedShift(s: Bytes, boundary: bool, n: nat, i: nat)
    requires 1 <= n <= |s|
    ensures ExposedAt(s[n..], !IsKey(s[n - 1]), i) <==> ExposedAt(s, boundary, n + i)
  {
    if n + i <= |s| {
      DropDrop(s, n, i);
      assert i > 0 ==> s[n..][i - 1] == s[n + i - 1];
    }
  }

  /** Inside the word and its white space no other word starts. */
  lemma NoWordInside(s: Bytes, i: nat)
    requires Word(s) && 1 <= i < HeadLength(s)
    ensures !ExposedAt(s, true, i)
  {
    hide TokenLength;
    if i < 6 {
      LettersOfWord(s);
      assert IsKey(s[i - 1]);
    } else {
      assert s[i] == s[6..][i - 6];
      assert s[i..][0] == s[i];
      NotWord(s[i..]);
    }
  }

  /** A step that hides nothing passes over no exposed token. */
  lemma ChunkExposes(s: Bytes, boundary: bool, i: nat)
    requires s != [] && i < Chunk(s, boundary).0 && (boundary && Word(s) ==> TokenLength(s) == 0)
    ensures !ExposedAt(s, boundary, i)
  {
    hide HeadLength, TokenLength, Word, IsKey;
    assert s[0..] == s;
    if boundary && Word(s) && i > 0 {
      NoWordInside(s, i);
    }
  }

  lemma ExposedHere(s: Bytes, boundary: bool)
    requires NothingExposed(s, boundary) && boundary && Word(s)
    ensures TokenLength(s) == 0
  {
    hide Word, TokenLength;
    assert s[0..] == s;
    assert !ExposedAt(s, boundary, 0);
  }

  lemma ExposedInRest(s: Bytes, boundary: bool, n: nat)
    requires 1 <= n <= |s| && NothingExposed(s, boundary)
    ensures NothingExposed(s[n..], !IsKey(s[n - 1]))
  {
    hide ExposedAt, IsKey;
    var rest, flag := s[n..], !IsKey(s[n - 1]);
    forall i: nat
      ensures !ExposedAt(rest, flag, i)
    {
      ExposedShift(s, boundary, n, i);
    }
  }

  lemma ExposedFromRest(s: Bytes, boundary: bool)
    requires s != [] && (boundary && Word(s) ==> TokenLength(s) == 0)
    requires var n := Chunk(s, boundary).0; NothingExposed(s[n..], !IsKey(s[n - 1]))
    ensures NothingExposed(s, boundary)
  {
    hide ExposedAt, IsKey, Chunk, Word, TokenLength;
    var n := Chunk(s, boundary).0;
    forall i: nat
      ensures !ExposedAt(s, boundary, i)
    {
      if i < n {
        ChunkExposes(s, boundary, i);
      } else {
        ExposedShift(s, boundary, n, i - n);
      }
    }
  }

  /** A step that hides a token changes the record. */
  lemma TokenIsChanged(s: Bytes)
    requires Word(s) && TokenLength(s) > 0
    ensures Redacted(s, true) != s
  {
    hide HeadLength, Word, After, Chunk, Bearer;
    var h := HeadLength(s);
    WordStep(s);
    RedactedStep(s, true);
    assert IsBearer(s[h..][0]) && !IsBearer(MARKER[0]);
    assert Redacted(s, true)[h] == MARKER[0];
  }

  /** The pass leaves a record alone exactly when no token is exposed in it. */
  lemma {:induction false} FixedExactlyWhenNothingExposed(s: Bytes, boundary: bool)
    ensures Redacted(s, boundary) == s <==> NothingExposed(s, boundary)
    decreases |s|
  {
    hide *;
    if s == [] {
      NothingRedacted(boundary);
      EmptyExposesNothing(boundary);
    } else {
      var c := Chunk(s, boundary);
      if boundary && Word(s) && TokenLength(s) > 0 {
        TokenIsChanged(s);
        if NothingExposed(s, boundary) {
          ExposedHere(s, boundary);
        }
      } else {
        ChunkSame(s, boundary);
        RedactedStep(s, boundary);
        FixedExactlyWhenNothingExposed(s[c.0..], !IsKey(s[c.0 - 1]));
        assert s == s[..c.0] + s[c.0..];
        SamePrefix(s[..c.0], Redacted(s[c.0..], !IsKey(s[c.0 - 1])), s[c.0..]);
        if NothingExposed(s, boundary) {
          ExposedInRest(s, boundary, c.0);
        }
        if NothingExposed(s[c.0..], !IsKey(s[c.0 - 1])) {
          ExposedFromRest(s, boundary);
        }
      }
    }
  }

  lemma EmptyExposesNothing(boundary: bool)
    ensures NothingExposed([], boundary)
  {
  }

  lemma ChunkSame(s: Bytes, boundary: bool)
    requires s != [] && (boundary && Word(s) ==> TokenLength(s) == 0)
    ensures After(Chunk(s, boundary).1) == s[..Chunk(s, boundary).0]
  {
    hide *;
    if boundary && Word(s) {
      WordStep(s);
      assert s[..HeadLength(s)] + [] == s[..HeadLength(s)];
    } else {
      CopyStep(s, boundary);
      OnePiece(Kept(s[..1]));
      PlainPiece(s[..1]);
    }
  }

  lemma SamePrefix(a: Bytes, b: Bytes, c: Bytes)
    ensures a + b == a + c <==> b == c
  {
    Cut(a, b);
    Cut(a, c);
  }

  /** In the output no token follows the word any more, anywhere. */
  lemma NoTokenIsLeft(s: Bytes)
    ensures NothingExposed(RedactBearer(s), true)
    ensures RedactBearer(RedactBearer(s)) == RedactBearer(s)
  {
    hide Redacted, NothingExposed;
    RedactTwice(s, true);
    FixedExactlyWhenNothingExposed(Redacted(s, true), true);
  }

  // ---------------------------------------------------------------- UTF-8

  lemma TokenKeepsState(s: Bytes, st: State)
    requires Word(s) && Run(st, s) == Start
    ensures var c := Chunk(s, true); Run(st, After(c.1)) == Run(st, s[..c.0])
  {
    hide *;
    var h, t := HeadLength(s), TokenLength(s);
    WordStep(s);
    if t == 0 {
      assert s[..h] + [] == s[..h];
    } else {
      TokenIsAscii(s);
      RunBeforeAscii(st, s);
      RunAscii(s[..h + t]);
      MarkerIsAscii();
      RunAscii(s[..h]);
      RunAppend(st, s[..h], MARKER);
      RunAscii(MARKER);
    }
  }

  lemma MarkerIsAscii()
    ensures AllAscii(MARKER)
  {
  }

  lemma TokenIsAscii(s: Bytes)
    requires Word(s)
    ensures AllAscii(s[..HeadLength(s) + TokenLength(s)]) && AllAscii(s[..HeadLength(s)]) && s[0] <= 0x7F
  {
    hide Word, IsKey;
    WordLetters(s);
    var h, t := HeadLength(s), TokenLength(s);
    forall k | 0 <= k < h + t
      ensures s[k] <= 0x7F
    {
      assert 6 <= k < h ==> s[k] == s[6..][k - 6];
      assert k >= h ==> s[k] == s[h..][k - h];
    }
  }

  lemma WordLetters(s: Bytes)
    requires Word(s)
    ensures forall k :: 0 <= k < 6 ==> s[k] <= 0x7F
  {
    LettersOfWord(s);
  }

  /** The pass maps well-formed UTF-8 to well-formed UTF-8, from any point of the record. */
  lemma {:induction false} BearerKeepsUtf8(s: Bytes, boundary: bool, st: State)
    requires Run(st, s) == Start
    ensures Run(st, Redacted(s, boundary)) == Start
    decreases |s|
  {
    hide *;
    if s == [] {
      NothingRedacted(boundary);
    } else {
      var c := Chunk(s, boundary);
      var flag := !IsKey(s[c.0 - 1]);
      if boundary && Word(s) {
        TokenKeepsState(s, st);
      } else {
        CopyStep(s, boundary);
        OnePiece(Kept(s[..1]));
        PlainPiece(s[..1]);
      }
      assert s == s[..c.0] + s[c.0..];
      RunAppend(st, s[..c.0], s[c.0..]);
      BearerKeepsUtf8(s[c.0..], flag, Run(st, s[..c.0]));
      RedactedStep(s, boundary);
      RunAppend(st, After(c.1), Redacted(s[c.0..], flag));
    }
  }

  /** So the whole-record fallback for broken UTF-8 is never taken. */
  lemma RedactBearerKeepsUtf8(s: Bytes)
    requires Valid(s)
    ensures Valid(RedactBearer(s))
  {
    AutomatonIsGrammar(s);
    BearerKeepsUtf8(s, true, Start);
    AutomatonIsGrammar(RedactBearer(s));
  }

  // ---------------------------------------------------------------- the scanner

  lemma WordAt(bytes: Bytes, index: nat)
    requires index <= |bytes|
    ensures Word(bytes[index..]) <==>
              && index + 6 <= |bytes| && LowerAll(bytes[index..index + 6]) == LowerAll(BEARER[..6])
              && (index + 6 == |bytes| || IsSpace(bytes[index + 6]))
  {
    var s := bytes[index..];
    if |s| >= 6 {
      assert s[..6] == bytes[index..index + 6];
    }
  }

  lemma HeadAt(bytes: Bytes, index: nat, h: nat)
    requires index <= |bytes| && Word(bytes[index..]) && index + 6 <= h <= |bytes|
    requires (forall k :: index + 6 <= k < h ==> IsSpace(bytes[k])) && (h == |bytes| || !IsSpace(bytes[h]))
    ensures HeadLength(bytes[index..]) == h - index
    ensures TokenLength(bytes[index..]) == Span(bytes[h..], IsBearer)
    ensures bytes[index..][..h - index] == bytes[index..h]
  {
    hide Word, IsSpace, IsBearer, Span;
    DropDrop(bytes, index, 6);
    SpanFrom(bytes, index + 6, h, IsSpace);
    DropDrop(bytes, index, h - index);
  }

  lemma SliceGrows(s: Bytes, i: nat, j: nat)
    requires i <= j < |s|
    ensures s[i..j + 1] == s[i..j] + [s[j]]
  {
  }

  /** The scanner's position after a step, and what it has written by then. */
  lemma StepAt(bytes: Bytes, index: nat, boundary: bool)
    requires index < |bytes|
    ensures var s := bytes[index..];
            var c := Chunk(s, boundary);
            && index + c.0 <= |bytes|
            && Redacted(s, boundary) == After(c.1) + Redacted(bytes[index + c.0..], !IsKey(bytes[index + c.0 - 1]))
  {
    hide *;
    var s := bytes[index..];
    var c := Chunk(s, boundary);
    RedactedStep(s, boundary);
    DropDrop(bytes, index, c.0);
    assert s[c.0 - 1] == bytes[index + c.0 - 1];
  }

  /** The step of the scanner at the word. */
  method RedactToken(bytes: Bytes, start: nat) returns (index: nat, written: Bytes)
    requires start < |bytes| && Word(bytes[start..])
    ensures index == start + Chunk(bytes[start..], true).0 && written == After(Chunk(bytes[start..], true).1)
  {
    hide *;
    WordAt(bytes, start);
    written := bytes[start..start + 6];
    index := start + 6;
    while index < |bytes| && IsSpace(bytes[index])
      invariant start + 6 <= index <= |bytes|
      invariant forall k :: start + 6 <= k < index ==> IsSpace(bytes[k])
      invariant written == bytes[start..index]
    {
      SliceGrows(bytes, start, index);
      written := written + [bytes[index]];
      index := index + 1;
    }
    HeadAt(bytes, start, index);
    WordStep(bytes[start..]);
    var end := ScanToken(bytes, index);
    if end > index {
      written := written + MARKER;
      index := end;
    } else {
      assert written + [] == written;
    }
  }

  lemma CopiedChunk(s: Bytes, boundary: bool)
    requires s != [] && !(boundary && Word(s))
    ensures Chunk(s, boundary).0 == 1 && After(Chunk(s, boundary).1) == [s[0]]
  {
    hide *;
    CopyStep(s, boundary);
    OnePiece(Kept(s[..1]));
    PlainPiece(s[..1]);
    assert s[..1] == [s[0]];
  }

  lemma PassIs(record: Bytes)
    ensures RedactBearer(record) == Redacted(record, true) && |BEARER| == 7
  {
  }

  method RedactBearerValues(record: Bytes) returns (redacted: Bytes)
    requires Valid(record)
    ensures redacted == RedactBearer(record) && Valid(redacted)
  {
    hide *;
    PassIs(record);
    RedactBearerKeepsUtf8(record);
    var output: Bytes := [];
    var index := 0;
    assert record[0..] == record;
    while index < |record|
      invariant index <= |record|
      invariant output + Redacted(record[index..], index == 0 || !IsKey(record[index - 1])) == Redacted(record, true)
    {
      ghost var boundary := index == 0 || !IsKey(record[index - 1]);
      StepAt(record, index, boundary);
      ghost var c := Chunk(record[index..], boundary);
      ghost var rest := Redacted(record[index + c.0..], !IsKey(record[index + c.0 - 1]));
      ghost var before := output;
      WordAt(record, index);
      if index + 6 <= |record| && LowerAll(record[index..index + 6]) == LowerAll(BEARER[..6])
         && (index == 0 || !IsKey(record[index - 1]))
         && (index + 6 == |record| || IsSpace(record[index + 6])) {
        var end, written := RedactToken(record, index);
        output := output + written;
        index := end;
      } else {
        CopiedChunk(record[index..], boundary);
        output := output + [record[index]];
        index := index + 1;
      }
      Associates(before, After(c.1), rest);
    }
    NothingRedacted(index == 0 || !IsKey(record[index - 1]));
    assert output + [] == output;
    return if Valid(output) then output else MARKER;
  }
}
