/**
 Which secrets a sanitized record can still show.

 Passes add only the marker and the scheme "Bearer ", which the assignment pass writes in front of
 the marker when it hides a bearer token, whatever the spelling in the record. So a secret can come
 back only by overlapping a marker or by ending in a part of the scheme.
 */
module SecretRemoval {
  import opened Basics
  import opened Text
  import opened Masking
  import opened Sanitizer
  import AssignmentRedaction
  import BearerRedaction
  import UriRedaction

  // ---------------------------------------------------------------- what the assignment pass shows

  const SPACE: Byte := 0x20

  /** A value starts behind a separator or white space. */
  predicate EndsAssignment(b: Byte) {
    IsSpace(b) || b == 0x3D || b == 0x3A
  }

  /** The piece before is kept and ends where a value starts, and the hidden value holds a space. */
  predicate AtValue(pieces: seq<Piece>, k: nat)
    requires k < |pieces| && pieces[k].Hidden?
  {
    && k > 0
    && pieces[k - 1].Kept?
    && pieces[k - 1].bytes != []
    && EndsAssignment(pieces[k - 1].bytes[|pieces[k - 1].bytes| - 1])
    && SPACE in pieces[k].secret
  }

  /** Every hidden piece shows the marker, or the scheme and the marker where a value starts. */
  predicate ShowsSchemes(pieces: seq<Piece>) {
    forall k: nat :: k < |pieces| && pieces[k].Hidden? ==>
      pieces[k].shown == MARKER || (AssignmentRedaction.ShowsBearer(pieces[k]) && AtValue(pieces, k))
  }

  lemma ShowsSchemesAppend(a: seq<Piece>, b: seq<Piece>)
    requires ShowsSchemes(a) && ShowsSchemes(b)
    ensures ShowsSchemes(a + b)
  {
    hide EndsAssignment;
    var c := a + b;
    forall k: nat | k < |c| && c[k].Hidden?
      ensures c[k].shown == MARKER || (AssignmentRedaction.ShowsBearer(c[k]) && AtValue(c, k))
    {
      if k < |a| {
        assert c[k] == a[k];
      } else {
        assert c[k] == b[k - |a|];
      }
    }
  }

  lemma BearerHoldsSpace(s: Bytes, n: nat)
    requires AssignmentRedaction.BearerHead(s) && 7 <= n <= |s|
    ensures SPACE in s[..n]
  {
    assert Lower(s[6]) == LowerAll(s[..7])[6] == LowerAll(BEARER)[6] == SPACE;
    assert s[..n][6] == SPACE;
  }

  lemma ValueShowsSchemes(s: Bytes, key: Bytes, head: Bytes)
    requires head != [] && EndsAssignment(head[|head| - 1])
    ensures ShowsSchemes([Kept(head)] + AssignmentRedaction.Value(s, key).1)
  {
    hide AssignmentRedaction.TakesWholeRest, AssignmentRedaction.BearerHead, EndsAssignment, Until, Span;
    var n, pieces := AssignmentRedaction.Value(s, key).0, AssignmentRedaction.Value(s, key).1;
    if AssignmentRedaction.BearerHead(s) && n >= 7 {
      BearerHoldsSpace(s, n);
    }
  }

  lemma ChunkShowsSchemes(s: Bytes, boundary: bool)
    requires s != []
    ensures ShowsSchemes(AssignmentRedaction.Chunk(s, boundary).1)
  {
    hide AssignmentRedaction.Value, AssignmentRedaction.Assignment, IsKey;
    if boundary && IsKey(s[0]) && AssignmentRedaction.Assignment(s).Some? {
      var v, key := AssignmentRedaction.Assignment(s).value, s[..Span(s, IsKey)];
      AssignmentRedaction.BeforeValue(s);
      ValueShowsSchemes(s[v..], key, s[..v]);
    }
  }

  lemma {:induction false} AssignShowsSchemes(s: Bytes, boundary: bool)
    ensures ShowsSchemes(AssignmentRedaction.Assign(s, boundary))
    decreases |s|
  {
    hide AssignmentRedaction.Chunk, IsKey;
    if s != [] {
      var c := AssignmentRedaction.Chunk(s, boundary);
      ChunkShowsSchemes(s, boundary);
      AssignShowsSchemes(s[c.0..], !IsKey(s[c.0 - 1]));
      ShowsSchemesAppend(c.1, AssignmentRedaction.Assign(s[c.0..], !IsKey(s[c.0 - 1])));
    }
  }

  // ---------------------------------------------------------------- where a string is revealed

  predicate ShowsForms(pieces: seq<Piece>) {
    forall k: nat :: k < |pieces| && pieces[k].Hidden? ==>
      pieces[k].shown == MARKER || AssignmentRedaction.ShowsBearer(pieces[k])
  }

  /** The occurrence at i lies in front + BEARER and reaches into the scheme. */
  predicate Reaches(p: Bytes, front: Bytes, i: nat) {
    OccursAt(p, front + BEARER, i) && i + |p| > |front|
  }

  lemma AbsentParts(p: Bytes, a: Bytes, b: Bytes)
    requires !Occurs(p, a + b)
    ensures !Occurs(p, a) && !Occurs(p, b)
  {
    OccursInAppend(p, a, b);
  }

  lemma ReachesBehind(p: Bytes, a: Bytes, front: Bytes, i: nat)
    requires Reaches(p, front, i)
    ensures Reaches(p, a + front, |a| + i)
  {
    Associates(a, front, BEARER);
    var t := front + BEARER;
    assert (a + t)[|a| + i..|a| + i + |p|] == t[i..i + |p|];
  }

  lemma ReachesNew(p: Bytes, front: Bytes) returns (i: nat)
    requires Occurs(p, front + BEARER) && !Occurs(p, front)
    ensures Reaches(p, front, i)
  {
    var t := front + BEARER;
    i :| i <= |t| && OccursAt(p, t, i);
    if i + |p| <= |front| {
      OccursInPrefix(p, t, front, |front|, i);
    }
  }

  lemma FrontStep(pieces: seq<Piece>, k: nat)
    requires 0 < k <= |pieces|
    ensures After(pieces[..k]) == Seen(pieces[0]) + After(pieces[1..][..k - 1])
  {
    assert pieces[..k] == [pieces[0]] + pieces[1..][..k - 1];
    PieceFirst(pieces[0], pieces[1..][..k - 1]);
  }

  /** What the rest reveals behind a first piece that shows `shown`. */
  lemma RevealedInRest(pieces: seq<Piece>, p: Bytes, kept: Bytes, k: nat, i: nat)
    requires pieces != [] && k < |pieces| - 1 && Reaches(p, After(pieces[1..][..k]), i)
    ensures Reaches(p, kept + After(pieces[..k + 1]), |kept + Seen(pieces[0])| + i)
  {
    hide *;
    var front := After(pieces[1..][..k]);
    FrontStep(pieces, k + 1);
    ReachesBehind(p, kept + Seen(pieces[0]), front, i);
    Associates(kept, Seen(pieces[0]), front);
  }

  /** A first hidden piece: the string is in the rest, or it reaches into the scheme here. */
  lemma BehindHidden(kept: Bytes, scheme: Bytes, p: Bytes, rest: Bytes)
    requires p != [] && Apart(p, MARKER) && Occurs(p, kept + ((scheme + MARKER) + rest))
    ensures Occurs(p, kept + scheme) || Occurs(p, rest)
  {
    hide Occurs, Apart;
    Associates(kept, scheme + MARKER, rest);
    Associates(kept, scheme, MARKER);
    OccursBesideMarker(p, kept + scheme, MARKER, rest);
  }

  lemma AbsentBehind(kept: Bytes, secret: Bytes, rest: Bytes, p: Bytes)
    requires !Occurs(p, kept + (secret + rest))
    ensures !Occurs(p, kept) && !Occurs(p, rest)
  {
    hide Occurs;
    AbsentParts(p, kept, secret + rest);
    AbsentParts(p, secret, rest);
  }

  /** What the rest reveals behind a first piece that is kept. */
  lemma RevealedBehindKept(pieces: seq<Piece>, p: Bytes, kept: Bytes, k: nat, i: nat)
    requires pieces != [] && pieces[0].Kept? && k < |pieces| - 1
    requires Reaches(p, kept + pieces[0].bytes + After(pieces[1..][..k]), i)
    ensures Reaches(p, kept + After(pieces[..k + 1]), i)
  {
    hide Reaches, Before, After;
    FrontStep(pieces, k + 1);
    Associates(kept, pieces[0].bytes, After(pieces[1..][..k]));
  }

  /** A first hidden piece: the scheme was written, or the string is shown by the rest only. */
  lemma HiddenFirst(pieces: seq<Piece>, p: Bytes, kept: Bytes)
    requires pieces != [] && pieces[0].Hidden? && ShowsForms(pieces) && p != [] && Apart(p, MARKER)
    requires Occurs(p, kept + After(pieces)) && !Occurs(p, kept + Before(pieces))
    ensures !Occurs(p, Before(pieces[1..])) && !Occurs(p, kept)
    ensures Occurs(p, After(pieces[1..]))
            || (AssignmentRedaction.ShowsBearer(pieces[0]) && Occurs(p, kept + BEARER))
  {
    hide Occurs, Apart, Before, After;
    FirstPiece(pieces);
    var scheme := if pieces[0].shown == MARKER then [] else BEARER;
    assert scheme + MARKER == pieces[0].shown && kept + [] == kept;
    AbsentBehind(kept, pieces[0].secret, Before(pieces[1..]), p);
    BehindHidden(kept, scheme, p, After(pieces[1..]));
  }

  /** A string the record does not hold is shown only by reaching into a scheme written out. */
  lemma {:induction false} WhereShown(pieces: seq<Piece>, p: Bytes, kept: Bytes) returns (k: nat, i: nat)
    requires p != [] && Apart(p, MARKER) && ShowsForms(pieces)
    requires Occurs(p, kept + After(pieces)) && !Occurs(p, kept + Before(pieces))
    ensures k < |pieces| && AssignmentRedaction.ShowsBearer(pieces[k])
    ensures Reaches(p, kept + After(pieces[..k]), i)
    decreases |pieces|
  {
    hide Occurs, Apart, Reaches, Before, After, AssignmentRedaction.ShowsBearer;
    NothingMasked();
    var rest := pieces[1..];
    if pieces[0].Kept? {
      KeptFirst(pieces, kept);
      k, i := WhereShown(rest, p, kept + pieces[0].bytes);
      RevealedBehindKept(pieces, p, kept, k, i);
      k := k + 1;
    } else {
      HiddenFirst(pieces, p, kept);
      if Occurs(p, After(rest)) {
        NoPrefix(After(rest), Before(rest));
        k, i := WhereShown(rest, p, []);
        NoPrefix(After(rest[..k]), []);
        RevealedInRest(pieces, p, kept, k, i);
        k, i := k + 1, |kept + Seen(pieces[0])| + i;
      } else {
        NothingBefore(pieces, kept);
        i := ReachesNew(p, kept);
        k := 0;
      }
    }
  }

  lemma NothingBefore(pieces: seq<Piece>, kept: Bytes)
    ensures kept + [] == kept && kept + After(pieces[..0]) == kept
  {
  }

  lemma NoPrefix(a: Bytes, b: Bytes)
    ensures [] + a == a && [] + b == b
  {
  }

  lemma SplitAt(pieces: seq<Piece>, k: nat)
    requires k < |pieces|
    ensures Before(pieces) == Before(pieces[..k]) + (Original(pieces[k]) + Before(pieces[k + 1..]))
    ensures After(pieces) == After(pieces[..k]) + (Seen(pieces[k]) + After(pieces[k + 1..]))
  {
    hide *;
    var front, back := pieces[..k], pieces[k..];
    PiecesAppend(front, back);
    FirstPiece(back);
    PiecesMeet(pieces, k);
  }

  lemma PiecesMeet(pieces: seq<Piece>, k: nat)
    requires k < |pieces|
    ensures pieces[..k] + pieces[k..] == pieces
    ensures pieces[k..][0] == pieces[k] && pieces[k..][1..] == pieces[k + 1..]
  {
  }

  lemma ShownFromPiece(pieces: seq<Piece>, k: nat, p: Bytes)
    requires k < |pieces| && AssignmentRedaction.ShowsBearer(pieces[k])
    requires Occurs(p, After(pieces[..k]) + BEARER)
    ensures Occurs(p, After(pieces))
  {
    hide Before, After, Occurs;
    var front, rest := After(pieces[..k]), After(pieces[k + 1..]);
    SplitAt(pieces, k);
    OccursInAppend(p, front + BEARER, MARKER + rest);
    Associates(front, BEARER, MARKER + rest);
    Associates(BEARER, MARKER, rest);
  }

  /**
   Exactly when the assignment pass shows a string that cannot overlap the marker and is not in
   the record: when it occurs in the output up to a scheme the pass writes out.
   */
  lemma AssignmentShowsExactly(t: Bytes, p: Bytes)
    requires p != [] && Apart(p, MARKER) && !Occurs(p, t)
    ensures var pieces := AssignmentRedaction.Assign(t, true);
            Occurs(p, AssignmentRedaction.RedactAssignments(t)) <==>
            exists k: nat :: k < |pieces| && AssignmentRedaction.ShowsBearer(pieces[k])
              && Occurs(p, After(pieces[..k]) + BEARER)
  {
    hide Occurs, Apart, AssignmentRedaction.Assign;
    var pieces := AssignmentRedaction.Assign(t, true);
    if Occurs(p, AssignmentRedaction.RedactAssignments(t)) {
      var k, i := Revealed(t, p);
      ReachesOccurs(p, After(pieces[..k]), i);
    }
    forall k: nat | k < |pieces| && AssignmentRedaction.ShowsBearer(pieces[k])
        && Occurs(p, After(pieces[..k]) + BEARER)
      ensures Occurs(p, AssignmentRedaction.RedactAssignments(t))
    {
      ShownFromPiece(pieces, k, p);
    }
  }

  lemma ReachesOccurs(p: Bytes, front: Bytes, i: nat)
    requires Reaches(p, front, i)
    ensures Occurs(p, front + BEARER)
  {
  }

  lemma SchemesAreForms(pieces: seq<Piece>)
    requires ShowsSchemes(pieces)
    ensures ShowsForms(pieces)
  {
  }

  lemma Revealed(t: Bytes, p: Bytes) returns (k: nat, i: nat)
    requires p != [] && Apart(p, MARKER) && !Occurs(p, t)
    requires Occurs(p, AssignmentRedaction.RedactAssignments(t))
    ensures var pieces := AssignmentRedaction.Assign(t, true);
            k < |pieces| && AssignmentRedaction.ShowsBearer(pieces[k]) && Reaches(p, After(pieces[..k]), i)
  {
    hide Occurs, Apart, Reaches, ShowsSchemes, ShowsForms, AssignmentRedaction.Assign;
    var pieces := AssignmentRedaction.Assign(t, true);
    AssignShowsSchemes(t, true);
    SchemesAreForms(pieces);
    AssignmentRedaction.AssignCopiesTheRest(t, true);
    assert [] + After(pieces) == After(pieces) && [] + Before(pieces) == Before(pieces);
    k, i := WhereShown(pieces, p, []);
    assert [] + After(pieces[..k]) == After(pieces[..k]);
  }

  // ---------------------------------------------------------------- which secrets can come back

  /** The string is a part of "Bearer " up to e, or ends in its first e bytes where a value starts. */
  predicate EndsAt(p: Bytes, e: nat)
    requires e <= 7
  {
    if |p| <= e then p == BEARER[e - |p|..e]
    else p[|p| - e..] == BEARER[..e] && EndsAssignment(p[|p| - e - 1])
  }

  /** Only such a secret can come back; a lone space cannot. */
  predicate EndsInScheme(p: Bytes) {
    p != [SPACE] && exists e: nat :: 1 <= e <= 7 && EndsAt(p, e)
  }

  lemma ReachedPart(p: Bytes, front: Bytes, i: nat)
    requires Reaches(p, front, i) && front != [] && EndsAssignment(front[|front| - 1])
    ensures 1 <= i + |p| - |front| <= 7 && EndsAt(p, i + |p| - |front|)
  {
    var e := i + |p| - |front|;
    var t := front + BEARER;
    assert t[i..i + |p|] == p;
    if |p| <= e {
      assert t[i..i + |p|] == BEARER[e - |p|..e];
    } else {
      assert t[i..i + |p|][|p| - e..] == BEARER[..e];
      assert p[|p| - e - 1] == t[|front| - 1];
    }
  }

  /** Up to the scheme written out, the output ends where a value starts. */
  lemma FrontEnds(pieces: seq<Piece>, k: nat)
    requires k < |pieces| && pieces[k].Hidden? && AtValue(pieces, k)
    ensures var front := After(pieces[..k]); front != [] && EndsAssignment(front[|front| - 1])
  {
    hide Before, After, EndsAssignment;
    assert pieces[..k] == pieces[..k - 1] + [pieces[k - 1]];
    PiecesAppend(pieces[..k - 1], [pieces[k - 1]]);
    OnePiece(pieces[k - 1]);
    var a, b := After(pieces[..k - 1]), pieces[k - 1].bytes;
    assert (a + b)[|a + b| - 1] == b[|b| - 1];
  }

  lemma SpaceOccurs(t: Bytes)
    requires SPACE in t
    ensures Occurs([SPACE], t)
  {
    var i: nat :| i < |t| && t[i] == SPACE;
    assert t[i..i + 1] == [SPACE];
    assert OccursAt([SPACE], t, i);
  }

  lemma HiddenInRecord(pieces: seq<Piece>, k: nat)
    requires k < |pieces| && pieces[k].Hidden? && SPACE in pieces[k].secret
    ensures SPACE in Before(pieces)
  {
    hide Before, After;
    SplitAt(pieces, k);
    assert SPACE in Original(pieces[k]);
  }

  lemma RevealedEndsInScheme(t: Bytes, p: Bytes)
    requires p != [] && Apart(p, MARKER) && !Occurs(p, t)
    requires Occurs(p, AssignmentRedaction.RedactAssignments(t))
    ensures EndsInScheme(p)
  {
    hide Occurs, Apart, Reaches, AssignmentRedaction.Assign, AtValue, EndsAt, EndsAssignment;
    var pieces := AssignmentRedaction.Assign(t, true);
    var k, i := Revealed(t, p);
    AssignShowsSchemes(t, true);
    SchemeAtValue(pieces, k);
    FrontEnds(pieces, k);
    var front := After(pieces[..k]);
    ReachedPart(p, front, i);
    AssignmentRedaction.AssignCopiesTheRest(t, true);
    HiddenInRecord(pieces, k);
    SpaceOccurs(t);
    var e: nat := i + |p| - |front|;
    assert EndsAt(p, e);
  }

  lemma SchemeAtValue(pieces: seq<Piece>, k: nat)
    requires ShowsSchemes(pieces) && k < |pieces| && AssignmentRedaction.ShowsBearer(pieces[k])
    ensures AtValue(pieces, k) && SPACE in pieces[k].secret
  {
    assert |pieces[k].shown| != |MARKER|;
  }

  /**
   Whatever the record, no secret survives sanitizing if it cannot overlap the marker and does
   not end in a part of the scheme name that the assignment pass writes out.
   */
  lemma NoSecretSurvives(s: Bytes, secrets: seq<Bytes>, secret: Bytes)
    requires secret in secrets && secret != [] && Apart(secret, MARKER) && !EndsInScheme(secret)
    ensures !Occurs(secret, Sanitize(s, secrets))
  {
    hide Occurs, Apart, ReplaceSecrets, AssignmentRedaction.RedactAssignments, BearerRedaction.RedactBearer,
      UriRedaction.RedactUri, EndsInScheme;
    var t := ReplaceSecrets(s, secrets);
    ReplacementRemoves(s, secrets, secret);
    if Occurs(secret, AssignmentRedaction.RedactAssignments(t)) {
      RevealedEndsInScheme(t, secret);
    }
    LaterPassesKeepItGone(AssignmentRedaction.RedactAssignments(t), secret);
  }

  // ---------------------------------------------------------------- a secret that comes back

  /** "Bearer" */
  const SCHEME_NAME: Bytes := [0x42, 0x65, 0x61, 0x72, 0x65, 0x72]

  /** "AUTHORIZATION:" */
  const HEADER: Bytes := [0x41, 0x55, 0x54, 0x48, 0x4F, 0x52, 0x49, 0x5A, 0x41, 0x54, 0x49, 0x4F, 0x4E, 0x3A]

  /** "bEARER x" */
  const TOKEN: Bytes := [0x62, 0x45, 0x41, 0x52, 0x45, 0x52, 0x20, 0x78]

  lemma HeaderAssigns(r: Bytes)
    requires r != [] && !IsSpace(r[0])
    ensures Span(HEADER + r, IsKey) == 13 && AssignmentRedaction.Assignment(HEADER + r) == Some(14)
  {
    hide AssignmentRedaction.Assignment, AssignmentRedaction.Separator, Span, LowerAll;
    var key, colon := HEADER[..13], [0x3A];
    HeaderIsSensitive();
    HeaderSeparator(r);
    AssignmentRedaction.AssignmentIs(key, colon, [], r);
    assert key + (colon + ([] + r)) == HEADER + r;
  }

  lemma HeaderSeparator(r: Bytes)
    ensures AssignmentRedaction.Separator([0x3A] + ([] + r), false) == Some(1)
  {
  }

  lemma HeaderIsSensitive()
    ensures AssignmentRedaction.Sensitive(HEADER[..13])
    ensures forall i :: 0 <= i < 13 ==> IsKey(HEADER[..13][i])
  {
    var needle := AssignmentRedaction.Needles()[7];
    assert LowerAll(HEADER[..13]) == needle;
    assert needle[0..0 + |needle|] == needle;
    assert OccursAt(needle, LowerAll(HEADER[..13]), 0);
  }

  lemma TokenIsBearer(key: Bytes)
    ensures var v := AssignmentRedaction.Value(TOKEN, key); v.0 == 8 && After(v.1) == BEARER + MARKER
    ensures !AssignmentRedaction.NoBearer(AssignmentRedaction.Value(TOKEN, key).1)
  {
    hide Span, AssignmentRedaction.TakesWholeRest;
    assert LowerAll(TOKEN[..7]) == LowerAll(BEARER);
    assert TOKEN[7..] == [0x78];
    SpanIs([0x78], [], IsBearer);
    assert [0x78] + [] == [0x78];
    AssignmentRedaction.ValueIsToken(TOKEN, key);
    assert AssignmentRedaction.ShowsBearer(AssignmentRedaction.Value(TOKEN, key).1[0]);
  }

  /** The assignment pass writes the scheme out in its own spelling. */
  lemma SchemeIsWritten()
    ensures AssignmentRedaction.RedactAssignments(HEADER + TOKEN) == HEADER + (BEARER + MARKER)
    ensures !AssignmentRedaction.NoBearer(AssignmentRedaction.Assign(HEADER + TOKEN, true))
  {
    hide AssignmentRedaction.Value, AssignmentRedaction.Assignment, AssignmentRedaction.Chunk, Span, Before, After,
      LowerAll, AssignmentRedaction.NoBearer, AssignmentRedaction.Assign;
    var record := HEADER + TOKEN;
    HeaderAssigns(TOKEN);
    Cut(HEADER, TOKEN);
    assert |HEADER| == 14 && record[0] == 0x41 && |record| == 22;
    AssignmentRedaction.MaskedChunk(record, true);
    TokenIsBearer(record[..13]);
    AssignmentRedaction.RedactedStep(record, true);
    AssignmentRedaction.NoBearerStep(record, true);
    assert record[22..] == [];
    AssignmentRedaction.NothingRedacted(!IsKey(record[21]));
    assert HEADER + (BEARER + MARKER) + [] == HEADER + (BEARER + MARKER);
  }

  /** A second assignment pass changes that output again. */
  lemma SecondPassDiffers()
    ensures var out := AssignmentRedaction.RedactAssignments(HEADER + TOKEN);
            AssignmentRedaction.RedactAssignments(out) != out
  {
    hide AssignmentRedaction.RedactAssignments, AssignmentRedaction.Assign, AssignmentRedaction.NoBearer;
    SchemeIsWritten();
    AssignmentRedaction.IdempotentExactlyWithoutBearer(HEADER + TOKEN);
  }

  lemma NoTokenBehindScheme()
    ensures BearerRedaction.Word(BEARER + MARKER) ==> BearerRedaction.TokenLength(BEARER + MARKER) == 0
  {
    hide Span, LowerAll;
    var t := BEARER + MARKER;
    if BearerRedaction.Word(t) {
      CutTwice(BEARER[..6], [SPACE], MARKER);
      assert BEARER[..6] + ([SPACE] + MARKER) == t;
      SpanIs([SPACE], MARKER, IsSpace);
      SpanIs([], MARKER, IsBearer);
      assert [] + MARKER == MARKER;
    }
  }

  lemma NothingExposedInOutput()
    ensures BearerRedaction.NothingExposed(HEADER + (BEARER + MARKER), true)
  {
    hide BearerRedaction.Word, BearerRedaction.TokenLength, IsKey;
    var out := HEADER + (BEARER + MARKER);
    forall i: nat
      ensures !BearerRedaction.ExposedAt(out, true, i)
    {
      if i == 14 {
        Cut(HEADER, BEARER + MARKER);
        assert |HEADER| == 14;
        NoTokenBehindScheme();
      } else if i <= |out| {
        assert i < |out| ==> out[i..][0] == out[i];
        OneCapital(i);
        BearerRedaction.NotWord(out[i..]);
      }
    }
  }

  lemma OneCapital(i: nat)
    requires i != 14
    ensures var out := HEADER + (BEARER + MARKER); i < |out| ==> out[i] != 0x42 && out[i] != 0x62
  {
  }

  lemma NoScheme()
    ensures UriRedaction.RedactUri(HEADER + (BEARER + MARKER)) == HEADER + (BEARER + MARKER)
  {
    hide Find, UriRedaction.Uri, UriRedaction.Look, After;
    var out := HEADER + (BEARER + MARKER);
    forall i: nat
      ensures !OccursAt(UriRedaction.SCHEME, out, i)
    {
      NoSlash(i + 1);
      assert i + 3 <= |out| ==> out[i..i + 3][1] == out[i + 1];
    }
    UriRedaction.LookedAt(out);
    UriRedaction.RedactedStep(out);
  }

  lemma NoSlash(i: nat)
    ensures var out := HEADER + (BEARER + MARKER); i < |out| ==> out[i] != 0x2F
  {
  }

  lemma {:induction false} NothingReplaced(s: Bytes, secret: Bytes)
    requires secret != [] && !Occurs(secret, s)
    ensures ReplaceSecrets(s, [secret]) == s
  {
    hide Occurs;
    LongestFirstIsStable([secret], 0);
    assert [secret][1..] == [];
    assert LongestFirst([secret]) == [secret];
    OnePiece(Kept(s));
    ReplaceNothing(s, secret);
  }

  lemma ReplaceNothing(s: Bytes, secret: Bytes)
    requires secret != [] && !Occurs(secret, s)
    ensures Replaced(s, secret) == s && ReplaceEach(s, [secret]) == s
  {
    hide Occurs, Find;
    OnePiece(Kept(s));
    assert [secret][1..] == [];
  }

  lemma LetterIsNew(k: nat, i: nat)
    requires k < 6
    ensures var record := HEADER + TOKEN; i < |record| ==> BEARER[k] != record[i]
  {
  }

  lemma SchemeAvoidsMarker(i: nat, j: nat)
    requires i < |BEARER| && j < |MARKER|
    ensures BEARER[i] != MARKER[j]
  {
  }

  /** A part of the scheme does not occur in the record as it is spelt. */
  lemma LettersAreNew(p: Bytes, e: nat)
    requires 1 <= e <= 7 && 0 < |p| <= e && p == BEARER[e - |p|..e] && p != [SPACE]
    ensures Apart(p, MARKER) && !Occurs(p, HEADER + TOKEN)
  {
    hide HEADER, TOKEN, MARKER;
    var record := HEADER + TOKEN;
    var first := e - |p|;
    assert first == 6 ==> p == [SPACE];
    assert forall k :: 0 <= k < |p| ==> p[k] == BEARER[first + k];
    forall k, j | 0 <= k < |p| && 0 <= j < |MARKER|
      ensures p[k] != MARKER[j]
    {
      SchemeAvoidsMarker(first + k, j);
    }
    MarkerEnds();
    DisjointIsApart(p, MARKER);
    forall i: nat
      ensures !OccursAt(p, record, i)
    {
      LetterIsNew(first, i);
      if i + |p| <= |record| {
        assert record[i..i + |p|][0] == record[i] != p[0];
      }
    }
  }

  lemma PartOccurs(p: Bytes, e: nat)
    requires 1 <= e <= 7 && 0 < |p| <= e && p == BEARER[e - |p|..e]
    ensures Occurs(p, HEADER + (BEARER + MARKER))
  {
    var out, i := HEADER + (BEARER + MARKER), 14 + e - |p|;
    Cut(HEADER, BEARER + MARKER);
    Cut(BEARER, MARKER);
    assert |HEADER| == 14 && |BEARER| == 7;
    assert out[i..i + |p|] == out[14..][e - |p|..e] == BEARER[e - |p|..e];
    assert OccursAt(p, out, i);
  }

  /** A part of "Bearer " comes back in this record, though it was not in it: "AUTHORIZATION:bEARER x". */
  lemma PartAppears(p: Bytes, e: nat)
    requires 1 <= e <= 7 && 0 < |p| <= e && p == BEARER[e - |p|..e] && p != [SPACE]
    ensures Apart(p, MARKER) && !Occurs(p, HEADER + TOKEN)
    ensures Occurs(p, Sanitize(HEADER + TOKEN, [p]))
  {
    hide Occurs, ReplaceSecrets, AssignmentRedaction.RedactAssignments, BearerRedaction.Redacted,
      UriRedaction.RedactUri, Apart, BearerRedaction.NothingExposed;
    LettersAreNew(p, e);
    NothingReplaced(HEADER + TOKEN, p);
    SchemeIsWritten();
    NothingExposedInOutput();
    BearerRedaction.FixedExactlyWhenNothingExposed(HEADER + (BEARER + MARKER), true);
    NoScheme();
    PartOccurs(p, e);
  }

  /** The name of the scheme itself, as a secret. */
  lemma SchemeNameAppears()
    ensures Apart(SCHEME_NAME, MARKER) && !Occurs(SCHEME_NAME, HEADER + TOKEN)
    ensures Occurs(SCHEME_NAME, Sanitize(HEADER + TOKEN, [SCHEME_NAME]))
  {
    hide Occurs, Sanitize;
    assert SCHEME_NAME == BEARER[0..6];
    PartAppears(SCHEME_NAME, 6);
  }

  /** A part of "Bearer " comes back in some record exactly if it is not the lone space. */
  lemma PartComesBackExactly(p: Bytes, e: nat)
    requires 1 <= e <= 7 && 0 < |p| <= e && p == BEARER[e - |p|..e]
    ensures (exists s: Bytes :: Occurs(p, Sanitize(s, [p]))) <==> p != [SPACE]
  {
    hide Occurs, Sanitize;
    if p != [SPACE] {
      PartAppears(p, e);
    } else {
      SpaceIsNotMarker();
      forall s: Bytes
        ensures !Occurs(p, Sanitize(s, [p]))
      {
        NoSecretSurvives(s, [p], p);
      }
    }
  }

  lemma SpaceIsNotMarker()
    ensures Apart([SPACE], MARKER) && !EndsInScheme([SPACE])
  {
    DisjointIsApart([SPACE], MARKER);
  }

  // ---------------------------------------------------------------- secrets and the marker

  const OPEN: Byte := 0x5B
  const CLOSE: Byte := 0x5D

  lemma MarkerEnds()
    ensures |MARKER| == 10 && MARKER[0] == OPEN && MARKER[9] == CLOSE
  {
  }

  /** A string without square brackets can overlap the marker only as a part of it. */
  lemma ApartExactly(p: Bytes)
    requires p != [] && OPEN !in p && CLOSE !in p
    ensures Apart(p, MARKER) <==> !Occurs(p, MARKER)
  {
    hide MARKER, Fits;
    MarkerEnds();
    forall d | -|p| < d < |MARKER| && Fits(p, MARKER, d)
      ensures Occurs(p, MARKER)
    {
      FitsInside(p, d);
    }
    if Occurs(p, MARKER) {
      var i: nat :| i <= |MARKER| && OccursAt(p, MARKER, i);
      PartFits(p, i);
    }
  }

  lemma NotBefore(p: Bytes, d: int)
    requires OPEN !in p && -|p| < d < 0
    ensures !Fits(p, MARKER, d)
  {
    hide MARKER;
    MarkerEnds();
    assert p[-d] != MARKER[0];
  }

  lemma NotBehind(p: Bytes, d: int)
    requires CLOSE !in p && d < 10 < d + |p|
    ensures !Fits(p, MARKER, d)
  {
    hide MARKER;
    MarkerEnds();
    assert p[9 - d] != MARKER[9];
  }

  lemma FitsInside(p: Bytes, d: int)
    requires OPEN !in p && CLOSE !in p && -|p| < d < 10 && Fits(p, MARKER, d)
    ensures Occurs(p, MARKER)
  {
    hide MARKER;
    MarkerEnds();
    if d < 0 {
      NotBefore(p, d);
    } else if d + |p| > 10 {
      NotBehind(p, d);
    } else {
      assert MARKER[d..d + |p|] == p;
      assert OccursAt(p, MARKER, d);
    }
  }

  lemma PartFits(p: Bytes, i: nat)
    requires p != [] && OccursAt(p, MARKER, i)
    ensures !Apart(p, MARKER)
  {
    hide MARKER;
    forall k | 0 <= k < |p| && 0 <= k + i < |MARKER|
      ensures p[k] == MARKER[k + i]
    {
      assert MARKER[i..i + |p|][k] == MARKER[k + i];
    }
    assert Fits(p, MARKER, i);
  }

  lemma ReplacesItself(p: Bytes)
    requires p != []
    ensures ReplaceSecrets(p, [p]) == MARKER
  {
    hide Find, MARKER, Replaced;
    LongestFirstIsStable([p], 0);
    assert [p][1..] == [];
    assert LongestFirst([p]) == [p];
    WholeIsReplaced(p);
  }

  lemma WholeIsReplaced(p: Bytes)
    requires p != []
    ensures Replaced(p, p) == MARKER && ReplaceEach(p, [p]) == MARKER
  {
    hide Find, MARKER, Replaced;
    assert [p][1..] == [];
    assert OccursAt(p, p, 0);
    assert Find(p, p) == Some(0);
    assert Find([], p) == None;
    ReplacedStep(p, p);
    ReplacedStep([], p);
    assert p[|p|..] == [] && p[..0] == [];
    assert [] + (MARKER + []) == MARKER;
  }

  lemma MarkerHasNoAssignment()
    ensures AssignmentRedaction.RedactAssignments(MARKER) == MARKER
  {
    hide AssignmentRedaction.Redacted, AssignmentRedaction.Assignment, Span;
    var key, close := MARKER[1..9], [CLOSE];
    MarkerIsKey();
    AssignmentRedaction.CopyStep(MARKER, true);
    assert MARKER[1..] == key + close;
    SpanIs(key, close, IsKey);
    Cut(key, close);
    NoSeparator(key + close);
    AssignmentRedaction.KeyStep(key + close);
    AssignmentRedaction.CopyStep(close, false);
    AssignmentRedaction.NothingRedacted(!IsKey(CLOSE));
    assert close[1..] == [] && [CLOSE] + [] == close;
    assert MARKER == [OPEN] + (key + close);
  }

  lemma MarkerIsKey()
    ensures MARKER[0] == OPEN && MARKER[9] == CLOSE && |MARKER| == 10 && !IsKey(OPEN) && !IsKey(CLOSE)
    ensures forall k :: 0 <= k < 8 ==> IsKey(MARKER[1..9][k])
  {
  }

  lemma NoSeparator(s: Bytes)
    requires Span(s, IsKey) == 8 && s[8..] == [CLOSE]
    ensures AssignmentRedaction.Assignment(s).None?
  {
    hide AssignmentRedaction.Sensitive, Span;
    assert AssignmentRedaction.Separator([CLOSE], false) == None;
  }

  lemma NoSlashInMarker(i: nat)
    ensures i < |MARKER| ==> MARKER[i] != 0x2F
  {
  }

  lemma MarkerHasNoScheme()
    ensures UriRedaction.RedactUri(MARKER) == MARKER
  {
    hide Find, UriRedaction.Uri, UriRedaction.Look, After, MARKER;
    forall i: nat
      ensures !OccursAt(UriRedaction.SCHEME, MARKER, i)
    {
      NoSlashInMarker(i + 1);
      assert i + 3 <= |MARKER| ==> MARKER[i..i + 3][1] == MARKER[i + 1];
    }
    UriRedaction.LookedAt(MARKER);
    UriRedaction.RedactedStep(MARKER);
  }

  /** A part of the marker, as a secret, is replaced by the marker, which shows it. */
  lemma MarkerPartSurvives(p: Bytes)
    requires p != [] && Occurs(p, MARKER)
    ensures Sanitize(p, [p]) == MARKER && Occurs(p, Sanitize(p, [p]))
  {
    hide Occurs, ReplaceSecrets, AssignmentRedaction.RedactAssignments, BearerRedaction.Redacted,
      UriRedaction.RedactUri, MARKER;
    ReplacesItself(p);
    MarkerHasNoAssignment();
    MarkerEnds();
    BearerRedaction.CopyMarker(0, [], true);
    BearerRedaction.NothingRedacted(true);
    assert MARKER[0..] + [] == MARKER;
    MarkerHasNoScheme();
  }

  /**
   A secret without square brackets that does not end in the scheme comes back in some record
   exactly if it is a part of the marker.
   */
  lemma ComesBackExactly(p: Bytes)
    requires p != [] && OPEN !in p && CLOSE !in p && !EndsInScheme(p)
    ensures (exists s: Bytes :: Occurs(p, Sanitize(s, [p]))) <==> Occurs(p, MARKER)
  {
    hide Occurs, Sanitize, EndsInScheme, MARKER;
    ApartExactly(p);
    if Occurs(p, MARKER) {
      MarkerPartSurvives(p);
    } else {
      forall s: Bytes
        ensures !Occurs(p, Sanitize(s, [p]))
      {
        NoSecretSurvives(s, [p], p);
      }
    }
  }
}
