/**
 What a sanitized record is, stated by the grammars of its passes, and what it no longer shows.

 `SanitizedTo` relates a record to its sanitized form without the functions that compute it: the
 secrets are replaced from the longest to the shortest, and the readings of the three redaction
 passes follow one another.
 */
module SanitizedRecord {
  import opened Basics
  import opened Text
  import opened Masking
  import opened RecordGrammar
  import AssignmentGrammar
  import BearerGrammar
  import UriGrammar
  import AssignmentRedaction
  import BearerRedaction
  import UriRedaction
  import Sanitizer

  // ---------------------------------------------------------------- replacing the secrets

  /** A byte at which the secret does not start, or the secret. */
  datatype Segment = Other(b: Byte) | Secret

  function SourceOf(seg: Segment, secret: Bytes): Bytes {
    if seg.Other? then [seg.b] else secret
  }

  function ShownOf(seg: Segment): Bytes {
    if seg.Other? then [seg.b] else Ascii("[REDACTED]")
  }

  function ShownAll(segs: seq<Segment>): Bytes {
    if segs == [] then [] else ShownOf(segs[0]) + ShownAll(segs[1..])
  }

  /** The record is read from left to right, with the secret wherever it starts. */
  predicate Reading(s: Bytes, secret: Bytes, segs: seq<Segment>)
    decreases |segs|
  {
    if segs == [] then s == []
    else
      var source := SourceOf(segs[0], secret);
      source <= s && (secret <= s <==> segs[0].Secret?) && Reading(s[|source|..], secret, segs[1..])
  }

  /** The secrets are replaced one after the other. */
  ghost predicate ReplacedTo(s: Bytes, secrets: seq<Bytes>, out: Bytes)
    decreases |secrets|
  {
    if secrets == [] then out == s
    else exists segs :: Reading(s, secrets[0], segs) && ReplacedTo(ShownAll(segs), secrets[1..], out)
  }

  /** From the longest to the shortest, those of one length in the given order, without empty ones. */
  ghost predicate Ordered(secrets: seq<Bytes>, sorted: seq<Bytes>) {
    && (forall i, j :: 0 <= i < j < |sorted| ==> |sorted[i]| >= |sorted[j]|)
    && (forall y :: y in sorted <==> y in secrets && y != [])
    && (forall n: nat :: n > 0 ==> Sanitizer.OfLength(sorted, n) == Sanitizer.OfLength(secrets, n))
  }

  lemma Markers()
    ensures Ascii("[REDACTED]") == MARKER
  {
  }

  lemma ReplacedHere(s: Bytes, secret: Bytes)
    requires secret != []
    ensures secret <= s ==> Sanitizer.Replaced(s, secret) == MARKER + Sanitizer.Replaced(s[|secret|..], secret)
    ensures s != [] && !(secret <= s) ==> Sanitizer.Replaced(s, secret) == [s[0]] + Sanitizer.Replaced(s[1..], secret)
    ensures s == [] ==> Sanitizer.Replaced(s, secret) == []
  {
    hide *;
    if secret <= s {
      Sanitizer.ReplacedStep(s, secret);
      FoundHere(s, secret);
      NothingBefore(s, MARKER + Sanitizer.Replaced(s[|secret|..], secret));
    } else if s == [] {
      NotInNothing(secret);
      Sanitizer.ReplacedStep(s, secret);
    } else {
      MissedHere(s, secret);
    }
  }

  lemma NothingBefore(s: Bytes, r: Bytes)
    ensures s[..0] + r == r
  {
  }

  lemma NotInNothing(secret: Bytes)
    requires secret != []
    ensures Find([], secret) == None
  {
  }

  lemma MissedHere(s: Bytes, secret: Bytes)
    requires secret != [] && s != [] && !(secret <= s)
    ensures Sanitizer.Replaced(s, secret) == [s[0]] + Sanitizer.Replaced(s[1..], secret)
  {
    hide *;
    NotAtStart(s, secret);
    FoundLater(s, secret);
    Sanitizer.ReplacedStep(s, secret);
    Sanitizer.ReplacedStep(s[1..], secret);
    if Find(s, secret).Some? {
      var i := Find(s, secret).value;
      FrontOf(s, i);
      DropDrop(s, 1, i - 1 + |secret|);
      Associates([s[0]], s[1..][..i - 1], MARKER + Sanitizer.Replaced(s[i + |secret|..], secret));
    } else {
      assert s == [s[0]] + s[1..];
    }
  }

  lemma FrontOf(s: Bytes, i: nat)
    requires 0 < i <= |s|
    ensures s[..i] == [s[0]] + s[1..][..i - 1]
  {
  }

  lemma NotAtStart(s: Bytes, secret: Bytes)
    requires !(secret <= s)
    ensures !OccursAt(secret, s, 0)
  {
  }

  lemma FoundHere(s: Bytes, secret: Bytes)
    requires secret <= s
    ensures Find(s, secret) == Some(0)
  {
    assert OccursAt(secret, s, 0);
  }

  lemma FoundLater(s: Bytes, secret: Bytes)
    requires s != [] && !OccursAt(secret, s, 0)
    ensures Find(s[1..], secret) == if Find(s, secret).Some? then Some(Find(s, secret).value - 1) else None
    ensures Find(s, secret).Some? ==> Find(s, secret).value > 0
  {
    hide OccursAt;
  }

  lemma {:induction false} ReadingExists(s: Bytes, secret: Bytes) returns (segs: seq<Segment>)
    requires secret != []
    ensures Reading(s, secret, segs) && ShownAll(segs) == Sanitizer.Replaced(s, secret)
    decreases |s|
  {
    hide Sanitizer.Replaced;
    Markers();
    ReplacedHere(s, secret);
    if s == [] {
      segs := [];
    } else {
      var seg := if secret <= s then Secret else Other(s[0]);
      var more := ReadingExists(s[|SourceOf(seg, secret)|..], secret);
      segs := [seg] + more;
      assert segs[1..] == more;
    }
  }

  lemma {:induction false} SecretsAreReplaced(s: Bytes, secrets: seq<Bytes>)
    requires Sanitizer.NoneEmpty(secrets)
    ensures ReplacedTo(s, secrets, Sanitizer.ReplaceEach(s, secrets))
    decreases |secrets|
  {
    hide Reading, Sanitizer.Replaced;
    if secrets != [] {
      var segs := ReadingExists(s, secrets[0]);
      SecretsAreReplaced(Sanitizer.Replaced(s, secrets[0]), secrets[1..]);
    }
  }

  lemma OrderIs(secrets: seq<Bytes>)
    ensures Ordered(secrets, Sanitizer.LongestFirst(secrets))
  {
    hide Sanitizer.LongestFirst, Sanitizer.OfLength;
    Sanitizer.LongestFirstIsStable(secrets, 0);
    forall n: nat | n > 0
      ensures Sanitizer.OfLength(Sanitizer.LongestFirst(secrets), n) == Sanitizer.OfLength(secrets, n)
    {
      Sanitizer.LongestFirstIsStable(secrets, n);
    }
  }

  // ---------------------------------------------------------------- the whole record

  /** The readings of one record by all passes. */
  ghost predicate Passes(record: Bytes, secrets: seq<Bytes>, out: Bytes, sorted: seq<Bytes>, replaced: Bytes,
                         a: seq<AssignmentGrammar.Segment>, b: seq<BearerGrammar.Segment>, c: seq<UriGrammar.Segment>)
  {
    && Ordered(secrets, sorted) && ReplacedTo(record, sorted, replaced)
    && AssignmentGrammar.Reading(replaced, a)
    && BearerGrammar.Reading(AssignmentGrammar.ShownAll(a), true, b)
    && UriGrammar.Reading(BearerGrammar.ShownAll(b), c)
    && out == UriGrammar.ShownAll(c)
  }

  ghost predicate SanitizedTo(record: Bytes, secrets: seq<Bytes>, out: Bytes) {
    exists sorted, replaced, a, b, c :: Passes(record, secrets, out, sorted, replaced, a, b, c)
  }

  lemma SanitizeIsRead(record: Bytes, secrets: seq<Bytes>)
    ensures SanitizedTo(record, secrets, Sanitizer.Sanitize(record, secrets))
  {
    hide *;
    var sorted, replaced := Sanitizer.LongestFirst(secrets), Sanitizer.ReplaceSecrets(record, secrets);
    OrderIs(secrets);
    Sanitizer.LongestFirstIsStable(secrets, 0);
    NoneEmptyIn(secrets);
    SecretsAreReplaced(record, sorted);
    PassesCompose(record, secrets);
    var a := AssignmentGrammar.ReadingExists(replaced);
    AssignmentGrammar.AssignmentsAreMasked(replaced);
    var b := BearerGrammar.ReadingExists(AssignmentGrammar.ShownAll(a), true);
    BearerGrammar.TokensAreMasked(AssignmentGrammar.ShownAll(a));
    var c := UriGrammar.ReadingExists(BearerGrammar.ShownAll(b));
    UriGrammar.PasswordsAreMasked(BearerGrammar.ShownAll(b));
    PassesAre(record, secrets, UriGrammar.ShownAll(c), sorted, replaced, a, b, c);
  }

  lemma NoneEmptyIn(secrets: seq<Bytes>)
    ensures Sanitizer.NoneEmpty(Sanitizer.LongestFirst(secrets))
  {
    hide Sanitizer.LongestFirst;
    Sanitizer.LongestFirstIsStable(secrets, 0);
  }

  lemma PassesCompose(record: Bytes, secrets: seq<Bytes>)
    ensures Sanitizer.NoneEmpty(Sanitizer.LongestFirst(secrets))
    ensures Sanitizer.ReplaceSecrets(record, secrets)
            == Sanitizer.ReplaceEach(record, Sanitizer.LongestFirst(secrets))
    ensures Sanitizer.Sanitize(record, secrets)
            == UriRedaction.RedactUri(BearerRedaction.RedactBearer(
                 AssignmentRedaction.RedactAssignments(Sanitizer.ReplaceSecrets(record, secrets))))
  {
    NoneEmptyIn(secrets);
  }

  lemma PassesAre(record: Bytes, secrets: seq<Bytes>, out: Bytes, sorted: seq<Bytes>, replaced: Bytes,
                  a: seq<AssignmentGrammar.Segment>, b: seq<BearerGrammar.Segment>, c: seq<UriGrammar.Segment>)
    requires Ordered(secrets, sorted) && ReplacedTo(record, sorted, replaced)
    requires AssignmentGrammar.Reading(replaced, a)
    requires BearerGrammar.Reading(AssignmentGrammar.ShownAll(a), true, b)
    requires UriGrammar.Reading(BearerGrammar.ShownAll(b), c)
    requires out == UriGrammar.ShownAll(c)
    ensures SanitizedTo(record, secrets, out)
  {
    hide Ordered, ReplacedTo, AssignmentGrammar.Reading, BearerGrammar.Reading, UriGrammar.Reading,
      AssignmentGrammar.ShownAll, BearerGrammar.ShownAll, UriGrammar.ShownAll;
    assert Passes(record, secrets, out, sorted, replaced, a, b, c);
  }

  // ---------------------------------------------------------------- no password is left

  ghost predicate PasswordsMarked(segs: seq<UriGrammar.Segment>) {
    forall k :: 0 <= k < |segs| && segs[k].Secret? ==> segs[k].password == Ascii("[REDACTED]")
  }

  lemma {:induction false} MarkedReading(s: Bytes, segs: seq<UriGrammar.Segment>)
    requires UriGrammar.Reading(s, segs) && UriRedaction.AllMarked(UriRedaction.Uri(s))
    ensures PasswordsMarked(segs)
    decreases |segs|
  {
    hide UriGrammar.Stands, UriRedaction.AllMarked, UriRedaction.Uri, UriRedaction.Look, UriGrammar.Source,
      UriGrammar.Shown;
    var seg := segs[0];
    UriRedaction.AllMarkedStep(s);
    Markers();
    match seg
    case Rest(_) => assert segs == [seg];
    case Bare(_, _) =>
      UriGrammar.BareStands(s, seg);
      MarkedReading(s[|UriGrammar.Source(seg)|..], segs[1..]);
    case Secret(_, _, password) =>
      UriGrammar.SecretStands(s, seg);
      SecretText(s, seg);
      MarkedReading(s[|UriGrammar.Source(seg)|..], segs[1..]);
  }

  lemma SecretText(s: Bytes, seg: UriGrammar.Segment)
    requires seg.Secret? && UriGrammar.Stands(seg, s)
    ensures var n := |UriGrammar.Source(seg)|; n <= |s| && s[n - |seg.password|..n] == seg.password
  {
    hide UriGrammar.Hides, UriGrammar.UpToScheme;
    var n := |UriGrammar.Source(seg)|;
    assert s[..n] == UriGrammar.Source(seg);
    assert s[..n][n - |seg.password|..] == seg.password;
  }

  /** Every reading of a sanitized record finds the marker in place of each password. */
  lemma NoPasswordIsLeft(record: Bytes, secrets: seq<Bytes>, segs: seq<UriGrammar.Segment>)
    requires UriGrammar.Reading(Sanitizer.Sanitize(record, secrets), segs)
    ensures PasswordsMarked(segs)
  {
    hide *;
    var out := Sanitizer.Sanitize(record, secrets);
    UriPassIsLast(record, secrets);
    UriRedaction.FixedExactlyWhenMarked(out);
    MarkedReading(out, segs);
  }

  lemma UriPassIsLast(record: Bytes, secrets: seq<Bytes>)
    ensures UriRedaction.Redacted(Sanitizer.Sanitize(record, secrets)) == Sanitizer.Sanitize(record, secrets)
  {
    hide UriRedaction.Redacted;
    PassesCompose(record, secrets);
    UriRedaction.RedactTwice(
      BearerRedaction.RedactBearer(AssignmentRedaction.RedactAssignments(Sanitizer.ReplaceSecrets(record, secrets))));
  }

  // ---------------------------------------------------------------- no bearer token is left

  /** From i to j the record shows "bearer" and blanks, and then a byte of a token. */
  predicate TokenFrom(s: Bytes, i: nat, j: nat) {
    && i + 6 < j < |s| && NameAt(s, "bearer", i) && (forall k :: i + 6 <= k < j ==> Blank(s[k])) && TokenByte(s[j])
  }

  /** No key byte stands before the word. */
  predicate TokenShown(s: Bytes, i: nat, j: nat) {
    TokenFrom(s, i, j) && (i == 0 || !KeyByte(s[i - 1]))
  }

  ghost predicate NoTokenShown(s: Bytes) {
    forall i: nat, j: nat :: !TokenShown(s, i, j)
  }

  const NEWLINE: Byte := 0x0A

  /** The byte before a shown word, the word, its blanks and the first byte of the token. */
  predicate Window(w: Bytes) {
    |w| > 0 && !KeyByte(w[0]) && TokenFrom(w, 1, |w| - 1)
  }

  lemma WindowShown(s: Bytes, i: nat, j: nat)
    requires TokenShown(s, i, j)
    ensures var w := ([NEWLINE] + s)[i..j + 2]; Window(w) && OccursAt(w, [NEWLINE] + s, i)
  {
    var t := [NEWLINE] + s;
    var w := t[i..j + 2];
    assert forall k :: 0 <= k < |w| ==> w[k] == t[i + k];
    assert forall k :: 1 <= k < |w| ==> w[k] == s[i + k - 1];
    forall m | 0 <= m < 6
      ensures SameLetter(w[1 + m], "bearer"[m])
    {
      assert SameLetter(s[i + m], "bearer"[m]);
    }
  }

  lemma ShownWindow(s: Bytes, w: Bytes, i: nat)
    requires Window(w) && OccursAt(w, [NEWLINE] + s, i)
    ensures TokenShown(s, i, i + |w| - 2)
  {
    var t := [NEWLINE] + s;
    assert forall k :: 0 <= k < |w| ==> w[k] == t[i..i + |w|][k] == t[i + k];
    assert forall k :: 1 <= k < |w| ==> w[k] == s[i + k - 1];
    forall m | 0 <= m < 6
      ensures SameLetter(s[i + m], "bearer"[m])
    {
      assert SameLetter(w[1 + m], "bearer"[m]);
    }
    forall k | i + 6 <= k < i + |w| - 2
      ensures Blank(s[k])
    {
      assert s[k] == w[k - i + 1];
    }
    assert i > 0 ==> s[i - 1] == w[0];
  }

  lemma WindowBytes(w: Bytes, k: nat)
    requires Window(w) && 1 <= k < |w|
    ensures w[k] != 0x5B && (k == 1 ==> w[k] == 0x42 || w[k] == 0x62)
  {
    if k < 7 {
      assert SameLetter(w[1 + (k - 1)], "bearer"[k - 1]);
    }
  }

  predicate HasB(q: Bytes) {
    0x42 in q || 0x62 in q
  }

  /** A window can overlap what starts with a bracket and has no b only by its first byte at the end. */
  lemma WindowApart(w: Bytes, q: Bytes)
    requires Window(w) && q != [] && q[0] == 0x5B && !HasB(q) && w[0] != q[|q| - 1]
    ensures Apart(w, q)
  {
    hide Window;
    WindowLong(w);
    forall d | -|w| < d < |q|
      ensures !Fits(w, q, d)
    {
      if d < 0 {
        WindowBytes(w, -d);
        assert w[-d] != q[0];
      } else if d == |q| - 1 {
        assert w[0] != q[d];
      } else {
        WindowBytes(w, 1);
        assert w[1] != q[d + 1];
      }
    }
  }

  lemma WindowLong(w: Bytes)
    requires Window(w)
    ensures |w| >= 2
  {
  }

  /** Every password is followed by its at sign, which is kept. */
  predicate BeforeAt(pieces: seq<Piece>) {
    forall k :: 0 <= k < |pieces| && pieces[k].Hidden? ==>
      pieces[k].shown == MARKER && k + 1 < |pieces| && pieces[k + 1].Kept?
      && pieces[k + 1].bytes != [] && pieces[k + 1].bytes[0] == UriRedaction.AT
  }

  lemma UriFirst(s: Bytes)
    ensures var p := UriRedaction.Uri(s);
            p != [] && p[0].Kept? && (s != [] ==> p[0].bytes != [] && p[0].bytes[0] == s[0])
  {
    hide UriRedaction.Look;
  }

  lemma {:induction false} UriBeforeAt(s: Bytes)
    ensures BeforeAt(UriRedaction.Uri(s))
    decreases |s|
  {
    hide UriRedaction.Look;
    match UriRedaction.Look(s) {
      case Nothing =>
      case Bare(next) => UriBeforeAt(s[next..]);
      case Secret(start, end) =>
        UriBeforeAt(s[end..]);
        UriFirst(s[end..]);
        var a, e, n := UriRedaction.LookSecret(s);
        assert s[end..][0] == s[end] == UriRedaction.AT;
    }
  }

  lemma AtFollows(rest: seq<Piece>) returns (x: Bytes)
    requires rest != [] && rest[0].Kept? && rest[0].bytes != [] && rest[0].bytes[0] == UriRedaction.AT
    ensures After(rest) == [UriRedaction.AT] + x
  {
    x := rest[0].bytes[1..] + After(rest[1..]);
    assert rest[0].bytes == [UriRedaction.AT] + rest[0].bytes[1..];
  }

  /** A string apart from the marker with its at sign was in the record before. */
  lemma {:induction false} MaskingBeforeAt(pieces: seq<Piece>, p: Bytes, kept: Bytes)
    requires p != [] && BeforeAt(pieces) && Apart(p, MARKER + [UriRedaction.AT])
    requires Occurs(p, kept + After(pieces))
    ensures Occurs(p, kept + Before(pieces))
    decreases |pieces|
  {
    hide Before, After, Occurs, Apart, MARKER;
    NothingMasked();
    if pieces != [] {
      var rest := pieces[1..];
      assert forall k :: 0 <= k < |rest| ==> rest[k] == pieces[k + 1];
      match pieces[0]
      case Kept(bytes) =>
        KeptFirst(pieces, kept);
        MaskingBeforeAt(rest, p, kept + bytes);
      case Hidden(secret, shown) =>
        FirstPiece(pieces);
        var x := AtFollows(rest);
        Associates(MARKER, [UriRedaction.AT], x);
        Associates(kept, MARKER + [UriRedaction.AT], x);
        OccursBesideMarker(p, kept, MARKER + [UriRedaction.AT], x);
        if Occurs(p, x) {
          OccursInAppend(p, [UriRedaction.AT], x);
          assert [] + After(rest) == After(rest) && [] + Before(rest) == Before(rest);
          MaskingBeforeAt(rest, p, []);
          OccursInAppend(p, secret, Before(rest));
        }
        OccursInAppend(p, kept, secret + Before(rest));
    }
  }

  lemma MarkerBytes()
    ensures |MARKER| == 10 && MARKER[0] == 0x5B && MARKER[9] == 0x5D && !HasB(MARKER)
    ensures !HasB(MARKER + [UriRedaction.AT])
  {
  }

  /** The URI pass brings no window into view. */
  lemma WindowsStay(s: Bytes, w: Bytes)
    requires Window(w) && Occurs(w, [NEWLINE] + UriRedaction.RedactUri(s))
    ensures Occurs(w, [NEWLINE] + s)
  {
    hide Window, Occurs, Apart, Before, After, MARKER, UriRedaction.Uri, HasB, Sanitizer.ShowsMarkers, BeforeAt;
    var pieces := UriRedaction.Uri(s);
    MarkerBytes();
    WindowLong(w);
    UriRedaction.UriCopiesTheRest(s);
    if w[0] == 0x5D {
      WindowApart(w, MARKER + [UriRedaction.AT]);
      UriBeforeAt(s);
      MaskingBeforeAt(pieces, w, [NEWLINE]);
    } else {
      WindowApart(w, MARKER);
      Sanitizer.UriShowsMarkers(s);
      Sanitizer.MarkersAvoid(pieces, w);
      MaskingRevealsNothing(pieces, w, [NEWLINE]);
    }
  }

  /** A shown token is exposed to the bearer pass. */
  lemma ShownIsExposed(s: Bytes, i: nat, j: nat)
    requires TokenShown(s, i, j)
    ensures BearerRedaction.ExposedAt(s, true, i)
  {
    hide Blank, IsSpace, TokenByte, IsBearer, Span, BearerRedaction.Word, KeyByte, IsKey;
    var t := s[i..];
    SameAll();
    BearerGrammar.SameWord(t);
    assert forall k :: 0 <= k < |t| ==> t[k] == s[i + k];
    assert NameAt(t, "bearer", 0) by {
      forall m | 0 <= m < 6
        ensures SameLetter(t[0 + m], "bearer"[m])
      {
        assert SameLetter(s[i + m], "bearer"[m]);
      }
    }
    assert Blank(t[6]);
    BlankIsNoToken();
    RunIs(t, 6, j - i, IsSpace);
    BearerGrammar.HeadIs(t, j - i, Span(t[j - i..], IsBearer));
    TokenRun(t, j - i);
  }

  lemma BlankIsNoToken()
    ensures forall b :: TokenByte(b) ==> !Blank(b)
  {
  }

  lemma TokenRun(t: Bytes, n: nat)
    requires n < |t| && IsBearer(t[n])
    ensures Span(t[n..], IsBearer) > 0
  {
    hide IsBearer;
    assert t[n..][0] == t[n];
  }

  /** No token follows the word "bearer" in a sanitized record. */
  lemma NoTokenIsLeft(record: Bytes, secrets: seq<Bytes>)
    ensures NoTokenShown(Sanitizer.Sanitize(record, secrets))
  {
    hide TokenShown, Window, Occurs, OccursAt, BearerRedaction.ExposedAt, UriRedaction.RedactUri,
      BearerRedaction.RedactBearer, Sanitizer.ReplaceSecrets, AssignmentRedaction.RedactAssignments;
    var s := AssignmentRedaction.RedactAssignments(Sanitizer.ReplaceSecrets(record, secrets));
    var t := BearerRedaction.RedactBearer(s);
    var out := Sanitizer.Sanitize(record, secrets);
    PassesCompose(record, secrets);
    BearerRedaction.NoTokenIsLeft(s);
    forall i: nat, j: nat
      ensures !TokenShown(out, i, j)
    {
      if TokenShown(out, i, j) {
        var k, m := ShownBefore(t, i, j);
        ShownIsExposed(t, k, m);
      }
    }
  }

  lemma ShownBefore(t: Bytes, i: nat, j: nat) returns (k: nat, m: nat)
    requires TokenShown(UriRedaction.RedactUri(t), i, j)
    ensures TokenShown(t, k, m)
  {
    hide TokenShown, Window, UriRedaction.RedactUri;
    var out := UriRedaction.RedactUri(t);
    WindowShown(out, i, j);
    ShownFits(out, i, j);
    var w := ([NEWLINE] + out)[i..j + 2];
    assert Occurs(w, [NEWLINE] + out);
    WindowsStay(t, w);
    k :| k <= |[NEWLINE] + t| && OccursAt(w, [NEWLINE] + t, k);
    WindowLong(w);
    ShownWindow(t, w, k);
    m := k + |w| - 2;
  }

  lemma ShownFits(s: Bytes, i: nat, j: nat)
    requires TokenShown(s, i, j)
    ensures i < j < |s|
  {
  }
}
