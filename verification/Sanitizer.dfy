/**
 `sanitize_record`: every configured secret is replaced wherever it occurs, longest first; then
 sensitive assignments, bearer tokens and passwords in URIs are redacted.
 */
module Sanitizer {
  import opened Basics
  import opened Text
  import opened Utf8
  import opened Masking
  import AssignmentRedaction
  import BearerRedaction
  import UriRedaction

  // ---------------------------------------------------------------- replacing one secret

  /** `str::replace` with the marker, from left to right. */
  function Replace(s: Bytes, secret: Bytes): seq<Piece>
    requires secret != []
    decreases |s|
  {
    var at := Find(s, secret);
    if at.None? then [Kept(s)]
    else [Kept(s[..at.value])] + ([Hidden(secret, MARKER)] + Replace(s[at.value + |secret|..], secret))
  }

  function Replaced(s: Bytes, secret: Bytes): Bytes
    requires secret != []
  {
    After(Replace(s, secret))
  }

  lemma ReplacedStep(s: Bytes, secret: Bytes)
    requires secret != []
    ensures var at := Find(s, secret);
            && (at.None? ==> Replaced(s, secret) == s && Before(Replace(s, secret)) == s)
            && (at.Some? ==>
                  && at.value + |secret| <= |s|
                  && var rest := s[at.value + |secret|..];
                     && s == s[..at.value] + (secret + rest)
                     && Replaced(s, secret) == s[..at.value] + (MARKER + Replaced(rest, secret))
                     && Before(Replace(s, secret)) == s[..at.value] + (secret + Before(Replace(rest, secret))))
  {
    hide Find, Before, After;
    var at := Find(s, secret);
    if at.None? {
      OnePiece(Kept(s));
    } else {
      var i := at.value;
      var rest := Replace(s[i + |secret|..], secret);
      PieceFirst(Hidden(secret, MARKER), rest);
      PieceFirst(Kept(s[..i]), [Hidden(secret, MARKER)] + rest);
      assert s == s[..i] + (s[i..i + |secret|] + s[i + |secret|..]);
    }
  }

  lemma {:induction false} ReplaceCopiesTheRest(s: Bytes, secret: Bytes)
    requires secret != []
    ensures Before(Replace(s, secret)) == s
    decreases |s|
  {
    hide *;
    ReplacedStep(s, secret);
    if Find(s, secret).Some? {
      ReplaceCopiesTheRest(s[Find(s, secret).value + |secret|..], secret);
    }
  }

  lemma NotBeforeTheFirst(s: Bytes, secret: Bytes)
    requires secret != [] && Find(s, secret).Some?
    ensures !Occurs(secret, s[..Find(s, secret).value])
  {
    hide Find, OccursAt;
    var i := Find(s, secret).value;
    forall j: nat | j <= i
      ensures !OccursAt(secret, s[..i], j)
    {
      if j + |secret| <= i {
        OccursInPrefix(secret, s, s[..i], i, j);
      } else {
        NoRoom(secret, s[..i], j);
      }
    }
  }

  lemma NoRoom(p: Bytes, s: Bytes, i: nat)
    requires i + |p| > |s|
    ensures !OccursAt(p, s, i)
  {
  }

  /** After the replacement the secret does not occur, not even across a marker. */
  lemma {:induction false} ReplacedIsGone(s: Bytes, secret: Bytes)
    requires secret != [] && Apart(secret, MARKER)
    ensures !Occurs(secret, Replaced(s, secret))
    decreases |s|
  {
    hide Find, Occurs, Apart, Replaced;
    ReplacedStep(s, secret);
    if Find(s, secret).Some? {
      var i := Find(s, secret).value;
      var rest := Replaced(s[i + |secret|..], secret);
      ReplacedIsGone(s[i + |secret|..], secret);
      NotBeforeTheFirst(s, secret);
      assert s[..i] + (MARKER + rest) == s[..i] + MARKER + rest;
      if Occurs(secret, Replaced(s, secret)) {
        OccursBesideMarker(secret, s[..i], MARKER, rest);
      }
    }
  }

  /** A well-formed non-empty string starts a character, so it is found only between characters. */
  lemma StartsCharacter(st: State, a: Bytes, b: Bytes)
    requires a != [] && Run(Start, a) == Start && Run(st, a + b) == Start
    ensures st == Start && Run(Start, b) == Start
  {
    hide Run;
    FirstByte(st, a, b);
    RunAppend(Start, a, b);
  }

  lemma FirstByte(st: State, a: Bytes, b: Bytes)
    requires a != [] && Run(Start, a) == Start && Run(st, a + b) == Start
    ensures st == Start
  {
    RunBad(a[1..]);
    RunBad((a + b)[1..]);
    assert (a + b)[0] == a[0];
    assert Next(Start, a[0]) != Bad;
    assert Next(st, a[0]) != Bad;
  }

  lemma {:induction false} ReplaceKeepsUtf8(s: Bytes, secret: Bytes, st: State)
    requires secret != [] && Run(Start, secret) == Start && Run(st, s) == Start
    ensures Run(st, Replaced(s, secret)) == Start
    decreases |s|
  {
    hide *;
    ReplacedStep(s, secret);
    if Find(s, secret).Some? {
      var i := Find(s, secret).value;
      var rest := s[i + |secret|..];
      RunAppend(st, s[..i], secret + rest);
      StartsCharacter(Run(st, s[..i]), secret, rest);
      ReplaceKeepsUtf8(rest, secret, Start);
      MarkerRuns();
      RunAppend(Start, MARKER, Replaced(rest, secret));
      RunAppend(st, s[..i], MARKER + Replaced(rest, secret));
    }
  }

  // ---------------------------------------------------------------- longest first

  function Insert(x: Bytes, sorted: seq<Bytes>): seq<Bytes> {
    if sorted == [] || |sorted[0]| <= |x| then [x] + sorted
    else [sorted[0]] + Insert(x, sorted[1..])
  }

  /** The non-empty secrets, sorted stably by descending length. */
  function LongestFirst(secrets: seq<Bytes>): seq<Bytes> {
    if secrets == [] then []
    else if secrets[0] == [] then LongestFirst(secrets[1..])
    else Insert(secrets[0], LongestFirst(secrets[1..]))
  }

  predicate Descending(secrets: seq<Bytes>) {
    forall i, j :: 0 <= i < j < |secrets| ==> |secrets[i]| >= |secrets[j]|
  }

  /** The secrets of one length, in order. */
  function OfLength(secrets: seq<Bytes>, n: nat): seq<Bytes> {
    if secrets == [] then []
    else if |secrets[0]| == n then [secrets[0]] + OfLength(secrets[1..], n)
    else OfLength(secrets[1..], n)
  }

  lemma {:induction false} InsertMembers(x: Bytes, sorted: seq<Bytes>)
    ensures forall y :: y in Insert(x, sorted) <==> y == x || y in sorted
    decreases |sorted|
  {
    if sorted != [] && |sorted[0]| > |x| {
      InsertMembers(x, sorted[1..]);
      assert sorted == [sorted[0]] + sorted[1..];
    }
  }

  lemma {:induction false} InsertDescends(x: Bytes, sorted: seq<Bytes>)
    requires Descending(sorted)
    ensures Descending(Insert(x, sorted))
    decreases |sorted|
  {
    if sorted != [] && |sorted[0]| > |x| {
      InsertDescends(x, sorted[1..]);
      InsertMembers(x, sorted[1..]);
      FirstIsLongest(sorted[0], Insert(x, sorted[1..]));
    }
  }

  lemma FirstIsLongest(first: Bytes, rest: seq<Bytes>)
    requires Descending(rest) && forall y :: y in rest ==> |y| <= |first|
    ensures Descending([first] + rest)
  {
  }

  lemma {:induction false} InsertIsStable(x: Bytes, sorted: seq<Bytes>, n: nat)
    requires Descending(sorted)
    ensures OfLength(Insert(x, sorted), n) == (if |x| == n then [x] else []) + OfLength(sorted, n)
    decreases |sorted|
  {
    if sorted != [] && |sorted[0]| > |x| {
      InsertIsStable(x, sorted[1..], n);
      assert Insert(x, sorted)[1..] == Insert(x, sorted[1..]);
      if |x| == n {
        NoneLonger(sorted[0], x, sorted[1..]);
      }
    } else {
      assert ([x] + sorted)[1..] == sorted;
    }
  }

  lemma NoneLonger(first: Bytes, x: Bytes, rest: seq<Bytes>)
    requires |first| > |x|
    ensures OfLength([first] + rest, |x|) == OfLength(rest, |x|)
  {
    assert ([first] + rest)[1..] == rest;
  }

  /** The order is by descending length, and among secrets of one length the given one. */
  lemma {:induction false} LongestFirstIsStable(secrets: seq<Bytes>, n: nat)
    ensures Descending(LongestFirst(secrets))
    ensures forall y :: y in LongestFirst(secrets) <==> y in secrets && y != []
    ensures n > 0 ==> OfLength(LongestFirst(secrets), n) == OfLength(secrets, n)
    decreases |secrets|
  {
    hide Descending;
    if secrets == [] {
      NoneDescend();
    } else {
      var x, rest := secrets[0], secrets[1..];
      LongestFirstIsStable(rest, n);
      assert secrets == [x] + rest;
      InsertMembers(x, LongestFirst(rest));
      InsertDescends(x, LongestFirst(rest));
      InsertIsStable(x, LongestFirst(rest), n);
    }
  }

  lemma NoneDescend()
    ensures Descending([])
  {
  }

  // ---------------------------------------------------------------- the whole record

  predicate NoneEmpty(secrets: seq<Bytes>) {
    [] !in secrets
  }

  function ReplaceEach(s: Bytes, secrets: seq<Bytes>): Bytes
    requires NoneEmpty(secrets)
    decreases |secrets|
  {
    if secrets == [] then s else ReplaceEach(Replaced(s, secrets[0]), secrets[1..])
  }

  function ReplaceSecrets(s: Bytes, secrets: seq<Bytes>): Bytes {
    LongestFirstIsStable(secrets, 0);
    ReplaceEach(s, LongestFirst(secrets))
  }

  function Sanitize(s: Bytes, secrets: seq<Bytes>): Bytes {
    var redacted := AssignmentRedaction.RedactAssignments(ReplaceSecrets(s, secrets));
    UriRedaction.RedactUri(BearerRedaction.RedactBearer(redacted))
  }

  /** All markers shown are the marker itself, or stand behind a bearer scheme. */
  predicate ShowsMarkers(pieces: seq<Piece>) {
    forall k :: 0 <= k < |pieces| && pieces[k].Hidden? ==> pieces[k].shown == MARKER
  }

  lemma ShowsMarkersAppend(a: seq<Piece>, b: seq<Piece>)
    ensures ShowsMarkers(a + b) <==> ShowsMarkers(a) && ShowsMarkers(b)
  {
    assert forall k :: 0 <= k < |a| ==> (a + b)[k] == a[k];
    assert forall k :: 0 <= k < |b| ==> (a + b)[|a| + k] == b[k];
  }

  lemma MarkersAvoid(pieces: seq<Piece>, p: Bytes)
    requires ShowsMarkers(pieces) && Apart(p, MARKER)
    ensures ShownAvoids(pieces, p)
  {
  }

  lemma {:induction false} ReplaceShowsMarkers(s: Bytes, secret: Bytes)
    requires secret != []
    ensures ShowsMarkers(Replace(s, secret))
    decreases |s|
  {
    hide Find;
    var at := Find(s, secret);
    if at.Some? {
      var rest := Replace(s[at.value + |secret|..], secret);
      ReplaceShowsMarkers(s[at.value + |secret|..], secret);
      ShowsMarkersAppend([Hidden(secret, MARKER)], rest);
      ShowsMarkersAppend([Kept(s[..at.value])], [Hidden(secret, MARKER)] + rest);
    }
  }

  lemma TokenShowsMarkers(s: Bytes, boundary: bool)
    requires s != []
    ensures ShowsMarkers(BearerRedaction.Chunk(s, boundary).1)
  {
    hide BearerRedaction.Word, BearerRedaction.HeadLength, BearerRedaction.TokenLength;
  }

  lemma {:induction false} BearerShowsMarkers(s: Bytes, boundary: bool)
    ensures ShowsMarkers(BearerRedaction.Bearer(s, boundary))
    decreases |s|
  {
    hide BearerRedaction.Chunk, IsKey;
    if s != [] {
      var c := BearerRedaction.Chunk(s, boundary);
      TokenShowsMarkers(s, boundary);
      BearerShowsMarkers(s[c.0..], !IsKey(s[c.0 - 1]));
      ShowsMarkersAppend(c.1, BearerRedaction.Bearer(s[c.0..], !IsKey(s[c.0 - 1])));
    }
  }

  lemma {:induction false} UriShowsMarkers(s: Bytes)
    ensures ShowsMarkers(UriRedaction.Uri(s))
    decreases |s|
  {
    hide UriRedaction.Look;
    match UriRedaction.Look(s) {
      case Nothing =>
      case Bare(next) =>
        UriShowsMarkers(s[next..]);
        ShowsMarkersAppend([Kept(s[..next])], UriRedaction.Uri(s[next..]));
      case Secret(start, end) =>
        UriShowsMarkers(s[end..]);
        var hidden := [Hidden(s[start..end], MARKER)];
        ShowsMarkersAppend(hidden, UriRedaction.Uri(s[end..]));
        ShowsMarkersAppend([Kept(s[..start])], hidden + UriRedaction.Uri(s[end..]));
    }
  }

  /** Replacing other secrets does not bring one back. */
  lemma {:induction false} StaysGone(s: Bytes, secrets: seq<Bytes>, secret: Bytes)
    requires NoneEmpty(secrets) && secret != [] && Apart(secret, MARKER)
    requires secret in secrets || !Occurs(secret, s)
    ensures !Occurs(secret, ReplaceEach(s, secrets))
    decreases |secrets|
  {
    hide Occurs, Apart, Replace, ShowsMarkers;
    if secrets != [] {
      var first := secrets[0];
      if secret == first {
        ReplacedIsGone(s, secret);
      } else if !Occurs(secret, s) {
        ReplaceShowsMarkers(s, first);
        MarkersAvoid(Replace(s, first), secret);
        ReplaceCopiesTheRest(s, first);
        if Occurs(secret, Replaced(s, first)) {
          MaskedRecordRevealsNothing(Replace(s, first), secret);
        }
      }
      StaysGone(Replaced(s, first), secrets[1..], secret);
    }
  }

  /** After the exact replacement no secret that cannot overlap the marker occurs. */
  lemma ReplacementRemoves(s: Bytes, secrets: seq<Bytes>, secret: Bytes)
    requires secret in secrets && secret != [] && Apart(secret, MARKER)
    ensures !Occurs(secret, ReplaceSecrets(s, secrets))
  {
    LongestFirstIsStable(secrets, 0);
    StaysGone(s, LongestFirst(secrets), secret);
  }

  /** The bearer and URI passes bring nothing back, whatever the secret. */
  lemma LaterPassesKeepItGone(s: Bytes, secret: Bytes)
    requires secret != [] && Apart(secret, MARKER) && !Occurs(secret, s)
    ensures !Occurs(secret, BearerRedaction.RedactBearer(s))
    ensures !Occurs(secret, UriRedaction.RedactUri(BearerRedaction.RedactBearer(s)))
  {
    hide Occurs, Apart, ShowsMarkers, BearerRedaction.Bearer, UriRedaction.Uri;
    var bearer := BearerRedaction.Bearer(s, true);
    var t := BearerRedaction.RedactBearer(s);
    BearerShowsMarkers(s, true);
    MarkersAvoid(bearer, secret);
    BearerRedaction.BearerCopiesTheRest(s, true);
    if Occurs(secret, t) {
      MaskedRecordRevealsNothing(bearer, secret);
    }
    UriShowsMarkers(t);
    MarkersAvoid(UriRedaction.Uri(t), secret);
    UriRedaction.UriCopiesTheRest(t);
    if Occurs(secret, UriRedaction.RedactUri(t)) {
      MaskedRecordRevealsNothing(UriRedaction.Uri(t), secret);
    }
  }

  predicate AllValid(secrets: seq<Bytes>) {
    forall k :: 0 <= k < |secrets| ==> Valid(secrets[k])
  }

  lemma ReplacedIsValid(s: Bytes, secret: Bytes)
    requires secret != [] && Valid(secret) && Valid(s)
    ensures Valid(Replaced(s, secret))
  {
    hide Valid, Replaced, Run;
    AutomatonIsGrammar(s);
    AutomatonIsGrammar(secret);
    ReplaceKeepsUtf8(s, secret, Start);
    AutomatonIsGrammar(Replaced(s, secret));
  }

  /** The sanitizer maps text to text. */
  method SanitizeRecord(record: Bytes, secrets: seq<Bytes>) returns (sanitized: Bytes)
    requires Valid(record) && AllValid(secrets)
    ensures sanitized == Sanitize(record, secrets) && Valid(sanitized)
  {
    hide Valid, Replaced, LongestFirst;
    LongestFirstIsStable(secrets, 0);
    sanitized := record;
    var sorted := LongestFirst(secrets);
    var i := 0;
    assert sorted[0..] == sorted;
    while i < |sorted|
      invariant i <= |sorted| && Valid(sanitized) && NoneEmpty(sorted[i..])
      invariant ReplaceEach(sanitized, sorted[i..]) == ReplaceEach(record, sorted)
    {
      assert sorted[i] in secrets && sorted[i..][0] == sorted[i] && sorted[i..][1..] == sorted[i + 1..];
      ReplacedIsValid(sanitized, sorted[i]);
      sanitized := Replaced(sanitized, sorted[i]);
      i := i + 1;
    }
    sanitized := AssignmentRedaction.RedactSensitiveAssignments(sanitized);
    sanitized := BearerRedaction.RedactBearerValues(sanitized);
    sanitized := UriRedaction.RedactUriPasswords(sanitized);
  }
}
