/**
 `redact_uri_passwords`: the password of every authority that the scan visits is replaced by a
 marker. An authority (section 3.2 of RFC 3986) follows "://" and ends before white space, "/", "?"
 or "#"; its user information ends at the last "@" and its password starts after the first ":".
 */
module UriRedaction {
  import opened Basics
  import opened Text
  import opened Utf8
  import opened Masking

  /** "://" */
  const SCHEME: Bytes := [0x3A, 0x2F, 0x2F]

  const COLON: Byte := 0x3A
  const AT: Byte := 0x40

  predicate InAuthority(b: Byte) {
    !IsSpace(b) && b != 0x2F && b != 0x3F && b != 0x23
  }

  /** `rfind` */
  function LastOf(s: Bytes, b: Byte): (r: Option<nat>)
    ensures r.Some? ==> r.value < |s| && s[r.value] == b && b !in s[r.value + 1..]
    ensures r.None? ==> b !in s
  {
    if s == [] then None
    else if s[|s| - 1] == b then Some(|s| - 1)
    else
      var r := LastOf(s[..|s| - 1], b);
      assert s == s[..|s| - 1] + [s[|s| - 1]];
      assert r.Some? ==> s[r.value + 1..] == s[..|s| - 1][r.value + 1..] + [s[|s| - 1]];
      r
  }

  /** Where the password of an authority starts and ends. */
  function Password(authority: Bytes): (r: Option<(nat, nat)>)
    ensures r.Some? ==> 1 <= r.value.0 <= r.value.1 < |authority|
  {
    var at := LastOf(authority, AT);
    if at.None? then None
    else
      var colon := Until(authority[..at.value], COLON);
      if colon == at.value then None else Some((colon + 1, at.value))
  }

  function AuthorityEnd(s: Bytes, start: nat): (end: nat)
    requires start <= |s|
    ensures start <= end <= |s| && (end < |s| ==> !InAuthority(s[end]))
    ensures forall k :: start <= k < end ==> InAuthority(s[k])
  {
    var n := Span(s[start..], InAuthority);
    assert n < |s[start..]| ==> s[start..][n] == s[start + n];
    assert forall k :: start <= k < start + n ==> s[k] == s[start..][k - start];
    start + n
  }

  /** What the scan finds next: nothing, an authority without password, or a password. */
  datatype Visit = Nothing | Bare(next: nat) | Secret(start: nat, end: nat)

  function Look(s: Bytes): (v: Visit)
    ensures v.Bare? ==> 3 <= v.next <= |s|
    ensures v.Secret? ==> 4 <= v.start <= v.end < |s|
  {
    var scheme := Find(s, SCHEME);
    if scheme.None? then Nothing
    else
      var start := scheme.value + 3;
      var end := AuthorityEnd(s, start);
      var password := Password(s[start..end]);
      if password.None? then Bare(end) else Secret(start + password.value.0, start + password.value.1)
  }

  /** The whole pass from where the search stands. */
  function Uri(s: Bytes): seq<Piece>
    decreases |s|
  {
    var v := Look(s);
    match v
    case Nothing => [Kept(s)]
    case Bare(next) => [Kept(s[..next])] + Uri(s[next..])
    case Secret(start, end) => [Kept(s[..start])] + ([Hidden(s[start..end], MARKER)] + Uri(s[end..]))
  }

  function Redacted(s: Bytes): Bytes {
    After(Uri(s))
  }

  lemma RedactedStep(s: Bytes)
    ensures var v := Look(s);
            && (v.Nothing? ==> Redacted(s) == s && Before(Uri(s)) == s)
            && (v.Bare? ==>
                  && Redacted(s) == s[..v.next] + Redacted(s[v.next..])
                  && Before(Uri(s)) == s[..v.next] + Before(Uri(s[v.next..])))
            && (v.Secret? ==>
                  && Redacted(s) == s[..v.start] + (MARKER + Redacted(s[v.end..]))
                  && Before(Uri(s)) == s[..v.start] + (s[v.start..v.end] + Before(Uri(s[v.end..]))))
  {
    hide Look, Before, After;
    match Look(s) {
      case Nothing => OnePiece(Kept(s));
      case Bare(next) => PieceFirst(Kept(s[..next]), Uri(s[next..]));
      case Secret(start, end) =>
        var hidden := Hidden(s[start..end], MARKER);
        PieceFirst(hidden, Uri(s[end..]));
        PieceFirst(Kept(s[..start]), [hidden] + Uri(s[end..]));
    }
  }

  lemma {:induction false} UriCopiesTheRest(s: Bytes)
    ensures Before(Uri(s)) == s
    decreases |s|
  {
    hide *;
    RedactedStep(s);
    match Look(s) {
      case Nothing =>
      case Bare(next) =>
        UriCopiesTheRest(s[next..]);
        assert s == s[..next] + s[next..];
      case Secret(start, end) =>
        UriCopiesTheRest(s[end..]);
        assert s == s[..start] + (s[start..end] + s[end..]);
    }
  }

  // ---------------------------------------------------------------- what the scan sees in the output

  /** A scheme is found at the same place in any string with the same beginning. */
  lemma FindPrefix(s: Bytes, t: Bytes, n: nat)
    requires Find(s, SCHEME).Some? && Find(s, SCHEME).value + 3 <= n <= |s| && n <= |t| && t[..n] == s[..n]
    ensures Find(t, SCHEME) == Find(s, SCHEME)
  {
    hide Find, OccursAt;
    var i := Find(s, SCHEME).value;
    OccursInPrefix(SCHEME, s, t, n, i);
    assert Occurs(SCHEME, t);
    forall j: nat | j < i
      ensures !OccursAt(SCHEME, t, j)
    {
      OccursInPrefix(SCHEME, s, t, n, j);
    }
  }

  lemma LastIs(s: Bytes, b: Byte, q: nat)
    requires q < |s| && s[q] == b && b !in s[q + 1..]
    ensures LastOf(s, b) == Some(q)
  {
    hide LastOf;
    var r := LastOf(s, b).value;
    assert forall k :: q < k < |s| ==> s[k] == s[q + 1..][k - q - 1];
    assert forall k :: r < k < |s| ==> s[k] == s[r + 1..][k - r - 1];
  }

  /** The parts of an authority with a password. */
  lemma PasswordParts(authority: Bytes)
    requires Password(authority).Some?
    ensures var p, q := Password(authority).value.0, Password(authority).value.1;
            && authority[p - 1] == COLON && COLON !in authority[..p - 1]
            && authority[q] == AT && AT !in authority[q + 1..]
  {
    var p, q := Password(authority).value.0, Password(authority).value.1;
    assert forall k :: 0 <= k < p - 1 ==> authority[k] == authority[..q][k];
    assert authority[p - 1] == authority[..q][p - 1];
  }

  /** Whatever stands between the first ":" and the last "@" is the password. */
  lemma PasswordIs(user: Bytes, password: Bytes, host: Bytes)
    requires user != [] && user[|user| - 1] == COLON && COLON !in user[..|user| - 1]
    requires host != [] && host[0] == AT && AT !in host[1..]
    ensures Password(user + (password + host)) == Some((|user|, |user| + |password|))
  {
    var t := user + (password + host);
    var q := |user| + |password|;
    assert t[q + 1..] == host[1..];
    LastIs(t, AT, q);
    assert t[..q] == user[..|user| - 1] + ([COLON] + password);
    UntilIs(user[..|user| - 1], COLON, [COLON] + password);
  }

  /** The output agrees with the record up to the first byte that cannot be in an authority. */
  lemma SameAuthority(s: Bytes)
    ensures var n, out := AuthorityEnd(s, 0), Redacted(s);
            && n <= |out| && out[..n] == s[..n] && (n < |out| <==> n < |s|) && (n < |s| ==> out[n] == s[n])
  {
    hide AuthorityEnd, Redacted, InAuthority;
    RedactedStep(s);
    var n := AuthorityEnd(s, 0);
    if Look(s) != Nothing {
      var m := if Look(s).Bare? then Look(s).next else Look(s).start;
      SlashEnds(s);
      SamePrefix(s, m, Redacted(s), n);
    }
  }

  lemma SamePrefix(s: Bytes, m: nat, out: Bytes, n: nat)
    requires n < m <= |s| && m <= |out| && out[..m] == s[..m]
    ensures out[..n] == s[..n] && out[n] == s[n]
  {
    assert out[..n] == out[..m][..n] && s[..n] == s[..m][..n];
    assert out[..m][n] == out[n];
  }

  /** The authority before a scheme ends at its first "/" at the latest. */
  lemma SlashEnds(s: Bytes)
    requires Look(s) != Nothing
    ensures var v := Look(s); AuthorityEnd(s, 0) < if v.Bare? then v.next else v.start
  {
    var i := Find(s, SCHEME).value;
    assert s[i..i + 3][1] == s[i + 1] && !InAuthority(SCHEME[1]);
  }

  lemma AuthorityIs(s: Bytes, start: nat, end: nat)
    requires start <= end <= |s| && (forall k :: start <= k < end ==> InAuthority(s[k]))
    requires end < |s| ==> !InAuthority(s[end])
    ensures AuthorityEnd(s, start) == end
  {
    SpanFrom(s, start, end, InAuthority);
  }

  /** After a bare authority the second pass goes on at the same place. */
  lemma BareTwice(s: Bytes)
    requires Look(s).Bare?
    ensures Look(Redacted(s)) == Look(s)
    ensures Redacted(s)[..Look(s).next] == s[..Look(s).next]
    ensures Redacted(s)[Look(s).next..] == Redacted(s[Look(s).next..])
  {
    hide Redacted, Find, Password, AuthorityEnd, InAuthority;
    var m, out, start := Look(s).next, Redacted(s), Find(s, SCHEME).value + 3;
    RedactedStep(s);
    SameAuthority(s[m..]);
    EmptyAuthority(s, start);
    FindPrefix(s, out, m);
    assert forall k :: 0 <= k < m ==> out[k] == s[..m][k];
    assert out[start..m] == out[..m][start..m] == s[start..m];
    assert m < |s| ==> s[m] == s[m..][0];
    AuthorityIs(out, start, m);
  }

  /** Behind the end of an authority there is no authority. */
  lemma EmptyAuthority(s: Bytes, start: nat)
    requires start <= |s|
    ensures AuthorityEnd(s[AuthorityEnd(s, start)..], 0) == 0
  {
    AuthorityIs(s[AuthorityEnd(s, start)..], 0, 0);
  }

  /** In the authority of a password, the output shows the marker and the same rest. */
  lemma SecretTwice(s: Bytes)
    requires Look(s).Secret?
    ensures Look(Redacted(s)) == Secret(Look(s).start, Look(s).start + |MARKER|)
  {
    hide *;
    var rest := Redacted(s[Look(s).end..]);
    RedactedStep(s);
    SameAuthority(s[Look(s).end..]);
    MaskedLook(s, rest);
  }

  lemma SecretText(s: Bytes)
    requires Look(s).Secret?
    ensures var start, out := Look(s).start, Redacted(s);
            && start + |MARKER| <= |out| && out[..start] == s[..start]
            && out[start + |MARKER|..] == Redacted(s[Look(s).end..])
  {
    hide *;
    RedactedStep(s);
    CutTwice(s[..Look(s).start], MARKER, Redacted(s[Look(s).end..]));
  }

  lemma MaskedLook(s: Bytes, rest: Bytes)
    requires Look(s).Secret?
    requires var n, host := AuthorityEnd(s[Look(s).end..], 0), s[Look(s).end..];
             && n <= |rest| && rest[..n] == host[..n] && (n < |rest| <==> n < |host|)
               && (n < |host| ==> rest[n] == host[n])
    ensures var start := Look(s).start; Look(s[..start] + (MARKER + rest)) == Secret(start, start + |MARKER|)
  {
    hide *;
    var p, q := Look(s).start, Look(s).end;
    var a, e, n := LookSecret(s);
    MarkerInAuthority();
    var out := s[..p] + (MARKER + rest);
    Cut(s[..p], MARKER + rest);
    FindPrefix(s, out, p);
    MaskedAuthority(s, a, p, q, e, rest);
    SecretFound(out, a, e - (q - p) + |MARKER|, p, p + |MARKER|);
  }

  lemma MarkerInAuthority()
    ensures forall k :: 0 <= k < |MARKER| ==> InAuthority(MARKER[k])
    ensures |MARKER| == 10 && |SCHEME| == 3
  {
  }

  /** Where the authority of a visited password starts and ends, and what its parts are. */
  lemma LookSecret(s: Bytes) returns (a: nat, e: nat, n: nat)
    requires Look(s).Secret?
    ensures var p, q := Look(s).start, Look(s).end;
            && Find(s, SCHEME) == Some(n) && a == n + |SCHEME| && a < p <= q < e <= |s|
            && s[p - 1] == COLON && COLON !in s[a..p - 1] && s[q] == AT && AT !in s[q + 1..e]
            && (forall k :: a <= k < e ==> InAuthority(s[k])) && (e < |s| ==> !InAuthority(s[e]))
            && AuthorityEnd(s[q..], 0) == e - q
  {
    hide Find, AuthorityEnd, Password, InAuthority;
    var p, q := Look(s).start, Look(s).end;
    n := Find(s, SCHEME).value;
    a := n + 3;
    e := AuthorityEnd(s, a);
    PasswordParts(s[a..e]);
    assert s[a..e][..p - 1 - a] == s[a..p - 1] && s[a..e][q - a + 1..] == s[q + 1..e];
    assert forall k :: 0 <= k < e - q ==> s[q..][k] == s[q + k];
    assert e < |s| ==> s[q..][e - q] == s[e];
    AuthorityIs(s[q..], 0, e - q);
  }

  /** Replacing the password leaves an authority with the same user and host. */
  lemma MaskedAuthority(s: Bytes, a: nat, p: nat, q: nat, e: nat, rest: Bytes)
    requires a < p <= q < e <= |s|
    requires s[p - 1] == COLON && COLON !in s[a..p - 1] && s[q] == AT && AT !in s[q + 1..e]
    requires (forall k :: a <= k < e ==> InAuthority(s[k])) && forall k :: 0 <= k < |MARKER| ==> InAuthority(MARKER[k])
    requires e - q <= |rest| && rest[..e - q] == s[q..][..e - q] && (e - q < |rest| ==> !InAuthority(rest[e - q]))
    ensures var out, end := s[..p] + (MARKER + rest), e - (q - p) + |MARKER|;
            && AuthorityEnd(out, a) == end
            && Password(out[a..end]) == Some((p - a, p - a + |MARKER|))
  {
    hide *;
    var out, end := s[..p] + (MARKER + rest), e - (q - p) + |MARKER|;
    var user, host := s[a..p], s[q..e];
    assert rest[..e - q] == host;
    AuthorityBytes(s, a, p, q, e, rest);
    AuthorityIs(out, a, end);
    assert out[a..end] == user + (MARKER + host);
    assert user[..|user| - 1] == s[a..p - 1];
    assert host[1..] == s[q + 1..e];
    PasswordIs(user, MARKER, host);
  }

  lemma AuthorityBytes(s: Bytes, a: nat, p: nat, q: nat, e: nat, rest: Bytes)
    requires a < p <= q < e <= |s|
    requires (forall k :: a <= k < e ==> InAuthority(s[k])) && forall k :: 0 <= k < |MARKER| ==> InAuthority(MARKER[k])
    requires e - q <= |rest| && rest[..e - q] == s[q..e] && (e - q < |rest| ==> !InAuthority(rest[e - q]))
    ensures var out, end := s[..p] + (MARKER + rest), e - (q - p) + |MARKER|;
            && end <= |out| && (forall k :: a <= k < end ==> InAuthority(out[k]))
              && (end < |out| ==> !InAuthority(out[end]))
  {
    hide *;
    var out, end := s[..p] + (MARKER + rest), e - (q - p) + |MARKER|;
    var m := p + |MARKER|;
    forall k | a <= k < end
      ensures InAuthority(out[k])
    {
      if k < p {
        assert out[k] == s[k];
      } else if k < m {
        assert out[k] == MARKER[k - p];
      } else {
        assert out[k] == rest[k - m] == rest[..e - q][k - m] == s[q + (k - m)];
      }
    }
    assert end < |out| ==> out[end] == rest[e - q];
  }

  lemma SecretFound(out: Bytes, a: nat, end: nat, p: nat, q: nat)
    requires a <= p <= q < end <= |out| && Find(out, SCHEME) == Some(a - |SCHEME|) && AuthorityEnd(out, a) == end
    requires Password(out[a..end]) == Some((p - a, q - a))
    ensures Look(out) == Secret(p, q)
  {
    hide Find, AuthorityEnd, Password;
  }

  /** The pass is idempotent. */
  lemma {:induction false} RedactTwice(s: Bytes)
    ensures Redacted(Redacted(s)) == Redacted(s)
    decreases |s|
  {
    hide *;
    RedactedStep(s);
    RedactedStep(Redacted(s));
    match Look(s) {
      case Nothing =>
      case Bare(next) =>
        BareTwice(s);
        RedactTwice(s[next..]);
      case Secret(start, end) =>
        SecretTwice(s);
        SecretText(s);
        RedactTwice(s[end..]);
    }
  }

  // ---------------------------------------------------------------- every visited password is masked

  predicate AllMarked(pieces: seq<Piece>) {
    forall k :: 0 <= k < |pieces| && pieces[k].Hidden? ==> pieces[k].secret == MARKER
  }

  lemma AllMarkedStep(s: Bytes)
    ensures var v := Look(s);
            && (v.Nothing? ==> AllMarked(Uri(s)))
            && (v.Bare? ==> (AllMarked(Uri(s)) <==> AllMarked(Uri(s[v.next..]))))
            && (v.Secret? ==> (AllMarked(Uri(s)) <==> s[v.start..v.end] == MARKER && AllMarked(Uri(s[v.end..]))))
  {
    hide Look, AllMarked;
    match Look(s) {
      case Nothing =>
        OneMarked(Kept(s));
      case Bare(next) =>
        OneMarked(Kept(s[..next]));
        AllMarkedAppend([Kept(s[..next])], Uri(s[next..]));
      case Secret(start, end) =>
        var hidden, rest := Hidden(s[start..end], MARKER), Uri(s[end..]);
        OneMarked(Kept(s[..start]));
        OneMarked(hidden);
        AllMarkedAppend([hidden], rest);
        AllMarkedAppend([Kept(s[..start])], [hidden] + rest);
    }
  }

  lemma OneMarked(p: Piece)
    ensures AllMarked([p]) <==> p.Kept? || p.secret == MARKER
  {
    assert [p][0] == p;
  }

  lemma AllMarkedAppend(a: seq<Piece>, b: seq<Piece>)
    ensures AllMarked(a + b) <==> AllMarked(a) && AllMarked(b)
  {
    assert forall k :: 0 <= k < |a| ==> (a + b)[k] == a[k];
    assert forall k :: 0 <= k < |b| ==> (a + b)[|a| + k] == b[k];
  }

  /** The pass leaves a record alone exactly when every password it visits is the marker already. */
  lemma {:induction false} FixedExactlyWhenMarked(s: Bytes)
    ensures Redacted(s) == s <==> AllMarked(Uri(s))
    decreases |s|
  {
    hide *;
    RedactedStep(s);
    AllMarkedStep(s);
    match Look(s) {
      case Nothing =>
      case Bare(next) =>
        FixedExactlyWhenMarked(s[next..]);
        SameEnds(s, next, Redacted(s[next..]));
      case Secret(start, end) =>
        FixedExactlyWhenMarked(s[end..]);
        SecretFixed(s);
    }
  }

  lemma SameEnds(s: Bytes, n: nat, rest: Bytes)
    requires n <= |s|
    ensures s == s[..n] + rest <==> s[n..] == rest
  {
    Cut(s[..n], rest);
    assert s == s[..n] + s[n..];
  }

  lemma SecretFixed(s: Bytes)
    requires Look(s).Secret?
    ensures var p, q := Look(s).start, Look(s).end;
            s == s[..p] + (MARKER + Redacted(s[q..])) <==> s[p..q] == MARKER && Redacted(s[q..]) == s[q..]
  {
    hide *;
    var p, q := Look(s).start, Look(s).end;
    var a, e, n := LookSecret(s);
    var rest := Redacted(s[q..]);
    var out := s[..p] + (MARKER + rest);
    SameAuthority(s[q..]);
    MarkerInAuthority();
    MaskedAuthority(s, a, p, q, e, rest);
    AuthorityIs(s, a, e);
    assert s == out ==> q == p + |MARKER|;
    SameMiddle(s, p, q, MARKER, rest);
  }

  lemma SameMiddle(s: Bytes, p: nat, q: nat, middle: Bytes, rest: Bytes)
    requires p <= q <= |s|
    ensures s[p..q] == middle && rest == s[q..] ==> s == s[..p] + (middle + rest)
    ensures s == s[..p] + (middle + rest) && q == p + |middle| ==> s[p..q] == middle && rest == s[q..]
  {
    CutTwice(s[..p], middle, rest);
    assert s == s[..p] + (s[p..q] + s[q..]);
  }

  /** i is the place of a scheme that the scan finds. */
  predicate Visited(s: Bytes, i: nat)
    decreases |s|
  {
    Find(s, SCHEME).Some?
    && (i == Find(s, SCHEME).value
        || var n := if Look(s).Bare? then Look(s).next else Look(s).end; n <= i && Visited(s[n..], i - n))
  }

  /** The password after a scheme at i. */
  function PasswordAt(s: Bytes, i: nat): Option<Bytes>
    requires i + 3 <= |s|
  {
    var authority := s[i + 3..AuthorityEnd(s, i + 3)];
    var r := Password(authority);
    if r.None? then None else Some(authority[r.value.0..r.value.1])
  }

  lemma PasswordShift(s: Bytes, n: nat, i: nat)
    requires n + i + 3 <= |s|
    ensures PasswordAt(s[n..], i) == PasswordAt(s, n + i)
    ensures AuthorityEnd(s[n..], i + 3) + n == AuthorityEnd(s, n + i + 3)
  {
    hide Password, Span, InAuthority;
    DropDrop(s, n, i + 3);
    var e := AuthorityEnd(s, n + i + 3);
    assert s[n..][i + 3..e - n] == s[n + i + 3..e];
  }

  lemma OccursShiftBy(s: Bytes, n: nat, i: nat)
    requires n <= |s|
    ensures OccursAt(SCHEME, s[n..], i) <==> OccursAt(SCHEME, s, n + i)
  {
    if n + i + 3 <= |s| {
      assert s[n..][i..i + 3] == s[n + i..n + i + 3];
    }
  }

  lemma LookedAt(s: Bytes)
    ensures Look(s).Nothing? <==> Find(s, SCHEME).None?
    ensures !Look(s).Nothing? ==>
              var i := Find(s, SCHEME).value;
              && i + 3 <= |s|
              && (Look(s).Bare? ==> PasswordAt(s, i).None? && AuthorityEnd(s, i + 3) == Look(s).next)
              && (Look(s).Secret? ==>
                    && PasswordAt(s, i) == Some(s[Look(s).start..Look(s).end])
                    && Look(s).end < AuthorityEnd(s, i + 3))
              && i + 3 <= (if Look(s).Bare? then Look(s).next else Look(s).end) <= AuthorityEnd(s, i + 3)
  {
    hide *;
    LookIs(s);
    if Find(s, SCHEME).Some? {
      PasswordAtIs(s, Find(s, SCHEME).value);
    }
  }

  lemma PasswordAtIs(s: Bytes, i: nat)
    requires i + 3 <= |s|
    ensures var e := AuthorityEnd(s, i + 3);
            var r := Password(s[i + 3..e]);
            && (r.None? ==> PasswordAt(s, i) == None)
            && (r.Some? ==> i + 3 + r.value.1 < e && PasswordAt(s, i) == Some(s[i + 3 + r.value.0..i + 3 + r.value.1]))
  {
    hide Password, AuthorityEnd;
    var e := AuthorityEnd(s, i + 3);
    var r := Password(s[i + 3..e]);
    if r.Some? {
      SliceSlice(s, i + 3, e, r.value.0, r.value.1);
    }
  }

  lemma LookIs(s: Bytes)
    ensures Look(s).Nothing? <==> Find(s, SCHEME).None?
    ensures Find(s, SCHEME).Some? ==>
              var start := Find(s, SCHEME).value + 3;
              && start <= |s|
              && var end := AuthorityEnd(s, start);
                 var r := Password(s[start..end]);
                 Look(s) == if r.None? then Bare(end) else Secret(start + r.value.0, start + r.value.1)
  {
    hide Find, Password, AuthorityEnd;
    if Find(s, SCHEME).Some? {
      FoundFits(s);
    }
  }

  lemma SliceSlice(s: Bytes, a: nat, e: nat, p: nat, q: nat)
    requires a <= e <= |s| && p <= q <= e - a
    ensures s[a..e][p..q] == s[a + p..a + q]
  {
    assert forall k :: 0 <= k < q - p ==> s[a..e][p..q][k] == s[a + p + k];
  }

  predicate Safe(password: Option<Bytes>) {
    password.None? || password.value == MARKER
  }

  /** If the pass leaves a record alone, every password it visits there is the marker. */
  lemma {:induction false} VisitedIsSafe(s: Bytes, i: nat)
    requires AllMarked(Uri(s)) && Visited(s, i)
    ensures i + 3 <= |s| && Safe(PasswordAt(s, i))
    decreases |s|
  {
    hide AllMarked, PasswordAt, Look, Find;
    LookedAt(s);
    AllMarkedStep(s);
    if i != Find(s, SCHEME).value {
      var n := if Look(s).Bare? then Look(s).next else Look(s).end;
      VisitedIsSafe(s[n..], i - n);
      PasswordShift(s, n, i - n);
    }
  }

  /** The scheme at i starts with the last byte of the authority at j, which has no password. */
  predicate SkippedAfter(s: Bytes, i: nat, j: nat) {
    j + 3 <= i < |s| && OccursAt(SCHEME, s, j) && PasswordAt(s, j).None? && AuthorityEnd(s, j + 3) == i + 1
  }

  lemma SchemeBytes(s: Bytes, i: nat)
    requires OccursAt(SCHEME, s, i)
    ensures i + 3 <= |s| && s[i] == COLON && s[i + 1] == 0x2F && s[i + 2] == 0x2F && !InAuthority(s[i + 1])
  {
    assert s[i..i + 3][0] == s[i] && s[i..i + 3][1] == s[i + 1] && s[i..i + 3][2] == s[i + 2];
  }

  lemma FirstFound(s: Bytes, i: nat)
    requires OccursAt(SCHEME, s, i)
    ensures Find(s, SCHEME).Some? && Find(s, SCHEME).value <= i && OccursAt(SCHEME, s, Find(s, SCHEME).value)
  {
    hide OccursAt, Find;
    Within(s, i);
  }

  lemma Within(s: Bytes, i: nat)
    requires OccursAt(SCHEME, s, i)
    ensures Occurs(SCHEME, s)
  {
  }

  /** The only schemes the scan does not find are those it skips. */
  lemma {:induction false} UnvisitedIsSkipped(s: Bytes, i: nat) returns (j: nat)
    requires OccursAt(SCHEME, s, i) && !Visited(s, i)
    ensures SkippedAfter(s, i, j)
    decreases |s|
  {
    hide Find, Look, OccursAt, PasswordAt, AuthorityEnd;
    FirstFound(s, i);
    j := Find(s, SCHEME).value;
    LookedAt(s);
    SchemeBytes(s, i);
    SchemeBytes(s, j);
    var n := if Look(s).Bare? then Look(s).next else Look(s).end;
    if n <= i {
      OccursShiftBy(s, n, i - n);
      var k := UnvisitedIsSkipped(s[n..], i - n);
      OccursShiftBy(s, n, k);
      PasswordShift(s, n, k);
      j := n + k;
    } else {
      // the scheme's "/" ends the authority right behind its ":"
      assert i != j && i != j + 1 && i != j + 2;
      assert AuthorityEnd(s, j + 3) <= i + 1;
    }
  }

  /**
   In the output, the password after every "://" is the marker, unless that "://" starts with the
   last byte of an authority without password.
   */
  lemma PasswordsAreMasked(s: Bytes, i: nat) returns (j: nat)
    requires OccursAt(SCHEME, RedactUri(s), i)
    ensures i + 3 <= |RedactUri(s)|
    ensures Safe(PasswordAt(RedactUri(s), i)) || SkippedAfter(RedactUri(s), i, j)
  {
    hide Uri, AllMarked, Safe, SkippedAfter, Visited, PasswordAt, Redacted;
    var out := Redacted(s);
    RedactTwice(s);
    FixedExactlyWhenMarked(out);
    if Visited(out, i) {
      VisitedIsSafe(out, i);
      j := 0;
    } else {
      j := UnvisitedIsSkipped(out, i);
    }
  }

  // ---------------------------------------------------------------- which records keep a password

  /** The bare authority that ends at n ends in the colon of a scheme, which is skipped with its password. */
  predicate SkipsHere(s: Bytes, n: nat) {
    n > 0 && OccursAt(SCHEME, s, n - 1) && !Safe(PasswordAt(s, n - 1))
  }

  /** The scan of this record skips a scheme whose password is not the marker. */
  predicate SkipsPassword(s: Bytes)
    decreases |s|
  {
    match Look(s)
    case Nothing => false
    case Bare(next) => SkipsHere(s, next) || SkipsPassword(s[next..])
    case Secret(_, end) => SkipsPassword(s[end..])
  }

  predicate UnsafeAt(s: Bytes, i: nat) {
    OccursAt(SCHEME, s, i) && !Safe(PasswordAt(s, i))
  }

  ghost predicate AllSafe(s: Bytes) {
    forall i: nat :: !UnsafeAt(s, i)
  }

  lemma UnsafeShift(s: Bytes, n: nat, i: nat)
    requires n <= |s|
    ensures UnsafeAt(s[n..], i) <==> UnsafeAt(s, n + i)
  {
    hide PasswordAt, Safe;
    OccursShiftBy(s, n, i);
    if n + i + 3 <= |s| {
      PasswordShift(s, n, i);
    }
  }

  lemma SkipsStep(s: Bytes)
    ensures var v := Look(s);
            && (v.Nothing? ==> !SkipsPassword(s))
            && (v.Bare? ==> (SkipsPassword(s) <==> SkipsHere(s, v.next) || SkipsPassword(s[v.next..])))
            && (v.Secret? ==> (SkipsPassword(s) <==> SkipsPassword(s[v.end..])))
  {
    hide Look, SkipsHere;
  }

  /** Where the unsafe schemes of a record that the pass leaves alone can be. */
  lemma UnsafeWhere(s: Bytes, i: nat)
    requires AllMarked(Uri(s)) && UnsafeAt(s, i)
    ensures !Look(s).Nothing?
    ensures var n := if Look(s).Bare? then Look(s).next else Look(s).end;
            n <= i || (Look(s).Bare? && n == i + 1)
  {
    hide Look, Find, AllMarked, PasswordAt, AuthorityEnd, OccursAt;
    FirstFound(s, i);
    LookedAt(s);
    AllMarkedStep(s);
    var j := Find(s, SCHEME).value;
    SchemeBytes(s, i);
    SchemeBytes(s, j);
    assert i != j + 1 && i != j + 2;
    var n := if Look(s).Bare? then Look(s).next else Look(s).end;
    if i != j && i < n {
      assert AuthorityEnd(s, j + 3) <= i + 1;
    }
  }

  lemma {:induction false} SkipsExactly(s: Bytes)
    requires AllMarked(Uri(s))
    ensures AllSafe(s) <==> !SkipsPassword(s)
    decreases |s|
  {
    hide Look, AllMarked, UnsafeAt, SkipsHere, SkipsPassword;
    SkipsStep(s);
    AllMarkedStep(s);
    if Look(s).Nothing? {
      forall i: nat
        ensures !UnsafeAt(s, i)
      {
        if UnsafeAt(s, i) {
          UnsafeWhere(s, i);
        }
      }
    } else {
      var n := if Look(s).Bare? then Look(s).next else Look(s).end;
      SkipsExactly(s[n..]);
      UnsafeHere(s, n);
      forall i: nat
        ensures UnsafeAt(s, i) ==> (i + 1 == n && Look(s).Bare?) || !AllSafe(s[n..])
        ensures i >= n && UnsafeAt(s[n..], i - n) ==> UnsafeAt(s, i)
      {
        if i >= n {
          UnsafeShift(s, n, i - n);
        } else if UnsafeAt(s, i) {
          UnsafeWhere(s, i);
        }
      }
      if !AllSafe(s[n..]) {
        var i: nat :| UnsafeAt(s[n..], i);
        UnsafeShift(s, n, i);
      }
    }
  }

  lemma UnsafeHere(s: Bytes, n: nat)
    ensures SkipsHere(s, n) <==> n > 0 && UnsafeAt(s, n - 1)
  {
  }

  /** How far the output is sure to agree with the record: beyond the first scheme. */
  lemma AgreesUpTo(s: Bytes) returns (m: nat)
    requires Look(s) != Nothing
    ensures Find(s, SCHEME).Some? && Find(s, SCHEME).value + 3 <= m <= |s|
    ensures m <= |Redacted(s)| && Redacted(s)[..m] == s[..m]
  {
    hide *;
    RedactedStep(s);
    LookIs(s);
    if Look(s).Bare? {
      m := Look(s).next;
      BeginsWith(Redacted(s), s[..m], Redacted(s[m..]));
    } else {
      m := Look(s).start;
      BeginsWith(Redacted(s), s[..m], MARKER + Redacted(s[Look(s).end..]));
    }
  }

  lemma BeginsWith(t: Bytes, a: Bytes, b: Bytes)
    requires t == a + b
    ensures |a| <= |t| && t[..|a|] == a
  {
  }

  lemma AuthorityWithin(s: Bytes, out: Bytes, m: nat, start: nat)
    requires start <= |s| && AuthorityEnd(s, start) < m <= |s| && m <= |out| && out[..m] == s[..m]
    ensures AuthorityEnd(out, start) == AuthorityEnd(s, start)
    ensures out[..AuthorityEnd(s, start)] == s[..AuthorityEnd(s, start)]
  {
    hide AuthorityEnd, InAuthority;
    var n := AuthorityEnd(s, start);
    SamePrefix(s, m, out, n);
    forall k | start <= k < n
      ensures InAuthority(out[k])
    {
      assert out[k] == out[..n][k] == s[..n][k] == s[k];
    }
    AuthorityIs(out, start, n);
  }

  /** Up to its first scheme and the authority that ends there, the output agrees with the record. */
  lemma SameFrom(s: Bytes, start: nat)
    requires start <= |s| && (Look(s) == Nothing || start <= Find(s, SCHEME).value + 1)
    ensures start <= |Redacted(s)| && AuthorityEnd(Redacted(s), start) == AuthorityEnd(s, start)
    ensures Redacted(s)[..AuthorityEnd(s, start)] == s[..AuthorityEnd(s, start)]
  {
    hide AuthorityEnd, Redacted, InAuthority, Find, Look, OccursAt;
    if Look(s) == Nothing {
      RedactedStep(s);
    } else {
      var m := AgreesUpTo(s);
      FoundHere(s);
      SchemeBytes(s, Find(s, SCHEME).value);
      AuthorityWithin(s, Redacted(s), m, start);
    }
  }

  lemma FoundHere(s: Bytes)
    requires Find(s, SCHEME).Some?
    ensures OccursAt(SCHEME, s, Find(s, SCHEME).value)
  {
  }

  lemma SkipsHereIs(a: Bytes, t: Bytes)
    requires a != []
    ensures SkipsHere(a + t, |a|) <==>
              a[|a| - 1] == COLON && StartsWithSlashes(t) && !Safe(PasswordAt(a + t, |a| - 1))
  {
    hide PasswordAt, Safe, OccursAt;
    SchemeAcross(a, t);
  }

  /** Redacting what follows a bare authority changes nothing about a scheme that starts at its end. */
  lemma SkipsHereSame(s: Bytes)
    requires Look(s).Bare?
    ensures SkipsHere(Redacted(s), Look(s).next) <==> SkipsHere(s, Look(s).next)
  {
    hide *;
    var n := Look(s).next;
    RedactedStep(s);
    var a, t, u := s[..n], s[n..], Redacted(s[n..]);
    assert s == a + t && Redacted(s) == a + u && |a| == n;
    SkipsHereIs(a, t);
    SkipsHereIs(a, u);
    SlashesSame(t);
    if StartsWithSlashes(t) {
      TwoSlashes(t);
      TwoSlashes(u);
      SameFrom(t, 2);
      SamePasswordAfter(a, t, u);
    }
  }

  /** A scheme that starts with the last byte of a goes on with the first two of t. */
  lemma SchemeAcross(a: Bytes, t: Bytes)
    requires a != []
    ensures OccursAt(SCHEME, a + t, |a| - 1) <==> a[|a| - 1] == COLON && |t| >= 2 && t[0] == 0x2F && t[1] == 0x2F
  {
    var s := a + t;
    var i := |a| - 1;
    if i + 3 <= |s| {
      assert s[i..i + 3] == [a[i], t[0], t[1]];
    }
  }

  predicate StartsWithSlashes(t: Bytes) {
    |t| >= 2 && t[0] == 0x2F && t[1] == 0x2F
  }

  /** A string starts with two slashes exactly if its output does. */
  lemma SlashesSame(t: Bytes)
    ensures StartsWithSlashes(Redacted(t)) <==> StartsWithSlashes(t)
  {
    hide Redacted, Look, Find;
    RedactedStep(t);
    if Look(t) != Nothing {
      var m := AgreesUpTo(t);
      var out := Redacted(t);
      assert out[0] == out[..m][0] && out[1] == out[..m][1] && t[0] == t[..m][0] && t[1] == t[..m][1];
    }
  }

  lemma TwoSlashes(t: Bytes)
    requires StartsWithSlashes(t)
    ensures |t| >= 2
    ensures Look(t) == Nothing || Find(t, SCHEME).value >= 2
  {
    hide Find, Look;
    LookIs(t);
    if Find(t, SCHEME).Some? {
      FoundHere(t);
      SchemeBytes(t, Find(t, SCHEME).value);
    }
  }

  /** The authority behind a scheme that starts with the last byte of a depends on t alone. */
  lemma SamePasswordAfter(a: Bytes, t: Bytes, u: Bytes)
    requires a != [] && 2 <= |t| && 2 <= |u|
    requires AuthorityEnd(u, 2) == AuthorityEnd(t, 2) && u[..AuthorityEnd(t, 2)] == t[..AuthorityEnd(t, 2)]
    ensures PasswordAt(a + t, |a| - 1) == PasswordAt(a + u, |a| - 1)
  {
    hide Password, AuthorityEnd;
    var e := AuthorityEnd(t, 2);
    Cut(a, t);
    Cut(a, u);
    AuthorityAfter(a, t);
    AuthorityAfter(a, u);
    SliceBehind(a, t, e);
    SliceBehind(a, u, e);
  }

  lemma SliceBehind(a: Bytes, t: Bytes, e: nat)
    requires 2 <= e <= |t|
    ensures (a + t)[|a| + 2..|a| + e] == t[..e][2..]
  {
    Cut(a, t);
    assert (a + t)[|a| + 2..|a| + e] == (a + t)[|a|..][2..e];
  }

  lemma AuthorityAfter(a: Bytes, t: Bytes)
    requires 2 <= |t|
    ensures AuthorityEnd(a + t, |a| + 2) == |a| + AuthorityEnd(t, 2)
  {
    var e := AuthorityEnd(t, 2);
    assert forall k :: |a| + 2 <= k < |a| + e ==> (a + t)[k] == t[k - |a|];
    AuthorityIs(a + t, |a| + 2, |a| + e);
  }

  lemma {:induction false} SkipsSame(s: Bytes)
    ensures SkipsPassword(Redacted(s)) <==> SkipsPassword(s)
    decreases |s|
  {
    hide *;
    SkipsStep(s);
    SkipsStep(Redacted(s));
    RedactedStep(s);
    match Look(s) {
      case Nothing =>
      case Bare(next) =>
        BareTwice(s);
        SkipsHereSame(s);
        SkipsSame(s[next..]);
      case Secret(start, end) =>
        SecretTwice(s);
        SecretText(s);
        SkipsSame(s[end..]);
    }
  }

  /**
   The output leaves no password but the marker after any "://" exactly if the scan of the record
   skips no scheme with a password.
   */
  lemma AllMaskedExactly(s: Bytes)
    ensures AllSafe(RedactUri(s)) <==> !SkipsPassword(s)
  {
    hide Redacted, Uri, AllMarked, AllSafe, SkipsPassword;
    RedactTwice(s);
    FixedExactlyWhenMarked(Redacted(s));
    SkipsExactly(Redacted(s));
    SkipsSame(s);
  }

  function RedactUri(s: Bytes): Bytes {
    Redacted(s)
  }

  // ---------------------------------------------------------------- UTF-8

  predicate Boundary(s: Bytes, i: nat) {
    i <= |s| && Run(Start, s[..i]) == Start && Run(Start, s[i..]) == Start
  }

  /** In a well-formed string, before an ASCII byte and behind one there is a character boundary. */
  lemma BoundaryBesideAscii(s: Bytes, i: nat)
    requires Run(Start, s) == Start && i <= |s|
    requires i == 0 || i == |s| || s[i] <= 0x7F || s[i - 1] <= 0x7F
    ensures Boundary(s, i)
  {
    hide Run, Next;
    assert s == s[..i] + s[i..];
    CutBesideAscii(s[..i], s[i..]);
  }

  lemma LookAtAscii(s: Bytes)
    requires Look(s) != Nothing
    ensures var v := Look(s);
            && (v.Bare? ==> v.next == |s| || s[v.next] <= 0x7F)
            && (v.Secret? ==> s[v.start - 1] <= 0x7F && s[v.end] <= 0x7F)
  {
    hide Look, Find, Password, AuthorityEnd, PasswordAt;
    LookedAt(s);
    if Look(s).Secret? {
      var a, e, n := LookSecret(s);
    }
  }

  /** The places where the record is cut are character boundaries, so slicing it cannot fail. */
  lemma CutsAtBoundaries(s: Bytes)
    requires Run(Start, s) == Start && Look(s) != Nothing
    ensures Look(s).Bare? ==> Boundary(s, Look(s).next)
    ensures Look(s).Secret? ==> Boundary(s, Look(s).start) && Boundary(s, Look(s).end)
  {
    hide *;
    LookAtAscii(s);
    var v := Look(s);
    if v.Bare? {
      BoundaryBesideAscii(s, v.next);
    } else {
      BoundaryBesideAscii(s, v.start);
      BoundaryBesideAscii(s, v.end);
    }
  }

  lemma BoundaryParts(s: Bytes, i: nat)
    requires Boundary(s, i)
    ensures Run(Start, s[..i]) == Start && Run(Start, s[i..]) == Start
  {
  }

  lemma {:induction false} UriKeepsUtf8(s: Bytes)
    requires Run(Start, s) == Start
    ensures Run(Start, Redacted(s)) == Start
    decreases |s|
  {
    hide *;
    RedactedStep(s);
    if Look(s).Bare? {
      CutsAtBoundaries(s);
      BoundaryParts(s, Look(s).next);
      UriKeepsUtf8(s[Look(s).next..]);
      RunAppend(Start, s[..Look(s).next], Redacted(s[Look(s).next..]));
    } else if Look(s).Secret? {
      CutsAtBoundaries(s);
      BoundaryParts(s, Look(s).start);
      BoundaryParts(s, Look(s).end);
      UriKeepsUtf8(s[Look(s).end..]);
      MarkerRuns();
      RunAppend(Start, MARKER, Redacted(s[Look(s).end..]));
      RunAppend(Start, s[..Look(s).start], MARKER + Redacted(s[Look(s).end..]));
    }
  }

  lemma RedactUriKeepsUtf8(s: Bytes)
    requires Valid(s)
    ensures Valid(RedactUri(s))
  {
    AutomatonIsGrammar(s);
    UriKeepsUtf8(s);
    AutomatonIsGrammar(RedactUri(s));
  }

  // ---------------------------------------------------------------- the scanner

  /** `replace_range`, which fails where the string cannot be cut. */
  function ReplaceRange(s: Bytes, from: nat, end: nat, shown: Bytes): Bytes
    requires from <= end && Boundary(s, from) && Boundary(s, end)
  {
    s[..from] + shown + s[end..]
  }

  lemma BoundaryWithin(s: Bytes, n: nat, i: nat)
    requires Run(Start, s) == Start && Boundary(s, n) && Boundary(s[n..], i)
    ensures Boundary(s, n + i)
  {
    hide Run, Next;
    DropDrop(s, n, i);
    assert s[..n + i] == s[..n] + s[n..][..i];
    RunAppend(Start, s[..n], s[n..][..i]);
  }

  method FindPassword(authority: Bytes) returns (r: Option<(nat, nat)>)
    ensures r == Password(authority)
  {
    hide LastOf, Until;
    var at := LastOf(authority, AT);
    if at.Some? {
      var userinfo := authority[..at.value];
      var colon := Until(userinfo, COLON);
      if colon < |userinfo| {
        return Some((colon + 1, at.value));
      }
    }
    return None;
  }

  /** What the scanner sees from where its search stands, in terms of the whole string. */
  lemma LookFrom(current: Bytes, n: nat, start: nat, end: nat)
    requires n <= |current| && n + 3 <= start <= |current| && Find(current[n..], SCHEME) == Some(start - 3 - n)
    requires end == start + Span(current[start..], InAuthority) <= |current|
    ensures var r := Password(current[start..end]);
            Look(current[n..]) == if r.None? then Bare(end - n)
                                  else Secret(start + r.value.0 - n, start + r.value.1 - n)
  {
    hide Find, Password, Span, InAuthority;
    DropDrop(current, n, start - n);
    assert current[n..][start - n..end - n] == current[start..end];
  }

  lemma FoundFits(s: Bytes)
    requires Find(s, SCHEME).Some?
    ensures Find(s, SCHEME).value + 3 <= |s|
  {
  }

  method VisitAuthority(current: Bytes, searchFrom: nat, schemeEnd: nat) returns (v: Visit)
    requires searchFrom <= schemeEnd <= |current| && Find(current[searchFrom..], SCHEME) == Some(schemeEnd - searchFrom)
    ensures Look(current[searchFrom..]) == v && v != Nothing
  {
    hide *;
    FoundFits(current[searchFrom..]);
    var authorityStart := schemeEnd + 3;
    var authorityEnd := authorityStart + Span(current[authorityStart..], InAuthority);
    var password := FindPassword(current[authorityStart..authorityEnd]);
    LookFrom(current, searchFrom, authorityStart, authorityEnd);
    v := if password.None? then Bare(authorityEnd - searchFrom)
         else Secret(authorityStart + password.value.0 - searchFrom, authorityStart + password.value.1 - searchFrom);
  }

  lemma SplitTwice(c: Bytes, n: nat, m: nat)
    requires n + m <= |c|
    ensures c[..n] + c[n..][..m] == c[..n + m]
  {
  }

  lemma Regroup3(a: Bytes, b: Bytes, c: Bytes)
    ensures a + (b + c) == a + b + c
  {
  }

  lemma Regroup4(a: Bytes, b: Bytes, c: Bytes, d: Bytes)
    ensures a + (b + (c + d)) == a + b + c + d
  {
  }

  /** Replacing what the scanner found leaves the same pass to do. */
  lemma SecretReplaced(current: Bytes, n: nat, start: nat, end: nat)
    requires n <= |current| && Look(current[n..]) == Secret(start, end)
    requires Run(Start, current) == Start && Boundary(current, n)
    ensures start <= end && n + end <= |current| && Boundary(current, n + start) && Boundary(current, n + end)
    ensures current[..n] + Redacted(current[n..]) == current[..n + start] + MARKER + Redacted(current[n + end..])
  {
    hide *;
    var s := current[n..];
    BoundaryParts(current, n);
    CutsAtBoundaries(s);
    BoundaryWithin(current, n, start);
    BoundaryWithin(current, n, end);
    RedactedStep(s);
    DropDrop(current, n, end);
    SplitTwice(current, n, start);
    Regroup4(current[..n], s[..start], MARKER, Redacted(current[n + end..]));
  }

  lemma ReplacedText(s: Bytes, p: nat, q: nat)
    requires p <= q && Boundary(s, p) && Boundary(s, q)
    ensures var t := ReplaceRange(s, p, q, MARKER);
            && p + |MARKER| <= |t| && t[..p + |MARKER|] == s[..p] + MARKER && t[p + |MARKER|..] == s[q..]
            && Run(Start, t) == Start && Boundary(t, p + |MARKER|)
  {
    hide Run, Next;
    Cut(s[..p] + MARKER, s[q..]);
    MarkerRuns();
    RunAppend(Start, s[..p], MARKER);
    RunAppend(Start, s[..p] + MARKER, s[q..]);
  }

  lemma BarePassed(current: Bytes, n: nat, next: nat)
    requires n <= |current| && Look(current[n..]) == Bare(next) && Run(Start, current) == Start && Boundary(current, n)
    ensures n + next <= |current| && Boundary(current, n + next)
    ensures current[..n] + Redacted(current[n..]) == current[..n + next] + Redacted(current[n + next..])
  {
    hide *;
    var s := current[n..];
    BoundaryParts(current, n);
    CutsAtBoundaries(s);
    BoundaryWithin(current, n, next);
    RedactedStep(s);
    DropDrop(current, n, next);
    SplitTwice(current, n, next);
    Regroup3(current[..n], s[..next], Redacted(current[n + next..]));
  }

  lemma WholeRecord(s: Bytes)
    requires Valid(s)
    ensures Run(Start, s) == Start && Boundary(s, 0) && s[..0] + Redacted(s[0..]) == Redacted(s)
  {
    hide Redacted;
    AutomatonIsGrammar(s);
    assert s[0..] == s && s[..0] == [];
  }

  lemma NothingLeft(s: Bytes, n: nat)
    requires n <= |s| && Look(s[n..]).Nothing?
    ensures s[..n] + Redacted(s[n..]) == s
  {
    hide Look, Redacted;
    RedactedStep(s[n..]);
    assert s[..n] + s[n..] == s;
  }

  lemma EndOfRecord(s: Bytes)
    ensures Look(s[|s|..]).Nothing?
  {
  }

  lemma FoundIsVisit(s: Bytes)
    ensures Find(s, SCHEME).None? <==> Look(s).Nothing?
  {
    hide Find, Span, Password;
  }

  method RedactUriPasswords(record: Bytes) returns (current: Bytes)
    requires Valid(record)
    ensures current == RedactUri(record) && Valid(current)
  {
    hide *;
    current := record;
    var searchFrom := 0;
    WholeRecord(record);
    var found := Find(current[searchFrom..], SCHEME);
    while found.Some?
      invariant searchFrom <= |current| && found == Find(current[searchFrom..], SCHEME)
      invariant Run(Start, current) == Start && Boundary(current, searchFrom)
      invariant current[..searchFrom] + Redacted(current[searchFrom..]) == Redacted(record)
      decreases |current| - searchFrom
    {
      FoundFits(current[searchFrom..]);
      var schemeEnd := searchFrom + found.value;
      var v := VisitAuthority(current, searchFrom, schemeEnd);
      match v {
        case Secret(start, end) =>
          SecretReplaced(current, searchFrom, start, end);
          ReplacedText(current, searchFrom + start, searchFrom + end);
          current := ReplaceRange(current, searchFrom + start, searchFrom + end, MARKER);
          searchFrom := searchFrom + start + |MARKER|;
        case Bare(next) =>
          BarePassed(current, searchFrom, next);
          searchFrom := searchFrom + next;
          if searchFrom >= |current| {
            EndOfRecord(current);
            NothingLeft(current, searchFrom);
            UriResult(record, current);
            return;
          }
      }
      found := Find(current[searchFrom..], SCHEME);
    }
    FoundIsVisit(current[searchFrom..]);
    NothingLeft(current, searchFrom);
    UriResult(record, current);
  }

  lemma UriResult(record: Bytes, current: Bytes)
    requires Run(Start, current) == Start && current == Redacted(record)
    ensures current == RedactUri(record) && Valid(current)
  {
    AutomatonIsGrammar(current);
  }

  /** "a://b://u:p@h" */
  const SKIPPED: Bytes := [0x61, 0x3A, 0x2F, 0x2F, 0x62, 0x3A, 0x2F, 0x2F, 0x75, 0x3A, 0x70, 0x40, 0x68]

  lemma SkippedSchemes()
    ensures OccursAt(SCHEME, SKIPPED, 1) && OccursAt(SCHEME, SKIPPED, 5) && Find(SKIPPED, SCHEME) == Some(1)
    ensures Find(SKIPPED[6..], SCHEME) == None
  {
    assert SKIPPED[1..4] == SCHEME && SKIPPED[5..8] == SCHEME;
    assert SKIPPED[0..3][0] != SCHEME[0];
    assert !OccursAt(SCHEME, SKIPPED, 0);
    assert SKIPPED[1..] != [];
    var rest := SKIPPED[6..];
    forall i: nat
      ensures !OccursAt(SCHEME, rest, i)
    {
      if OccursAt(SCHEME, rest, i) {
        SchemeBytes(rest, i);
      }
    }
  }

  lemma BareB()
    ensures AuthorityEnd(SKIPPED, 4) == 6 && Password(SKIPPED[4..6]) == None
  {
    AuthorityIs(SKIPPED, 4, 6);
    var b := SKIPPED[4..6];
    assert b[0] != AT && b[1] != AT;
  }

  lemma SecretP()
    ensures PasswordAt(SKIPPED, 5) == Some([0x70])
  {
    hide AuthorityEnd, Password;
    AuthorityIs(SKIPPED, 8, 13);
    PasswordIs([0x75, 0x3A], [0x70], [0x40, 0x68]);
    assert SKIPPED[8..13] == [0x75, 0x3A] + ([0x70] + [0x40, 0x68]);
    assert SKIPPED[8..13][2..3] == [0x70];
  }

  /** A scheme that starts with the colon of a password-less authority is skipped, password and all. */
  lemma SkippedPasswordSurvives()
    ensures RedactUri(SKIPPED) == SKIPPED && OccursAt(SCHEME, SKIPPED, 5) && PasswordAt(SKIPPED, 5) == Some([0x70])
  {
    hide Find, Password, OccursAt, PasswordAt, AuthorityEnd, Redacted;
    SkippedSchemes();
    BareB();
    SecretP();
    assert Look(SKIPPED) == Bare(6);
    RedactedStep(SKIPPED);
    RedactedStep(SKIPPED[6..]);
    assert SKIPPED[..6] + SKIPPED[6..] == SKIPPED;
  }
}
