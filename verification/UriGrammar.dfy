/**
 The URI pass stated as a grammar of the record: text up to the next "://", the authority behind it,
 and in it the password between the first colon and the last at sign.
 */
module UriGrammar {
  import opened Basics
  import opened Text
  import opened Masking
  import opened RecordGrammar
  import UriRedaction

  /**
   The rest of a record; text that ends in "://" with an authority that has no password; or such text
   with the user and the password of its authority.
   */
  datatype Segment =
    | Rest(text: Bytes)
    | Bare(text: Bytes, authority: Bytes)
    | Secret(text: Bytes, user: Bytes, password: Bytes)

  function Source(seg: Segment): Bytes {
    match seg
    case Rest(text) => text
    case Bare(text, authority) => text + authority
    case Secret(text, user, password) => text + (user + Ascii(":")) + password
  }

  function Shown(seg: Segment): Bytes {
    match seg
    case Rest(text) => text
    case Bare(text, authority) => text + authority
    case Secret(text, user, _) => text + (user + Ascii(":")) + Ascii("[REDACTED]")
  }

  function ShownAll(segs: seq<Segment>): Bytes {
    if segs == [] then [] else Shown(segs[0]) + ShownAll(segs[1..])
  }

  predicate AuthorityByte(b: Byte) {
    var c := b as char;
    !Blank(b) && c != '/' && c != '?' && c != '#'
  }

  /** "://" stands at i. */
  predicate SchemeAt(s: Bytes, i: nat) {
    i + 3 <= |s| && s[i] as char == ':' && s[i + 1] as char == '/' && s[i + 2] as char == '/'
  }

  /** The text ends with its only "://". */
  predicate UpToScheme(text: Bytes) {
    |text| >= 3 && SchemeAt(text, |text| - 3) && forall i: nat :: i < |text| - 3 ==> !SchemeAt(text, i)
  }

  /** All of the authority, up to the first byte that cannot be in one. */
  predicate WholeAuthority(authority: Bytes, rest: Bytes) {
    && authority <= rest && (forall k :: 0 <= k < |authority| ==> AuthorityByte(authority[k]))
    && (|authority| < |rest| ==> !AuthorityByte(rest[|authority|]))
  }

  predicate Signs(authority: Bytes, i: nat, j: nat) {
    i < j < |authority| && authority[i] as char == ':' && authority[j] as char == '@'
  }

  predicate Free(s: Bytes, c: char) {
    forall k :: 0 <= k < |s| ==> s[k] as char != c
  }

  /** The authority is the user, a colon, the password, an at sign and the host. */
  predicate Divided(authority: Bytes, user: Bytes, password: Bytes, host: Bytes) {
    authority == user + (Ascii(":") + (password + (Ascii("@") + host))) && Free(user, ':') && Free(host, '@')
  }

  predicate Hides(authority: Bytes, rest: Bytes, user: Bytes, password: Bytes, host: Bytes) {
    WholeAuthority(authority, rest) && Divided(authority, user, password, host)
  }

  /** The segment may stand at the start of s. */
  ghost predicate Stands(seg: Segment, s: Bytes) {
    && Source(seg) <= s
    && match seg
       case Rest(text) => text == s && forall i: nat :: !SchemeAt(s, i)
       case Bare(text, authority) =>
         && UpToScheme(text) && WholeAuthority(authority, s[|text|..])
         && forall i: nat, j: nat :: !Signs(authority, i, j)
       case Secret(text, user, password) =>
         UpToScheme(text) && exists authority, host :: Hides(authority, s[|text|..], user, password, host)
  }

  /** The segments are a reading of the whole record; the rest comes last. */
  ghost predicate Reading(s: Bytes, segs: seq<Segment>)
    decreases |segs|
  {
    && segs != [] && Stands(segs[0], s)
    && if segs[0].Rest? then |segs| == 1 else Reading(s[|Source(segs[0])|..], segs[1..])
  }

  // ---------------------------------------------------------------- the grammar's words and the pass's

  lemma SameScheme(s: Bytes, i: nat)
    ensures SchemeAt(s, i) <==> OccursAt(UriRedaction.SCHEME, s, i)
  {
    if i + 3 <= |s| {
      assert s[i..i + 3][0] == s[i] && s[i..i + 3][1] == s[i + 1] && s[i..i + 3][2] == s[i + 2];
      assert s[i..i + 3] == [s[i], s[i + 1], s[i + 2]];
    }
  }

  lemma SameSigns()
    ensures Ascii(":") == [UriRedaction.COLON] && Ascii("@") == [UriRedaction.AT] && Ascii("[REDACTED]") == MARKER
    ensures forall b :: AuthorityByte(b) <==> UriRedaction.InAuthority(b)
  {
    hide Blank, IsSpace;
    SameAll();
  }

  /** The first "://" is found behind the text before it. */
  lemma SchemeFound(s: Bytes, text: Bytes)
    requires text <= s && UpToScheme(text)
    ensures Find(s, UriRedaction.SCHEME) == Some(|text| - 3)
  {
    hide Find, SchemeAt, OccursAt;
    var n := |text| - 3;
    SameFront(s, text);
    SameScheme(s, n);
    assert Occurs(UriRedaction.SCHEME, s);
    forall i: nat | i < n
      ensures !OccursAt(UriRedaction.SCHEME, s, i)
    {
      SameScheme(s, i);
    }
  }

  lemma SameFront(s: Bytes, text: Bytes)
    requires text <= s
    ensures forall i: nat :: i + 3 <= |text| ==> (SchemeAt(text, i) <==> SchemeAt(s, i))
  {
  }

  lemma NoSchemeFound(s: Bytes)
    ensures (forall i: nat :: !SchemeAt(s, i)) <==> Find(s, UriRedaction.SCHEME).None?
  {
    hide Find, SchemeAt, OccursAt;
    forall i: nat
      ensures SchemeAt(s, i) <==> OccursAt(UriRedaction.SCHEME, s, i)
    {
      SameScheme(s, i);
    }
    if i: nat :| SchemeAt(s, i) {
      Bounded(s, i);
    }
  }

  lemma Bounded(s: Bytes, i: nat)
    requires SchemeAt(s, i)
    ensures i <= |s|
  {
  }

  lemma AuthorityEnds(s: Bytes, start: nat, authority: Bytes)
    requires start <= |s|
    ensures WholeAuthority(authority, s[start..]) <==>
            authority <= s[start..] && UriRedaction.AuthorityEnd(s, start) == start + |authority|
  {
    hide Span, AuthorityByte, UriRedaction.InAuthority;
    SameSigns();
    if authority <= s[start..] {
      RunIs(s, start, start + |authority|, UriRedaction.InAuthority);
      assert forall k :: 0 <= k < |authority| ==> authority[k] == s[start + k];
      assert |authority| < |s[start..]| ==> s[start..][|authority|] == s[start + |authority|];
    }
  }

  lemma NoSigns(authority: Bytes)
    ensures (forall i: nat, j: nat :: !Signs(authority, i, j)) <==> UriRedaction.Password(authority).None?
  {
    hide UriRedaction.LastOf, Until;
    var at := UriRedaction.LastOf(authority, UriRedaction.AT);
    if at.Some? {
      var colon := Until(authority[..at.value], UriRedaction.COLON);
      assert forall k :: 0 <= k < at.value ==> authority[..at.value][k] == authority[k];
      if colon < at.value {
        assert Signs(authority, colon, at.value);
      }
      assert forall k :: at.value < k < |authority| ==> authority[k] == authority[at.value + 1..][k - at.value - 1];
    }
  }

  lemma DividedPassword(authority: Bytes, user: Bytes, password: Bytes, host: Bytes)
    requires Divided(authority, user, password, host)
    ensures UriRedaction.Password(authority) == Some((|user| + 1, |user| + 1 + |password|))
  {
    hide UriRedaction.Password;
    SameSigns();
    var u, h := user + [UriRedaction.COLON], [UriRedaction.AT] + host;
    assert u[..|u| - 1] == user && h[1..] == host;
    assert authority == u + (password + h);
    UriRedaction.PasswordIs(u, password, h);
  }

  lemma PasswordDivided(authority: Bytes) returns (user: Bytes, password: Bytes, host: Bytes)
    requires UriRedaction.Password(authority).Some?
    ensures var r := UriRedaction.Password(authority).value;
            Divided(authority, user, password, host) && |user| + 1 == r.0 && |password| == r.1 - r.0
  {
    hide UriRedaction.Password;
    SameSigns();
    var p, q := UriRedaction.Password(authority).value.0, UriRedaction.Password(authority).value.1;
    UriRedaction.PasswordParts(authority);
    user, password, host := authority[..p - 1], authority[p..q], authority[q + 1..];
    FiveParts(authority, p, q);
  }

  lemma FiveParts(s: Bytes, p: nat, q: nat)
    requires 1 <= p <= q < |s|
    ensures s == s[..p - 1] + ([s[p - 1]] + (s[p..q] + ([s[q]] + s[q + 1..])))
  {
    assert s[q..] == [s[q]] + s[q + 1..];
    assert s[p..] == s[p..q] + s[q..];
    assert s[p - 1..] == [s[p - 1]] + s[p..];
  }

  // ---------------------------------------------------------------- one segment

  lemma BareStands(s: Bytes, seg: Segment)
    requires seg.Bare? && Stands(seg, s)
    ensures UriRedaction.Look(s) == UriRedaction.Bare(|Source(seg)|) && Source(seg) == s[..|Source(seg)|]
  {
    hide Find, UriRedaction.Password, UriRedaction.AuthorityEnd, UriRedaction.Look, UpToScheme, WholeAuthority, Signs;
    SchemeFound(s, seg.text);
    AuthorityEnds(s, |seg.text|, seg.authority);
    NoSigns(seg.authority);
    UriRedaction.LookIs(s);
    assert s[|seg.text|..|seg.text| + |seg.authority|] == seg.authority;
  }

  lemma SecretStands(s: Bytes, seg: Segment)
    requires seg.Secret? && Stands(seg, s)
    ensures var n := |Source(seg)|;
            UriRedaction.Look(s) == UriRedaction.Secret(n - |seg.password|, n)
              && s[..n - |seg.password|] + MARKER == Shown(seg)
  {
    hide Find, UriRedaction.Password, UriRedaction.AuthorityEnd, UriRedaction.Look, UpToScheme, WholeAuthority, Divided;
    var authority, host :| Hides(authority, s[|seg.text|..], seg.user, seg.password, host);
    var start := |seg.text|;
    SameSigns();
    SchemeFound(s, seg.text);
    AuthorityEnds(s, start, authority);
    DividedPassword(authority, seg.user, seg.password, host);
    UriRedaction.LookIs(s);
    assert s[start..start + |authority|] == authority;
    assert s[..|Source(seg)| - |seg.password|] == seg.text + (seg.user + Ascii(":"));
  }

  lemma RestStands(s: Bytes, seg: Segment)
    requires seg.Rest? && Stands(seg, s)
    ensures UriRedaction.Look(s) == UriRedaction.Nothing && Shown(seg) == s
  {
    hide Find, UriRedaction.Look, SchemeAt;
    NoSchemeFound(s);
    UriRedaction.LookIs(s);
  }

  /** Every reading of a record shows what the pass makes of it. */
  lemma {:induction false} ReadingShows(s: Bytes, segs: seq<Segment>)
    requires Reading(s, segs)
    ensures UriRedaction.Redacted(s) == ShownAll(segs)
    decreases |segs|
  {
    hide Stands, UriRedaction.Redacted, UriRedaction.Look, Source, Shown;
    var seg := segs[0];
    UriRedaction.RedactedStep(s);
    match seg
    case Rest(_) =>
      RestStands(s, seg);
      assert segs[1..] == [] && s + [] == s;
    case Bare(_, _) =>
      BareStands(s, seg);
      BareShown(seg);
      ReadingShows(s[|Source(seg)|..], segs[1..]);
    case Secret(_, _, password) =>
      SecretStands(s, seg);
      ReadingShows(s[|Source(seg)|..], segs[1..]);
      Associates(s[..|Source(seg)| - |password|], MARKER, UriRedaction.Redacted(s[|Source(seg)|..]));
  }

  lemma BareShown(seg: Segment)
    requires seg.Bare?
    ensures Shown(seg) == Source(seg)
  {
  }

  lemma TextFound(s: Bytes) returns (text: Bytes)
    requires Find(s, UriRedaction.SCHEME).Some?
    ensures text <= s && UpToScheme(text) && |text| == Find(s, UriRedaction.SCHEME).value + 3
  {
    hide Find, SchemeAt, OccursAt;
    var n := Find(s, UriRedaction.SCHEME).value;
    SameScheme(s, n);
    SchemeFits(s, n);
    text := s[..n + 3];
    SameFront(s, text);
    forall i: nat | i < n
      ensures !SchemeAt(text, i)
    {
      SameScheme(s, i);
    }
  }

  lemma SchemeFits(s: Bytes, n: nat)
    requires SchemeAt(s, n)
    ensures n + 3 <= |s|
  {
  }

  lemma SegmentExists(s: Bytes) returns (seg: Segment)
    ensures Stands(seg, s) && (!seg.Rest? ==> |Source(seg)| > 0)
  {
    hide Find, UriRedaction.Look, SchemeAt, UpToScheme, WholeAuthority, UriRedaction.AuthorityEnd,
      UriRedaction.Password,
      Signs, Divided;
    NoSchemeFound(s);
    if Find(s, UriRedaction.SCHEME).None? {
      seg := Rest(s);
    } else {
      var text := TextFound(s);
      var end := UriRedaction.AuthorityEnd(s, |text|);
      var authority := s[|text|..end];
      AuthorityEnds(s, |text|, authority);
      NoSigns(authority);
      assert text + authority == s[..end];
      if UriRedaction.Password(authority).None? {
        seg := Bare(text, authority);
      } else {
        var user, password, host := PasswordDivided(authority);
        assert Hides(authority, s[|text|..], user, password, host);
        seg := Secret(text, user, password);
        SecretSource(s, text, authority, user, password, host);
      }
    }
  }

  lemma SecretSource(s: Bytes, text: Bytes, authority: Bytes, user: Bytes, password: Bytes, host: Bytes)
    requires text + authority <= s && Divided(authority, user, password, host)
    ensures Source(Secret(text, user, password)) <= s
  {
    var front := user + Ascii(":") + password;
    assert authority == front + (Ascii("@") + host);
    assert text + authority == (text + front) + (Ascii("@") + host);
    assert Source(Secret(text, user, password)) == text + front;
  }

  lemma {:induction false} ReadingExists(s: Bytes) returns (segs: seq<Segment>)
    ensures Reading(s, segs)
    decreases |s|
  {
    hide Stands, Source;
    var seg := SegmentExists(s);
    if seg.Rest? {
      segs := [seg];
    } else {
      SourceLeads(seg, s);
      var more := ReadingExists(s[|Source(seg)|..]);
      segs := [seg] + more;
      assert segs[1..] == more;
    }
  }

  lemma SourceLeads(seg: Segment, s: Bytes)
    requires Stands(seg, s)
    ensures Source(seg) <= s
  {
    hide Hides;
  }

  /** Every record has a reading, and the pass shows what any reading of it shows. */
  lemma PasswordsAreMasked(record: Bytes)
    ensures exists segs :: Reading(record, segs)
    ensures forall segs :: Reading(record, segs) ==> UriRedaction.RedactUri(record) == ShownAll(segs)
  {
    hide Reading, ShownAll, UriRedaction.Redacted;
    var some := ReadingExists(record);
    forall segs | Reading(record, segs)
      ensures UriRedaction.RedactUri(record) == ShownAll(segs)
    {
      ReadingShows(record, segs);
    }
  }
}
