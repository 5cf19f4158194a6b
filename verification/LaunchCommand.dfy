/**
 The launch-command splitter (`split_launch_command`): a quoting and escaping automaton.

 `SplitLaunchCommand` is the loop of the source and `Split` the function it computes. The
 meaning is given separately, by a grammar of atoms: `Render` writes atoms down, `Words` says
 which words they denote, and every string has exactly one reading as atoms plus a `Tail`.
 */
module LaunchCommand {
  import opened Basics

  /** Rust's `char::is_whitespace`: the code points with the Unicode White_Space property. */
  predicate IsWhitespace(c: char) {
    || '\U{9}' <= c <= '\U{D}' || c == ' ' || c == '\U{85}' || c == '\U{A0}' || c == '\U{1680}'
    || '\U{2000}' <= c <= '\U{200A}' || c == '\U{2028}' || c == '\U{2029}' || c == '\U{202F}'
    || c == '\U{205F}' || c == '\U{3000}'
  }

  predicate IsQuote(c: char) {
    c == '\'' || c == '"'
  }

  /** The code points of White_Space in the Unicode Character Database, one by one. */
  const WHITE_SPACE: string :=
    "\U{9}\U{A}\U{B}\U{C}\U{D} \U{85}\U{A0}\U{1680}\U{2000}\U{2001}\U{2002}\U{2003}\U{2004}\U{2005}"
    + "\U{2006}\U{2007}\U{2008}\U{2009}\U{200A}\U{2028}\U{2029}\U{202F}\U{205F}\U{3000}"

  /** The characters that separate words and those that open a quote. */
  lemma CharacterClasses(c: char)
    ensures IsWhitespace(c) <==> c in WHITE_SPACE
    ensures IsQuote(c) <==> c in "'\""
  {
  }

  // ---------------------------------------------------------------- the automaton

  datatype Scan = Scan(parts: seq<string>, current: string, quote: Option<char>)

  function Flush(parts: seq<string>, current: string): seq<string> {
    if current == "" then parts else parts + [current]
  }

  function ScanFrom(s: string, st: Scan): Scan
    decreases |s|
  {
    if s == "" then st
    else if st.quote.Some? && s[0] == st.quote.value then ScanFrom(s[1..], st.(quote := None))
    else if s[0] == '\\' then
      if |s| == 1 then st else ScanFrom(s[2..], st.(current := st.current + [s[1]]))
    else if st.quote.Some? then ScanFrom(s[1..], st.(current := st.current + [s[0]]))
    else if IsQuote(s[0]) then ScanFrom(s[1..], st.(quote := Some(s[0])))
    else if IsWhitespace(s[0]) then
      ScanFrom(s[1..], st.(parts := Flush(st.parts, st.current), current := ""))
    else ScanFrom(s[1..], st.(current := st.current + [s[0]]))
  }

  /** The splitter's answer; the error carries the quote left open. */
  function Split(value: string): Result<seq<string>, char> {
    var end := ScanFrom(value, Scan([], "", None));
    if end.quote.Some? then Failure(end.quote.value) else Success(Flush(end.parts, end.current))
  }

  method SplitLaunchCommand(value: string) returns (r: Result<seq<string>, char>)
    ensures r == Split(value)
    ensures r.Success? ==> forall k :: 0 <= k < |r.value| ==> r.value[k] != ""
  {
    var parts: seq<string>, current: string, quote: Option<char> := [], "", None;
    var i := 0;
    while i < |value|
      invariant 0 <= i <= |value|
      invariant quote.Some? ==> IsQuote(quote.value)
      invariant ScanFrom(value, Scan([], "", None)) == ScanFrom(value[i..], Scan(parts, current, quote))
      invariant forall k :: 0 <= k < |parts| ==> parts[k] != ""
    {
      var ch := value[i];
      ghost var rest := value[i..];
      assert rest[0] == ch && rest[1..] == value[i + 1..];
      assert |rest| > 1 ==> rest[1] == value[i + 1] && rest[2..] == value[i + 2..];
      i := i + 1;
      match quote {
        case Some(q) =>
          if ch == q {
            quote := None;
          } else if ch == '\\' {
            if i < |value| {
              current := current + [value[i]];
              i := i + 1;
            }
          } else {
            current := current + [ch];
          }
        case None =>
          if IsQuote(ch) {
            quote := Some(ch);
          } else if ch == '\\' {
            if i < |value| {
              current := current + [value[i]];
              i := i + 1;
            }
          } else if IsWhitespace(ch) {
            if current != "" {
              parts := parts + [current];
              current := "";
            }
          } else {
            current := current + [ch];
          }
      }
    }
    if quote.Some? {
      return Failure(quote.value);
    }
    if current != "" {
      parts := parts + [current];
    }
    return Success(parts);
  }

  // ---------------------------------------------------------------- the grammar

  /** One character inside quotes, plain or behind a backslash. */
  datatype Inner = Plain(c: char) | Slashed(c: char)

  datatype Atom =
    | Blank(c: char)
    | Bare(c: char)
    | Escaped(c: char)
    | Quoted(q: char, body: seq<Inner>)

  /** How a string may end after its last complete atom. */
  datatype Tail =
    | Complete
    | DanglingSlash
    | OpenQuote(q: char, body: seq<Inner>, dangling: bool)

  predicate InnerOk(q: char, x: Inner) {
    x.Plain? ==> x.c != q && x.c != '\\'
  }

  predicate BodyOk(q: char, body: seq<Inner>) {
    IsQuote(q) && forall k :: 0 <= k < |body| ==> InnerOk(q, body[k])
  }

  predicate AtomOk(a: Atom) {
    match a
    case Blank(c) => IsWhitespace(c)
    case Bare(c) => !IsWhitespace(c) && !IsQuote(c) && c != '\\'
    case Escaped(_) => true
    case Quoted(q, body) => BodyOk(q, body)
  }

  predicate AtomsOk(atoms: seq<Atom>) {
    forall k :: 0 <= k < |atoms| ==> AtomOk(atoms[k])
  }

  predicate TailOk(t: Tail) {
    t.OpenQuote? ==> BodyOk(t.q, t.body)
  }

  function RenderInner(x: Inner): string {
    if x.Plain? then [x.c] else ['\\', x.c]
  }

  function RenderBody(body: seq<Inner>): string {
    if body == [] then "" else RenderInner(body[0]) + RenderBody(body[1..])
  }

  function BodyText(body: seq<Inner>): string {
    if body == [] then "" else [body[0].c] + BodyText(body[1..])
  }

  function RenderAtom(a: Atom): string {
    match a
    case Blank(c) => [c]
    case Bare(c) => [c]
    case Escaped(c) => ['\\', c]
    case Quoted(q, body) => [q] + RenderBody(body) + [q]
  }

  function Render(atoms: seq<Atom>): string {
    if atoms == [] then "" else RenderAtom(atoms[0]) + Render(atoms[1..])
  }

  function RenderTail(t: Tail): string {
    match t
    case Complete => ""
    case DanglingSlash => "\\"
    case OpenQuote(q, body, dangling) => [q] + RenderBody(body) + if dangling then "\\" else ""
  }

  function AtomText(a: Atom): string {
    match a
    case Blank(_) => ""
    case Bare(c) => [c]
    case Escaped(c) => [c]
    case Quoted(_, body) => BodyText(body)
  }

  /** The words atoms denote: texts joined between blanks, empty words dropped. */
  function Words(atoms: seq<Atom>, current: string): seq<string> {
    if atoms == [] then Flush([], current)
    else if atoms[0].Blank? then Flush([], current) + Words(atoms[1..], "")
    else Words(atoms[1..], current + AtomText(atoms[0]))
  }

  lemma RenderMore(x: Inner, body: seq<Inner>, rest: string)
    ensures RenderBody([x] + body) + rest == RenderInner(x) + (RenderBody(body) + rest)
    ensures BodyText([x] + body) == [x.c] + BodyText(body)
  {
    assert ([x] + body)[1..] == body;
  }

  lemma ScanInner(q: char, x: Inner, rest: string, st: Scan)
    requires IsQuote(q) && InnerOk(q, x) && st.quote == Some(q)
    ensures ScanFrom(RenderInner(x) + rest, st) == ScanFrom(rest, st.(current := st.current + [x.c]))
  {
    var s := RenderInner(x) + rest;
    if x.Plain? {
      assert s[0] == x.c && s[1..] == rest;
    } else {
      assert s[0] == '\\' && s[1] == x.c && s[2..] == rest;
    }
  }

  /** A scan inside a quote reads a whole body and stays inside the quote. */
  lemma {:induction false} ScanBody(q: char, body: seq<Inner>, rest: string, st: Scan)
    requires BodyOk(q, body) && st.quote == Some(q)
    ensures ScanFrom(RenderBody(body) + rest, st) == ScanFrom(rest, st.(current := st.current + BodyText(body)))
    decreases |body|
  {
    hide ScanFrom, RenderInner;
    if body == [] {
      assert RenderBody(body) + rest == rest && st.current + BodyText(body) == st.current;
    } else {
      var x, more := body[0], body[1..];
      assert body == [x] + more && InnerOk(q, x);
      RenderMore(x, more, rest);
      ScanInner(q, x, RenderBody(more) + rest, st);
      ScanBody(q, more, rest, st.(current := st.current + [x.c]));
      assert st.current + [x.c] + BodyText(more) == st.current + BodyText(body);
    }
  }

  lemma ScanOne(s: string, st: Scan)
    requires s != "" && st.quote == None
    ensures IsQuote(s[0]) ==> ScanFrom(s, st) == ScanFrom(s[1..], st.(quote := Some(s[0])))
    ensures !IsQuote(s[0]) && s[0] != '\\' && IsWhitespace(s[0]) ==>
              ScanFrom(s, st) == ScanFrom(s[1..], st.(parts := Flush(st.parts, st.current), current := ""))
    ensures !IsQuote(s[0]) && s[0] != '\\' && !IsWhitespace(s[0]) ==>
              ScanFrom(s, st) == ScanFrom(s[1..], st.(current := st.current + [s[0]]))
    ensures s[0] == '\\' && |s| > 1 ==> ScanFrom(s, st) == ScanFrom(s[2..], st.(current := st.current + [s[1]]))
  {
    hide Flush, IsWhitespace;
  }

  lemma CloseQuote(q: char, rest: string, st: Scan)
    requires st.quote == Some(q)
    ensures ScanFrom([q] + rest, st) == ScanFrom(rest, st.(quote := None))
  {
    assert ([q] + rest)[1..] == rest;
  }

  lemma DropOne(c: char, t: string)
    ensures ([c] + t)[0] == c && ([c] + t)[1..] == t
  {
  }

  lemma Regroup(a: string, b: string, c: string)
    ensures a + b + c == a + (b + c)
  {
  }

  lemma ScanQuoted(q: char, body: seq<Inner>, rest: string, st: Scan)
    requires BodyOk(q, body) && st.quote == None
    ensures ScanFrom([q] + RenderBody(body) + [q] + rest, st)
            == ScanFrom(rest, st.(current := st.current + BodyText(body)))
  {
    hide ScanFrom, RenderBody, BodyText, Flush;
    var inside := st.(quote := Some(q));
    Regroup([q] + RenderBody(body), [q], rest);
    Regroup([q], RenderBody(body), [q] + rest);
    DropOne(q, RenderBody(body) + ([q] + rest));
    ScanOne([q] + (RenderBody(body) + ([q] + rest)), st);
    ScanBody(q, body, [q] + rest, inside);
    CloseQuote(q, rest, inside.(current := st.current + BodyText(body)));
  }

  /** A scan outside quotes reads one atom as the grammar says. */
  lemma ScanAtom(a: Atom, rest: string, st: Scan)
    requires AtomOk(a) && st.quote == None
    ensures ScanFrom(RenderAtom(a) + rest, st)
         == ScanFrom(rest, AfterAtom(a, st))
  {
    hide ScanFrom, Flush, RenderBody, BodyText, IsWhitespace;
    var s := RenderAtom(a) + rest;
    match a
    case Blank(c) =>
      DropOne(c, rest);
      WhitespaceIsPlain(c);
      ScanOne(s, st);
    case Bare(c) =>
      DropOne(c, rest);
      ScanOne(s, st);
    case Escaped(c) =>
      assert s[0] == '\\' && s[1] == c && s[2..] == rest;
      ScanOne(s, st);
    case Quoted(q, body) =>
      ScanQuoted(q, body, rest, st);
  }

  lemma WhitespaceIsPlain(c: char)
    requires IsWhitespace(c)
    ensures !IsQuote(c) && c != '\\'
  {
  }

  function AfterAtom(a: Atom, st: Scan): Scan {
    if a.Blank? then st.(parts := Flush(st.parts, st.current), current := "")
    else st.(current := st.current + AtomText(a))
  }

  function AfterAtoms(atoms: seq<Atom>, st: Scan): Scan {
    if atoms == [] then st else AfterAtoms(atoms[1..], AfterAtom(atoms[0], st))
  }

  /** Reading a rendering from any point outside quotes. */
  lemma {:induction false} ScanAtoms(atoms: seq<Atom>, rest: string, st: Scan)
    requires AtomsOk(atoms) && st.quote == None
    ensures AfterAtoms(atoms, st).quote == None
    ensures ScanFrom(Render(atoms) + rest, st) == ScanFrom(rest, AfterAtoms(atoms, st))
    decreases |atoms|
  {
    if atoms == [] {
      assert Render(atoms) + rest == rest;
    } else {
      assert AtomOk(atoms[0]);
      assert Render(atoms) + rest == RenderAtom(atoms[0]) + (Render(atoms[1..]) + rest);
      ScanAtom(atoms[0], Render(atoms[1..]) + rest, st);
      ScanAtoms(atoms[1..], rest, AfterAtom(atoms[0], st));
    }
  }

  lemma FlushAppends(parts: seq<string>, current: string)
    ensures Flush(parts, current) == parts + Flush([], current)
  {
  }

  lemma AfterAtomsStep(atoms: seq<Atom>, st: Scan)
    ensures atoms == [] ==> AfterAtoms(atoms, st) == st && Words(atoms, st.current) == Flush([], st.current)
    ensures atoms != [] ==> AfterAtoms(atoms, st) == AfterAtoms(atoms[1..], AfterAtom(atoms[0], st))
  {
  }

  lemma WordsOfOne(a: Atom, rest: seq<Atom>, current: string)
    ensures a.Blank? ==> Words([a] + rest, current) == Flush([], current) + Words(rest, "")
    ensures !a.Blank? ==> Words([a] + rest, current) == Words(rest, current + AtomText(a))
  {
    hide Flush;
    assert ([a] + rest)[1..] == rest;
  }

  lemma PartsRegroup(a: seq<string>, b: seq<string>, c: seq<string>)
    ensures a + b + c == a + (b + c)
  {
  }

  lemma WordsStep(a: Atom, rest: seq<Atom>, st: Scan)
    ensures var next := AfterAtom(a, st);
            next.parts + Words(rest, next.current) == st.parts + Words([a] + rest, st.current)
  {
    hide Flush, Words;
    FlushAppends(st.parts, st.current);
    WordsOfOne(a, rest, st.current);
    PartsRegroup(st.parts, Flush([], st.current), Words(rest, ""));
  }

  /** The words collected by a scan over atoms are the words the atoms denote. */
  lemma {:induction false} AfterAtomsWords(atoms: seq<Atom>, st: Scan)
    ensures var mid := AfterAtoms(atoms, st);
            Flush(mid.parts, mid.current) == st.parts + Words(atoms, st.current)
    decreases |atoms|
  {
    hide *;
    AfterAtomsStep(atoms, st);
    if atoms == [] {
      FlushAppends(st.parts, st.current);
    } else {
      var a, rest := atoms[0], atoms[1..];
      assert atoms == [a] + rest;
      WordsStep(a, rest, st);
      AfterAtomsWords(rest, AfterAtom(a, st));
    }
  }

  /**
   Meaning: a rendering splits into exactly the words its atoms denote; a lone final backslash is
   ignored; and an unclosed quote is an error, whatever stands before it.
   */
  lemma SplitMeaning(atoms: seq<Atom>, tail: Tail)
    requires AtomsOk(atoms) && TailOk(tail)
    ensures Split(Render(atoms) + RenderTail(tail))
         == if tail.OpenQuote? then Failure(tail.q) else Success(Words(atoms, ""))
  {
    var start := Scan([], "", None);
    var rest := RenderTail(tail);
    var mid := AfterAtoms(atoms, start);
    ScanAtoms(atoms, rest, start);
    AfterAtomsWords(atoms, start);
    assert Flush(mid.parts, mid.current) == Words(atoms, "");
    match tail
    case Complete =>
    case DanglingSlash =>
    case OpenQuote(q, body, dangling) =>
      var end := if dangling then "\\" else "";
      assert rest == [q] + (RenderBody(body) + end) && rest[1..] == RenderBody(body) + end;
      ScanBody(q, body, end, mid.(quote := Some(q)));
  }

  // ---------------------------------------------------------------- every string is covered

  /** Splits the part of a string after an opening quote into body, closing flag and remainder. */
  function ReadBody(q: char, s: string): (r: (seq<Inner>, Option<string>, bool))
    requires IsQuote(q)
    ensures BodyOk(q, r.0)
    ensures s == RenderBody(r.0) + AfterBody(q, r.1, r.2)
    decreases |s|
  {
    if s == "" then ([], None, false)
    else if s[0] == q then assert s == [q] + s[1..]; ([], Some(s[1..]), false)
    else if s[0] == '\\' then
      if |s| == 1 then assert s == "\\"; ([], None, true)
      else
        var r := ReadBody(q, s[2..]);
        assert s == RenderInner(Slashed(s[1])) + s[2..];
        RenderMore(Slashed(s[1]), r.0, AfterBody(q, r.1, r.2));
        ([Slashed(s[1])] + r.0, r.1, r.2)
    else
      var r := ReadBody(q, s[1..]);
      assert s == RenderInner(Plain(s[0])) + s[1..];
      RenderMore(Plain(s[0]), r.0, AfterBody(q, r.1, r.2));
      ([Plain(s[0])] + r.0, r.1, r.2)
  }

  /** What stands after a body: the closing quote and the rest, or the end, perhaps behind a backslash. */
  function AfterBody(q: char, rest: Option<string>, dangling: bool): string {
    if rest.Some? then [q] + rest.value else if dangling then "\\" else ""
  }

  lemma QuotedRenders(q: char, body: seq<Inner>, rest: string, dangling: bool)
    ensures RenderAtom(Quoted(q, body)) + rest == [q] + (RenderBody(body) + AfterBody(q, Some(rest), false))
    ensures RenderTail(OpenQuote(q, body, dangling)) == [q] + (RenderBody(body) + AfterBody(q, None, dangling))
  {
    hide RenderBody;
    Regroup([q] + RenderBody(body), [q], rest);
    Regroup([q], RenderBody(body), [q] + rest);
    Regroup([q], RenderBody(body), AfterBody(q, None, dangling));
  }

  /** Reads any string as atoms and a tail. */
  function Read(s: string): (r: (seq<Atom>, Tail))
    ensures AtomsOk(r.0) && TailOk(r.1)
    ensures Render(r.0) + RenderTail(r.1) == s
    decreases |s|
  {
    if s == "" then ([], Complete)
    else if s == "\\" then ([], DanglingSlash)
    else if IsQuote(s[0]) then
      var r := ReadBody(s[0], s[1..]);
      assert s == [s[0]] + s[1..];
      QuotedRenders(s[0], r.0, if r.1.Some? then r.1.value else "", r.2);
      if r.1.None? then ([], OpenQuote(s[0], r.0, r.2))
      else
        assert |r.1.value| < |s|;
        var more := Read(r.1.value);
        Prepend(Quoted(s[0], r.0), r.1.value, more.0, more.1)
    else if s[0] == '\\' then
      var more := Read(s[2..]);
      assert s == ['\\', s[1]] + s[2..];
      Prepend(Escaped(s[1]), s[2..], more.0, more.1)
    else
      var more := Read(s[1..]);
      assert s == [s[0]] + s[1..];
      Prepend(if IsWhitespace(s[0]) then Blank(s[0]) else Bare(s[0]), s[1..], more.0, more.1)
  }

  function Prepend(a: Atom, s: string, atoms: seq<Atom>, tail: Tail): (r: (seq<Atom>, Tail))
    requires AtomOk(a) && AtomsOk(atoms) && TailOk(tail) && Render(atoms) + RenderTail(tail) == s
    ensures AtomsOk(r.0) && TailOk(r.1) && Render(r.0) + RenderTail(r.1) == RenderAtom(a) + s
  {
    RenderPrepended(a, atoms);
    Regroup(RenderAtom(a), Render(atoms), RenderTail(tail));
    ([a] + atoms, tail)
  }

  lemma RenderPrepended(a: Atom, atoms: seq<Atom>)
    ensures Render([a] + atoms) == RenderAtom(a) + Render(atoms)
  {
    assert ([a] + atoms)[1..] == atoms;
  }

  /** A body is read back as it was rendered. */
  lemma {:induction false} ReadBodyIs(q: char, body: seq<Inner>, rest: Option<string>, dangling: bool)
    requires BodyOk(q, body) && (rest.Some? ==> !dangling)
    ensures ReadBody(q, RenderBody(body) + AfterBody(q, rest, dangling)) == (body, rest, dangling)
    decreases |body|
  {
    var s := RenderBody(body) + AfterBody(q, rest, dangling);
    if body == [] {
      assert s == AfterBody(q, rest, dangling);
      assert rest.Some? ==> s[1..] == rest.value;
    } else {
      var x, more := body[0], body[1..];
      var t := RenderBody(more) + AfterBody(q, rest, dangling);
      assert body == [x] + more && InnerOk(q, x);
      RenderMore(x, more, AfterBody(q, rest, dangling));
      ReadBodyIs(q, more, rest, dangling);
      assert s == RenderInner(x) + t;
      assert x.Plain? ==> s[0] == x.c && s[1..] == t;
      assert x.Slashed? ==> s[0] == '\\' && s[1] == x.c && s[2..] == t;
    }
  }

  lemma ReadTail(tail: Tail)
    requires TailOk(tail)
    ensures Read(RenderTail(tail)) == ([], tail)
  {
    hide ReadBody, RenderBody, IsWhitespace;
    if tail.OpenQuote? {
      var end := AfterBody(tail.q, None, tail.dangling);
      QuotedRenders(tail.q, tail.body, "", tail.dangling);
      DropOne(tail.q, RenderBody(tail.body) + end);
      ReadBodyIs(tail.q, tail.body, None, tail.dangling);
    }
  }

  lemma ReadAtom(a: Atom, s: string)
    requires AtomOk(a)
    ensures Read(RenderAtom(a) + s) == ([a] + Read(s).0, Read(s).1)
  {
    hide ReadBody, RenderBody, Render, RenderTail, IsWhitespace;
    var t := RenderAtom(a) + s;
    match a
    case Blank(c) =>
      WhitespaceIsPlain(c);
      DropOne(c, s);
    case Bare(c) => DropOne(c, s);
    case Escaped(c) => assert t[0] == '\\' && t[1] == c && t[2..] == s;
    case Quoted(q, body) =>
      QuotedRenders(q, body, s, false);
      DropOne(q, RenderBody(body) + AfterBody(q, Some(s), false));
      ReadBodyIs(q, body, Some(s), false);
  }

  /** The reading of a string is its only one. */
  lemma {:induction false} ReadingIsUnique(atoms: seq<Atom>, tail: Tail)
    requires AtomsOk(atoms) && TailOk(tail)
    ensures Read(Render(atoms) + RenderTail(tail)) == (atoms, tail)
    decreases |atoms|
  {
    hide Read, RenderAtom, RenderTail;
    if atoms == [] {
      ReadTail(tail);
      assert Render(atoms) + RenderTail(tail) == RenderTail(tail);
    } else {
      Regroup(RenderAtom(atoms[0]), Render(atoms[1..]), RenderTail(tail));
      assert atoms == [atoms[0]] + atoms[1..];
      ReadingIsUnique(atoms[1..], tail);
      ReadAtom(atoms[0], Render(atoms[1..]) + RenderTail(tail));
    }
  }

  /**
   The splitter fails exactly when the string reads as complete atoms followed by a quote that is
   never closed, and otherwise returns the words those atoms denote.
   */
  lemma SplitFailsExactlyOnOpenQuote(s: string)
    ensures Split(s).Failure? <==>
            exists atoms, q, body, dangling ::
              AtomsOk(atoms) && BodyOk(q, body) && s == Render(atoms) + RenderTail(OpenQuote(q, body, dangling))
    ensures Split(s).Success? ==> Split(s).value == Words(Read(s).0, "")
  {
    var (atoms, tail) := Read(s);
    SplitMeaning(atoms, tail);
    if tail.OpenQuote? {
      assert s == Render(atoms) + RenderTail(OpenQuote(tail.q, tail.body, tail.dangling));
    }
    forall a, q, b, d | AtomsOk(a) && BodyOk(q, b) && s == Render(a) + RenderTail(OpenQuote(q, b, d))
      ensures Split(s).Failure?
    {
      SplitMeaning(a, OpenQuote(q, b, d));
    }
  }

  // ---------------------------------------------------------------- a printer and its inverse

  /** How a word is written: inside the given quote, or with a backslash before every character. */
  datatype Style = SingleQuotes | DoubleQuotes | Backslashes

  function Protect(q: char, w: string): seq<Inner> {
    if w == "" then []
    else [if w[0] == q || w[0] == '\\' then Slashed(w[0]) else Plain(w[0])] + Protect(q, w[1..])
  }

  function WordAtoms(w: string, style: Style): seq<Atom> {
    match style
    case SingleQuotes => [Quoted('\'', Protect('\'', w))]
    case DoubleQuotes => [Quoted('"', Protect('"', w))]
    case Backslashes => seq(|w|, i requires 0 <= i < |w| => Escaped(w[i]))
  }

  function PrintAtoms(words: seq<string>, styles: seq<Style>): seq<Atom>
    requires |words| == |styles|
  {
    if words == [] then []
    else WordAtoms(words[0], styles[0]) + [Blank(' ')] + PrintAtoms(words[1..], styles[1..])
  }

  /** Each word in its style, every word followed by one space. */
  function Print(words: seq<string>, styles: seq<Style>): string
    requires |words| == |styles|
  {
    Render(PrintAtoms(words, styles))
  }

  lemma {:induction false} ProtectOk(q: char, w: string)
    requires IsQuote(q)
    ensures BodyOk(q, Protect(q, w)) && BodyText(Protect(q, w)) == w
    decreases |w|
  {
    if w != "" {
      ProtectOk(q, w[1..]);
      assert Protect(q, w)[1..] == Protect(q, w[1..]);
    }
  }

  /** A word adds its text to the word under way. */
  lemma {:induction false} WordsOfWord(w: string, style: Style, current: string, rest: seq<Atom>)
    ensures AtomsOk(WordAtoms(w, style))
    ensures Words(WordAtoms(w, style) + rest, current) == Words(rest, current + w)
    decreases |w|
  {
    var atoms := WordAtoms(w, style);
    var all := atoms + rest;
    if style != Backslashes {
      ProtectOk(if style == SingleQuotes then '\'' else '"', w);
      assert all[1..] == rest;
    } else if w == "" {
      assert all == rest && current + w == current;
    } else {
      assert all[1..] == WordAtoms(w[1..], style) + rest;
      assert current + [w[0]] + w[1..] == current + w;
      WordsOfWord(w[1..], style, current + [w[0]], rest);
    }
  }

  lemma {:induction false} WordsOfPrint(words: seq<string>, styles: seq<Style>)
    requires |words| == |styles| && forall k :: 0 <= k < |words| ==> words[k] != ""
    ensures AtomsOk(PrintAtoms(words, styles)) && Words(PrintAtoms(words, styles), "") == words
    decreases |words|
  {
    if words != [] {
      var more := PrintAtoms(words[1..], styles[1..]);
      WordsOfPrint(words[1..], styles[1..]);
      assert PrintAtoms(words, styles) == WordAtoms(words[0], styles[0]) + ([Blank(' ')] + more);
      WordsOfWord(words[0], styles[0], "", [Blank(' ')] + more);
      WordsOfOne(Blank(' '), more, "" + words[0]);
      assert "" + words[0] == words[0];
    }
  }

  /** Splitting inverts printing, for every list of non-empty words and every choice of styles. */
  lemma SplitInvertsPrint(words: seq<string>, styles: seq<Style>)
    requires |words| == |styles| && forall k :: 0 <= k < |words| ==> words[k] != ""
    ensures Split(Print(words, styles)) == Success(words)
  {
    WordsOfPrint(words, styles);
    SplitMeaning(PrintAtoms(words, styles), Complete);
    assert Print(words, styles) + RenderTail(Complete) == Print(words, styles);
  }

  function JoinAtoms(words: seq<string>, styles: seq<Style>): seq<Atom>
    requires |words| == |styles|
  {
    if words == [] then []
    else if |words| == 1 then WordAtoms(words[0], styles[0])
    else WordAtoms(words[0], styles[0]) + ([Blank(' ')] + JoinAtoms(words[1..], styles[1..]))
  }

  /** Each word in its style, with one space between neighbours and none at the end. */
  function Join(words: seq<string>, styles: seq<Style>): string
    requires |words| == |styles|
  {
    Render(JoinAtoms(words, styles))
  }

  lemma WordsOfLast(current: string)
    ensures Words([], current) == if current == "" then [] else [current]
    ensures AtomOk(Blank(' '))
  {
  }

  lemma {:induction false} WordsOfJoin(words: seq<string>, styles: seq<Style>)
    requires |words| == |styles| && forall k :: 0 <= k < |words| ==> words[k] != ""
    ensures AtomsOk(JoinAtoms(words, styles)) && Words(JoinAtoms(words, styles), "") == words
    decreases |words|
  {
    hide WordAtoms, Words, AtomOk;
    WordsOfLast("");
    if words != [] {
      assert "" + words[0] == words[0];
      if |words| == 1 {
        WordsOfWord(words[0], styles[0], "", []);
        WordsOfLast(words[0]);
        assert words == [words[0]];
        assert WordAtoms(words[0], styles[0]) + [] == WordAtoms(words[0], styles[0]);
      } else {
        var more := JoinAtoms(words[1..], styles[1..]);
        WordsOfJoin(words[1..], styles[1..]);
        WordsOfWord(words[0], styles[0], "", [Blank(' ')] + more);
        WordsOfOne(Blank(' '), more, "" + words[0]);
      }
    }
  }

  /** Splitting inverts joining by single spaces, too. */
  lemma SplitInvertsJoin(words: seq<string>, styles: seq<Style>)
    requires |words| == |styles| && forall k :: 0 <= k < |words| ==> words[k] != ""
    ensures Split(Join(words, styles)) == Success(words)
  {
    WordsOfJoin(words, styles);
    SplitMeaning(JoinAtoms(words, styles), Complete);
    assert Join(words, styles) + RenderTail(Complete) == Join(words, styles);
  }
}
