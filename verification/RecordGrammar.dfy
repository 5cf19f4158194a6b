/**
 The vocabulary of the grammars that state what the redaction passes do to a record, in characters
 rather than in the scanners' byte tests.
 */
module RecordGrammar {
  import opened Basics
  import opened Text
  import AssignmentRedaction

  predicate KeyByte(b: Byte) {
    var c := b as char;
    'a' <= c <= 'z' || 'A' <= c <= 'Z' || '0' <= c <= '9' || c == '_' || c == '-'
  }

  predicate TokenByte(b: Byte) {
    var c := b as char;
    KeyByte(b) || c == '.' || c == '~' || c == '+' || c == '/' || c == '='
  }

  predicate Blank(b: Byte) {
    var c := b as char;
    c == ' ' || c == '\t' || c == '\n' || c == '\r' || c == '\U{C}'
  }

  predicate Quote(b: Byte) {
    b as char == '\'' || b as char == '"'
  }

  predicate EndsValue(b: Byte) {
    var c := b as char;
    Blank(b) || c == ',' || c == ';' || c == ')' || c == ']' || c == '}'
  }

  predicate Blanks(s: Bytes) {
    forall k :: 0 <= k < |s| ==> Blank(s[k])
  }

  /** The byte is the letter or its capital. */
  predicate SameLetter(b: Byte, c: char) {
    b as char == c || ('a' <= c <= 'z' && b as int == c as int - 32)
  }

  /** The name stands in s at i, in any case. */
  predicate NameAt(s: Bytes, name: string, i: nat) {
    i + |name| <= |s| && forall j :: 0 <= j < |name| ==> SameLetter(s[i + j], name[j])
  }

  predicate Names(s: Bytes, name: string) {
    exists i: nat :: i <= |s| && NameAt(s, name, i)
  }

  lemma SameBytes(b: Byte)
    ensures KeyByte(b) <==> IsKey(b)
    ensures TokenByte(b) <==> IsBearer(b)
    ensures Blank(b) <==> IsSpace(b)
    ensures Quote(b) <==> AssignmentRedaction.IsQuoteByte(b)
    ensures EndsValue(b) <==> AssignmentRedaction.IsValueBoundary(b)
  {
  }

  lemma SameAll()
    ensures forall b :: KeyByte(b) <==> IsKey(b)
    ensures forall b :: TokenByte(b) <==> IsBearer(b)
    ensures forall b :: Blank(b) <==> IsSpace(b)
    ensures forall b :: Quote(b) <==> AssignmentRedaction.IsQuoteByte(b)
    ensures forall b :: EndsValue(b) <==> AssignmentRedaction.IsValueBoundary(b)
  {
    forall b
      ensures KeyByte(b) <==> IsKey(b)
      ensures TokenByte(b) <==> IsBearer(b)
      ensures Blank(b) <==> IsSpace(b)
      ensures Quote(b) <==> AssignmentRedaction.IsQuoteByte(b)
      ensures EndsValue(b) <==> AssignmentRedaction.IsValueBoundary(b)
    {
      SameBytes(b);
    }
  }

  /** A lower-case name: letters, spaces and signs that no capital stands for. */
  predicate LowerName(name: string) {
    forall j :: 0 <= j < |name| ==>
      'a' <= name[j] <= 'z' || name[j] == ' ' || name[j] == '_' || name[j] == '-'
  }

  lemma SameNameAt(s: Bytes, name: string, i: nat)
    requires LowerName(name)
    ensures NameAt(s, name, i) <==> OccursAt(Ascii(name), LowerAll(s), i)
  {
    if i + |name| <= |s| {
      var t := LowerAll(s)[i..i + |name|];
      forall j | 0 <= j < |name|
        ensures SameLetter(s[i + j], name[j]) <==> t[j] == Ascii(name)[j]
      {
        assert t[j] == Lower(s[i + j]);
      }
    }
  }

  lemma SameNames(s: Bytes, name: string)
    requires LowerName(name)
    ensures Names(s, name) <==> Occurs(Ascii(name), LowerAll(s))
  {
    hide NameAt, OccursAt;
    forall i: nat
      ensures NameAt(s, name, i) <==> OccursAt(Ascii(name), LowerAll(s), i)
    {
      SameNameAt(s, name, i);
    }
  }

  lemma LowerFront(s: Bytes, n: nat)
    requires n <= |s|
    ensures LowerAll(s[..n]) == LowerAll(s)[0..0 + n]
  {
  }

  /** A maximal run from i ends at n exactly if it spans n - i. */
  lemma RunIs(s: Bytes, i: nat, n: nat, p: Byte -> bool)
    requires i <= |s| && n <= |s|
    ensures (i <= n && (forall k :: i <= k < n ==> p(s[k])) && (n < |s| ==> !p(s[n]))) <==> n == i + Span(s[i..], p)
  {
    assert forall k :: i <= k < |s| ==> s[k] == s[i..][k - i];
    if i <= n && (forall k :: i <= k < n ==> p(s[k])) && (n < |s| ==> !p(s[n])) {
      SpanFrom(s, i, n, p);
    }
  }
}
