/** Byte-string vocabulary of the record sanitizer. */
module Text {
  import opened Basics

  type Bytes = seq<Byte>

  function Ascii(s: string): (b: Bytes)
    requires forall k :: 0 <= k < |s| ==> s[k] as int < 128
    ensures |b| == |s| && forall k :: 0 <= k < |s| ==> b[k] == s[k] as int
  {
    seq(|s|, k requires 0 <= k < |s| => s[k] as int)
  }

  /** `u8::is_ascii_whitespace`. */
  predicate IsSpace(b: Byte) {
    b == 0x20 || b == 0x09 || b == 0x0A || b == 0x0C || b == 0x0D
  }

  predicate IsAlphanumeric(b: Byte) {
    0x30 <= b <= 0x39 || 0x41 <= b <= 0x5A || 0x61 <= b <= 0x7A
  }

  predicate IsKey(b: Byte) {
    IsAlphanumeric(b) || b == 0x5F || b == 0x2D
  }

  /** Alphanumeric, or one of - . _ ~ + / = */
  predicate IsBearer(b: Byte) {
    IsAlphanumeric(b) || b == 0x2D || b == 0x2E || b == 0x5F || b == 0x7E || b == 0x2B || b == 0x2F || b == 0x3D
  }

  function Lower(b: Byte): Byte {
    if 0x41 <= b <= 0x5A then b + 0x20 else b
  }

  /** `to_ascii_lowercase`. */
  function LowerAll(s: Bytes): (t: Bytes)
    ensures |t| == |s| && forall k :: 0 <= k < |s| ==> t[k] == Lower(s[k])
  {
    seq(|s|, k requires 0 <= k < |s| => Lower(s[k]))
  }

  /** How many leading bytes satisfy p. */
  function Span(s: Bytes, p: Byte -> bool): (n: nat)
    ensures n <= |s|
    ensures forall k :: 0 <= k < n ==> p(s[k])
    ensures n < |s| ==> !p(s[n])
  {
    if s == [] || !p(s[0]) then 0 else 1 + Span(s[1..], p)
  }

  /** The span is determined by a run of p and what follows it. */
  lemma {:induction false} SpanIs(a: Bytes, r: Bytes, p: Byte -> bool)
    requires forall k :: 0 <= k < |a| ==> p(a[k])
    requires r == [] || !p(r[0])
    ensures Span(a + r, p) == |a|
    decreases |a|
  {
    if a == [] {
      assert a + r == r;
    } else {
      assert (a + r)[1..] == a[1..] + r && (a + r)[0] == a[0];
      SpanIs(a[1..], r, p);
    }
  }

  /** A scan that stopped at j measured the span from i. */
  lemma SpanFrom(s: Bytes, i: nat, j: nat, p: Byte -> bool)
    requires i <= j <= |s| && (forall k :: i <= k < j ==> p(s[k])) && (j == |s| || !p(s[j]))
    ensures Span(s[i..], p) == j - i
  {
    SpanIs(s[i..j], s[j..], p);
    assert s[i..j] + s[j..] == s[i..];
  }

  method ScanToken(bytes: Bytes, start: nat) returns (index: nat)
    requires start <= |bytes|
    ensures index == start + Span(bytes[start..], IsBearer) <= |bytes|
  {
    index := start;
    while index < |bytes| && IsBearer(bytes[index])
      invariant start <= index <= |bytes|
      invariant forall k :: start <= k < index ==> IsBearer(bytes[k])
    {
      index := index + 1;
    }
    SpanFrom(bytes, start, index, IsBearer);
  }

  /** How many bytes precede the first q. */
  function Until(s: Bytes, q: Byte): (n: nat)
    ensures n <= |s| && forall k :: 0 <= k < n ==> s[k] != q
    ensures n < |s| ==> s[n] == q
  {
    if s == [] || s[0] == q then 0 else 1 + Until(s[1..], q)
  }

  lemma {:induction false} UntilIs(a: Bytes, q: Byte, r: Bytes)
    requires q !in a && (r == [] || r[0] == q)
    ensures Until(a + r, q) == |a|
    decreases |a|
  {
    if a == [] {
      assert a + r == r;
    } else {
      assert (a + r)[1..] == a[1..] + r && (a + r)[0] == a[0];
      UntilIs(a[1..], q, r);
    }
  }

  lemma Cut(a: Bytes, b: Bytes)
    ensures (a + b)[..|a|] == a && (a + b)[|a|..] == b
  {
  }

  lemma Associates(a: Bytes, b: Bytes, c: Bytes)
    ensures a + (b + c) == a + b + c
  {
  }

  lemma DropDrop(s: Bytes, m: nat, n: nat)
    requires m + n <= |s|
    ensures s[m..][n..] == s[m + n..]
  {
  }

  lemma CutTwice(a: Bytes, b: Bytes, c: Bytes)
    ensures var t := a + (b + c);
            t[..|a|] == a && t[|a|..] == b + c && t[|a|..|a| + |b|] == b && t[|a| + |b|..] == c
  {
    Cut(a, b + c);
    Cut(b, c);
    DropDrop(a + (b + c), |a|, |b|);
  }

  predicate OccursAt(p: Bytes, s: Bytes, i: nat) {
    i + |p| <= |s| && s[i..i + |p|] == p
  }

  predicate Occurs(p: Bytes, s: Bytes) {
    exists i: nat :: i <= |s| && OccursAt(p, s, i)
  }

  lemma OccursInPrefix(p: Bytes, s: Bytes, t: Bytes, n: nat, i: nat)
    requires n <= |s| && n <= |t| && t[..n] == s[..n] && i + |p| <= n
    ensures OccursAt(p, s, i) <==> OccursAt(p, t, i)
  {
    assert s[i..i + |p|] == s[..n][i..i + |p|];
    assert t[i..i + |p|] == t[..n][i..i + |p|];
  }

  lemma OccursShiftAt(p: Bytes, s: Bytes, i: nat)
    requires s != []
    ensures OccursAt(p, s, i + 1) <==> OccursAt(p, s[1..], i)
  {
    if i + 1 + |p| <= |s| {
      assert s[i + 1..i + 1 + |p|] == s[1..][i..i + |p|];
    }
  }

  lemma OccursShift(p: Bytes, s: Bytes)
    requires s != []
    ensures forall i: nat :: i > 0 && OccursAt(p, s, i) ==> OccursAt(p, s[1..], i - 1)
    ensures forall i: nat :: OccursAt(p, s[1..], i) ==> OccursAt(p, s, i + 1)
  {
    hide OccursAt;
    forall i: nat | i > 0 && OccursAt(p, s, i)
      ensures OccursAt(p, s[1..], i - 1)
    {
      OccursShiftAt(p, s, i - 1);
    }
    forall i: nat | OccursAt(p, s[1..], i)
      ensures OccursAt(p, s, i + 1)
    {
      OccursShiftAt(p, s, i);
    }
  }

  /** The first occurrence of p, as `str::find`. */
  function Find(s: Bytes, p: Bytes): (r: Option<nat>)
    ensures r.Some? ==> OccursAt(p, s, r.value) && forall i: nat :: i < r.value ==> !OccursAt(p, s, i)
    ensures r.None? <==> !Occurs(p, s)
    decreases |s|
  {
    if OccursAt(p, s, 0) then Some(0)
    else if s == [] then None
    else
      var r := Find(s[1..], p);
      OccursShift(p, s);
      if r.Some? then Some(r.value + 1) else None
  }

  /** "[REDACTED]" */
  const MARKER: Bytes := [0x5B, 0x52, 0x45, 0x44, 0x41, 0x43, 0x54, 0x45, 0x44, 0x5D]

  /** "Bearer " */
  const BEARER: Bytes := [0x42, 0x65, 0x61, 0x72, 0x65, 0x72, 0x20]
}
