/** Well-formed UTF-8 once more, as what it encodes: a string of Unicode scalar values. */
module UnicodeText {
  import opened Basics
  import opened Text
  import opened Utf8

  /** A code point that is no surrogate. */
  predicate Scalar(c: nat) {
    c < 0xD800 || 0xE000 <= c < 0x11_0000
  }

  /** Section 3 of RFC 3629: one to four bytes that carry the bits of a code point. */
  function Encode(c: nat): Bytes
    requires Scalar(c)
  {
    if c < 0x80 then [c]
    else if c < 0x800 then [0xC0 + c / 64, 0x80 + c % 64]
    else if c < 0x1_0000 then [0xE0 + c / 4096, 0x80 + c / 64 % 64, 0x80 + c % 64]
    else [0xF0 + c / 262144, 0x80 + c / 4096 % 64, 0x80 + c / 64 % 64, 0x80 + c % 64]
  }

  predicate Scalars(text: seq<nat>) {
    forall k :: 0 <= k < |text| ==> Scalar(text[k])
  }

  function EncodeAll(text: seq<nat>): Bytes
    requires Scalars(text)
  {
    if text == [] then [] else Encode(text[0]) + EncodeAll(text[1..])
  }

  /** The code point at the head of a well-formed string. */
  function Decode(s: Bytes): int
    requires CharLength(s) > 0
  {
    match CharLength(s)
    case 1 => s[0]
    case 2 => (s[0] as int - 0xC0) * 64 + (s[1] as int - 0x80)
    case 3 => (s[0] as int - 0xE0) * 4096 + (s[1] as int - 0x80) * 64 + (s[2] as int - 0x80)
    case _ => (s[0] as int - 0xF0) * 262144 + (s[1] as int - 0x80) * 4096
              + (s[2] as int - 0x80) * 64 + (s[3] as int - 0x80)
  }

  lemma DecodeInverts(s: Bytes)
    requires CharLength(s) > 0
    ensures 0 <= Decode(s) && Scalar(Decode(s)) && Encode(Decode(s)) == s[..CharLength(s)]
  {
    var n := CharLength(s);
    if n == 2 {
      DecodeTwo(s, s[0] as int - 0xC0, s[1] as int - 0x80);
    } else if n == 3 {
      DecodeThree(s, s[0] as int - 0xE0, s[1] as int - 0x80, s[2] as int - 0x80);
    } else if n == 4 {
      DecodeFour(s, s[0] as int - 0xF0, s[1] as int - 0x80, s[2] as int - 0x80, s[3] as int - 0x80);
    }
  }

  lemma DecodeTwo(s: Bytes, a: nat, b: nat)
    requires CharLength(s) == 2 && a == s[0] as int - 0xC0 && b == s[1] as int - 0x80
    ensures Scalar(a * 64 + b) && Encode(a * 64 + b) == s[..2]
  {
    assert 2 <= a < 32 && b < 64;
    Two(a, b);
  }

  lemma DecodeThree(s: Bytes, a: nat, b: nat, c: nat)
    requires CharLength(s) == 3 && a == s[0] as int - 0xE0 && b == s[1] as int - 0x80 && c == s[2] as int - 0x80
    ensures var n := a * 4096 + b * 64 + c; Scalar(n) && Encode(n) == s[..3]
  {
    assert a < 16 && b < 64 && c < 64 && (a == 0 ==> b >= 32) && (a == 13 ==> b < 32);
    Three(a, b, c);
    var n := a * 4096 + b * 64 + c;
    assert 0x800 <= n < 0x1_0000 && Scalar(n);
  }

  lemma DecodeFour(s: Bytes, a: nat, b: nat, c: nat, d: nat)
    requires CharLength(s) == 4 && a == s[0] as int - 0xF0 && b == s[1] as int - 0x80
    requires c == s[2] as int - 0x80 && d == s[3] as int - 0x80
    ensures var n := a * 262144 + b * 4096 + c * 64 + d; Scalar(n) && Encode(n) == s[..4]
  {
    assert a < 5 && b < 64 && c < 64 && d < 64 && (a == 0 ==> b >= 16) && (a == 4 ==> b < 16);
    Four(a, b, c, d);
    var n := a * 262144 + b * 4096 + c * 64 + d;
    assert 0x1_0000 <= n < 0x11_0000;
  }

  lemma Two(a: nat, b: nat)
    requires b < 64
    ensures (a * 64 + b) / 64 == a && (a * 64 + b) % 64 == b
  {
  }

  lemma Three(a: nat, b: nat, c: nat)
    requires b < 64 && c < 64
    ensures var n := a * 4096 + b * 64 + c; n / 4096 == a && n / 64 % 64 == b && n % 64 == c
  {
    Two(a * 64 + b, c);
    Two(a, b);
  }

  lemma Four(a: nat, b: nat, c: nat, d: nat)
    requires b < 64 && c < 64 && d < 64
    ensures var n := a * 262144 + b * 4096 + c * 64 + d;
            n / 262144 == a && n / 4096 % 64 == b && n / 64 % 64 == c && n % 64 == d
  {
    Two(a * 4096 + b * 64 + c, d);
    Three(a, b, c);
  }

  /** An encoded scalar is a character, whatever follows. */
  lemma EncodedIsCharacter(c: nat, rest: Bytes)
    requires Scalar(c)
    ensures CharLength(Encode(c) + rest) == |Encode(c)|
  {
    if 0x800 <= c < 0x1_0000 {
      ThreeBytes(c, rest);
    } else if c >= 0x1_0000 {
      FourBytes(c, rest);
    }
  }

  lemma ThreeBytes(c: nat, rest: Bytes)
    requires Scalar(c) && 0x800 <= c < 0x1_0000
    ensures CharLength(Encode(c) + rest) == |Encode(c)| == 3
  {
    var s := Encode(c) + rest;
    assert s[0] == 0xE0 + c / 4096 && s[1] == 0x80 + c / 64 % 64 && s[2] == 0x80 + c % 64;
  }

  lemma FourBytes(c: nat, rest: Bytes)
    requires Scalar(c) && 0x1_0000 <= c
    ensures CharLength(Encode(c) + rest) == |Encode(c)| == 4
  {
    var s := Encode(c) + rest;
    assert s[0] == 0xF0 + c / 262144 && s[1] == 0x80 + c / 4096 % 64;
    assert s[2] == 0x80 + c / 64 % 64 && s[3] == 0x80 + c % 64;
  }

  lemma {:induction false} EncodedIsValid(text: seq<nat>)
    requires Scalars(text)
    ensures Valid(EncodeAll(text))
    decreases |text|
  {
    hide Encode, CharLength;
    if text != [] {
      EncodedIsValid(text[1..]);
      EncodedIsCharacter(text[0], EncodeAll(text[1..]));
      NotEmpty(text[0]);
      var n := |Encode(text[0])|;
      assert EncodeAll(text)[n..] == EncodeAll(text[1..]);
    }
  }

  lemma NotEmpty(c: nat)
    requires Scalar(c)
    ensures |Encode(c)| > 0
  {
  }

  lemma {:induction false} DecodeAll(s: Bytes) returns (text: seq<nat>)
    requires Valid(s)
    ensures Scalars(text) && EncodeAll(text) == s
    decreases |s|
  {
    hide Encode, CharLength, Decode;
    if s == [] {
      text := [];
    } else {
      var n := CharLength(s);
      var more := DecodeAll(s[n..]);
      DecodeInverts(s);
      text := [Decode(s)] + more;
      assert text[1..] == more;
      assert s == s[..n] + s[n..];
    }
  }

  /** A string is well formed exactly if it encodes Unicode scalar values. */
  lemma ValidIsEncoded(s: Bytes)
    ensures Valid(s) <==> exists text :: Scalars(text) && EncodeAll(text) == s
  {
    hide Valid, EncodeAll, Scalars;
    if Valid(s) {
      var text := DecodeAll(s);
    }
    forall text | Scalars(text) && EncodeAll(text) == s
      ensures Valid(s)
    {
      EncodedIsValid(text);
    }
  }

  /** The text is determined by its bytes. */
  lemma {:induction false} EncodingIsUnique(a: seq<nat>, b: seq<nat>)
    requires Scalars(a) && Scalars(b) && EncodeAll(a) == EncodeAll(b)
    ensures a == b
    decreases |a|
  {
    hide Encode, CharLength;
    if a != [] {
      NotEmpty(a[0]);
    }
    if b != [] {
      NotEmpty(b[0]);
    }
    if a != [] && b != [] {
      EncodedIsCharacter(a[0], EncodeAll(a[1..]));
      EncodedIsCharacter(b[0], EncodeAll(b[1..]));
      var n := |Encode(a[0])|;
      assert Encode(a[0]) == EncodeAll(a)[..n] && Encode(b[0]) == EncodeAll(b)[..n];
      assert EncodeAll(a[1..]) == EncodeAll(a)[n..] && EncodeAll(b[1..]) == EncodeAll(b)[n..];
      SameScalar(a[0], b[0]);
      EncodingIsUnique(a[1..], b[1..]);
      assert a == [a[0]] + a[1..] && b == [b[0]] + b[1..];
    }
  }

  lemma SameScalar(c: nat, d: nat)
    requires Scalar(c) && Scalar(d) && Encode(c) == Encode(d)
    ensures c == d
  {
    hide Encode;
    Lengths(c);
    Lengths(d);
    BytesGiveBack(c);
    BytesGiveBack(d);
  }

  lemma Lengths(c: nat)
    requires Scalar(c)
    ensures |Encode(c)| == if c < 0x80 then 1 else if c < 0x800 then 2 else if c < 0x1_0000 then 3 else 4
  {
  }

  lemma BytesGiveBack(c: nat)
    requires Scalar(c)
    ensures var e := Encode(c);
            c == match |e|
                 case 1 => e[0] as int
                 case 2 => (e[0] as int - 0xC0) * 64 + (e[1] as int - 0x80)
                 case 3 => (e[0] as int - 0xE0) * 4096 + (e[1] as int - 0x80) * 64 + (e[2] as int - 0x80)
                 case 4 => (e[0] as int - 0xF0) * 262144 + (e[1] as int - 0x80) * 4096
                           + (e[2] as int - 0x80) * 64 + (e[3] as int - 0x80)
                 case _ => c
  {
    Regroup(c);
  }

  lemma Regroup(c: nat)
    ensures c == c / 64 * 64 + c % 64
    ensures c == c / 4096 * 4096 + c / 64 % 64 * 64 + c % 64
    ensures c == c / 262144 * 262144 + c / 4096 % 64 * 4096 + c / 64 % 64 * 64 + c % 64
  {
    assert c / 64 / 64 == c / 4096 && c / 4096 / 64 == c / 262144;
  }
}
