/** What unit names look like, spelled out: the escape of each byte, the digest and the room for a prefix. */
module NameRules {
  import opened Basics
  import opened UnitNames

  const HEX := "0123456789abcdef"

  /** The escape of one byte: letters, digits, ":", "_" and "." stand for themselves. */
  predicate EscapesTo(b: Byte, t: string) {
    var c := b as char;
    if 'a' <= c <= 'z' || 'A' <= c <= 'Z' || '0' <= c <= '9' || c == ':' || c == '_' || c == '.' then t == [c]
    else t == "\\x" + [HEX[b / 16], HEX[b % 16]]
  }

  lemma HexDigit(d: nat)
    requires d < 16
    ensures HEX[d] == DigitChar(d)
  {
  }

  /** A component is the escapes of its bytes, one after the other. */
  predicate Escaped(bytes: seq<Byte>, tokens: seq<string>, text: string) {
    && |tokens| == |bytes| && (forall k :: 0 <= k < |bytes| ==> EscapesTo(bytes[k], tokens[k]))
    && text == Joined(tokens)
  }

  function Joined(tokens: seq<string>): string {
    if tokens == [] then "" else tokens[0] + Joined(tokens[1..])
  }

  lemma {:induction false} EscapeIsBytewise(bytes: seq<Byte>) returns (tokens: seq<string>)
    ensures Escaped(bytes, tokens, Escape(bytes))
    decreases |bytes|
  {
    hide EscapesTo, Token;
    if bytes == [] {
      tokens := [];
    } else {
      var more := EscapeIsBytewise(bytes[1..]);
      TokenIsEscape(bytes[0]);
      tokens := [Token(bytes[0])] + more;
      assert tokens[1..] == more;
    }
  }

  lemma TokenIsEscape(b: Byte)
    ensures EscapesTo(b, Token(b))
  {
    hide HEX;
    HexDigit(b / 16);
    HexDigit(b % 16);
  }

  // ---------------------------------------------------------------- the digest

  function Bit(n: nat, k: nat): nat {
    if k == 0 then n % 2 else Bit(n / 2, k - 1)
  }

  /** `Xor` is the exclusive or of every bit. */
  lemma {:induction false} XorBits(x: nat, y: nat, k: nat)
    ensures Bit(Xor(x, y), k) == (Bit(x, k) + Bit(y, k)) % 2
    decreases k
  {
    hide Xor;
    XorHalves(x, y);
    if k > 0 {
      XorBits(x / 2, y / 2, k - 1);
    }
  }

  lemma XorHalves(x: nat, y: nat)
    ensures Xor(x, y) % 2 == (x % 2 + y % 2) % 2 && Xor(x, y) / 2 == Xor(x / 2, y / 2)
  {
    hide Xor;
    XorStep(x, y);
    Halve(Xor(x / 2, y / 2), (x + y) % 2);
    SumParity(x, y);
  }

  lemma XorStep(x: nat, y: nat)
    ensures Xor(x, y) == 2 * Xor(x / 2, y / 2) + (x + y) % 2
  {
  }

  lemma Halve(h: nat, b: nat)
    requires b < 2
    ensures (2 * h + b) / 2 == h && (2 * h + b) % 2 == b
  {
  }

  lemma SumParity(x: nat, y: nat)
    ensures (x + y) % 2 == (x % 2 + y % 2) % 2
  {
  }

  /** The digest of nothing and of "a", as 64-bit FNV-1a has them. */
  lemma DigestExamples()
    ensures DigestFrom(DIGEST_SEED, []) == 0xcbf29ce484222325
    ensures DigestFrom(DIGEST_SEED, ['a' as Byte]) == 0xaf63dc4c8601ec8c
  {
    hide Xor, DigestStep;
    StepOfExample();
    assert ['a' as Byte][1..] == [];
    assert DigestFrom(0xaf63dc4c8601ec8c, []) == 0xaf63dc4c8601ec8c;
  }

  lemma StepOfExample()
    ensures DigestStep(DIGEST_SEED, 'a' as Byte) == 0xaf63dc4c8601ec8c
  {
    hide Xor;
    XorOfExample();
    assert DIGEST_SEED % 256 == 0x25 && 'a' as int == 0x61;
    assert 0xcbf29ce484222344 * 0x100000001b3 % 0x1_0000_0000_0000_0000 == 0xaf63dc4c8601ec8c;
  }

  lemma XorOfExample()
    ensures Xor(0x25, 0x61) == 0x44
  {
    assert Xor(0x0, 0x1) == 1;
    assert Xor(0x1, 0x3) == 2;
    assert Xor(0x2, 0x6) == 4;
    assert Xor(0x4, 0xC) == 8;
    assert Xor(0x9, 0x18) == 0x11;
    assert Xor(0x12, 0x30) == 0x22;
  }

  function HexValue(s: string): nat
    requires forall k :: 0 <= k < |s| ==> DigitValue(s[k]).Some?
  {
    if s == "" then 0 else 16 * HexValue(s[..|s| - 1]) + DigitValue(s[|s| - 1]).value
  }

  lemma {:induction false} HexRoundTrip(n: nat, digits: nat)
    requires n < Pow(16, digits)
    ensures forall k :: 0 <= k < digits ==> DigitValue(HexFixed(n, digits)[k]).Some?
    ensures HexValue(HexFixed(n, digits)) == n
    decreases digits
  {
    if digits > 0 {
      HexRoundTrip(n / 16, digits - 1);
      var s := HexFixed(n, digits);
      assert s[..|s| - 1] == HexFixed(n / 16, digits - 1) && s[|s| - 1] == DigitChar(n % 16);
    }
  }

  lemma SixteenDigits()
    ensures Pow(16, 16) == 0x1_0000_0000_0000_0000
  {
    assert Pow(16, 4) == 0x1_0000;
    assert Pow(16, 8) == 0x1_0000_0000;
    assert Pow(16, 12) == 0x1_0000_0000_0000;
  }

  lemma {:induction false} DigestFits(digest: nat, bytes: seq<Byte>)
    requires digest < 0x1_0000_0000_0000_0000
    ensures DigestFrom(digest, bytes) < 0x1_0000_0000_0000_0000
    decreases |bytes|
  {
    if bytes != [] {
      DigestFits(DigestStep(digest, bytes[0]), bytes[1..]);
    }
  }

  /** The suffix is a hyphen and the digest in sixteen hexadecimal digits. */
  lemma SuffixIsDigest(basename: seq<Byte>)
    ensures var s := Suffix(basename);
            && |s| == 17 && s[0] == '-' && (forall k :: 1 <= k < 17 ==> DigitValue(s[k]).Some?)
            && HexValue(s[1..]) == DigestFrom(0xcbf29ce484222325, basename)
  {
    hide Pow, HexValue, HexFixed, DigestFrom;
    var d := DigestFrom(DIGEST_SEED, basename);
    SixteenDigits();
    DigestFits(DIGEST_SEED, basename);
    HexRoundTrip(d, 16);
    assert Suffix(basename)[1..] == HexFixed(d, 16);
    assert forall k :: 1 <= k < 17 ==> Suffix(basename)[k] == HexFixed(d, 16)[k - 1];
  }

  // ---------------------------------------------------------------- the room for a prefix

  lemma SlotDigits(slot: nat)
    requires slot <= 0xFFFF_FFFF
    ensures |Decimal(slot)| <= 10
  {
    assert Pow(10, 5) == 100000;
    assert Pow(10, 10) == 10000000000 by {
      assert Pow(10, 8) == 1000 * Pow(10, 5);
    }
    DecimalLength(slot, 10);
  }

  /** A shortened name keeps the longest prefix of the basename with which the whole name has 255 bytes at most. */
  lemma ShortenUsesTheRoom(basename: seq<Byte>, slot: nat, k: nat)
    requires slot <= 0xFFFF_FFFF && k <= |basename|
    ensures var kept := FitCount(basename, PrefixCapacity(slot));
            var component := Escape(basename[..k]) + Suffix(basename);
            && kept <= |basename| && Shorten(basename, slot) == Escape(basename[..kept]) + Suffix(basename)
            && (k <= kept <==> |"surface" + Decimal(slot) + "-" + component + ".service"| <= 255)
  {
    hide Suffix, Escape, Decimal, FitCount;
    SlotDigits(slot);
    FitsUpToCount(basename, k, PrefixCapacity(slot));
  }

  // ---------------------------------------------------------------- slots in names

  predicate Digits(s: string) {
    s != "" && forall k :: 0 <= k < |s| ==> '0' <= s[k] <= '9'
  }

  function Number(digits: string): nat
    requires forall k :: 0 <= k < |digits| ==> '0' <= digits[k] <= '9'
  {
    if digits == "" then 0
    else 10 * Number(digits[..|digits| - 1]) + (digits[|digits| - 1] as int - '0' as int)
  }

  /** A name with a slot: "surface", maybe a plus sign, digits, a hyphen, anything, ".service". */
  predicate NamesSlot(name: string, plus: bool, digits: string, rest: string, slot: nat) {
    && name == "surface" + (if plus then "+" else "") + digits + "-" + rest + ".service"
    && Digits(digits) && Number(digits) == slot <= 0xFFFF_FFFF
  }

  lemma {:induction false} NumberIs(s: string)
    ensures DecimalValue(s).Some? <==> forall k :: 0 <= k < |s| ==> '0' <= s[k] <= '9'
    ensures DecimalValue(s).Some? ==> DecimalValue(s).value == Number(s)
    decreases |s|
  {
    if s != "" {
      var front, d := s[..|s| - 1], s[|s| - 1];
      NumberIs(front);
      assert s == front + [d];
      assert '0' <= d <= '9' ==> DigitValue(d) == Some(d as int - '0' as int);
    }
  }

  lemma {:induction false} BeforeFirstIs(s: string, c: char)
    ensures BeforeFirst(s, c).None? <==> c !in s
    ensures BeforeFirst(s, c).Some? ==>
              var a := BeforeFirst(s, c).value; |a| < |s| && a == s[..|a|] && s[|a|] == c && c !in a
    decreases |s|
  {
    if s != "" && s[0] != c {
      BeforeFirstIs(s[1..], c);
      assert s == [s[0]] + s[1..];
    }
  }

  /** A slot is read from exactly the names that have one, and no name has two. */
  lemma SlotIsNamed(name: string, slot: nat)
    ensures UnitSlotForName(name) == Some(slot) <==>
            exists plus, digits, rest :: NamesSlot(name, plus, digits, rest, slot)
  {
    if UnitSlotForName(name) == Some(slot) {
      var plus, digits, rest := SlotParts(name, slot);
    }
    forall plus, digits, rest | NamesSlot(name, plus, digits, rest, slot)
      ensures UnitSlotForName(name) == Some(slot)
    {
      NamedSlotIsRead(name, plus, digits, rest, slot);
    }
  }

  lemma SlotParts(name: string, slot: nat) returns (plus: bool, digits: string, rest: string)
    requires UnitSlotForName(name) == Some(slot)
    ensures NamesSlot(name, plus, digits, rest, slot)
  {
    hide *;
    var a, b, d := SlotCut(name, slot);
    rest := b[|d| + 1..];
    plus, digits := SlotNumber(d, slot);
    Reassemble(name, a, b, d, plus, digits, rest, slot);
  }

  lemma SlotCut(name: string, slot: nat) returns (a: string, b: string, d: string)
    requires UnitSlotForName(name) == Some(slot)
    ensures name == a + ".service" && a == "surface" + b
    ensures |d| < |b| && b == d + "-" + b[|d| + 1..] && ParseU32(d) == Some(slot)
  {
    hide BeforeFirst, ParseU32;
    a := StripSuffix(name, ".service").value;
    b := StripPrefix(a, "surface").value;
    d := BeforeFirst(b, '-').value;
    BeforeFirstIs(b, '-');
  }

  lemma SlotNumber(d: string, slot: nat) returns (plus: bool, digits: string)
    requires ParseU32(d) == Some(slot)
    ensures d == (if plus then "+" else "") + digits
    ensures Digits(digits) && Number(digits) == slot <= 0xFFFF_FFFF
  {
    hide DecimalValue, Number;
    plus := d[0] == '+';
    digits := if plus then d[1..] else d;
    NumberIs(digits);
  }

  lemma Reassemble(name: string, a: string, b: string, d: string, plus: bool, digits: string, rest: string, slot: nat)
    requires name == a + ".service" && a == "surface" + b && b == d + "-" + rest
    requires d == (if plus then "+" else "") + digits
    requires Digits(digits) && Number(digits) == slot <= 0xFFFF_FFFF
    ensures NamesSlot(name, plus, digits, rest, slot)
  {
    hide Digits, Number;
    assert name == "surface" + (if plus then "+" else "") + digits + "-" + rest + ".service";
  }

  lemma NamedSlotIsRead(name: string, plus: bool, digits: string, rest: string, slot: nat)
    requires NamesSlot(name, plus, digits, rest, slot)
    ensures UnitSlotForName(name) == Some(slot)
  {
    hide BeforeFirst, DecimalValue, Number;
    var d := (if plus then "+" else "") + digits;
    var b := d + ['-'] + rest;
    assert name == "surface" + b + ".service";
    assert name[|name| - |".service"|..] == ".service" && name[..|name| - |".service"|] == "surface" + b;
    assert ("surface" + b)[..|"surface"|] == "surface" && ("surface" + b)[|"surface"|..] == b;
    BeforeFirstOf(d, '-', rest);
    NumberIs(digits);
    assert (if d[0] == '+' then d[1..] else d) == digits;
  }
}
