/**
 Names of transient child units: the byte escaping, the shortened component, the slot number that
 is printed into and parsed back from a name, and the search for a free slot.
 */
module UnitNames {
  import opened Basics

  const UNIT_NAME_MAX_BYTES := 255

  // ---------------------------------------------------------------- digits

  function Pow(base: nat, e: nat): (p: nat)
    ensures base > 0 ==> p > 0
  {
    if e == 0 then 1 else base * Pow(base, e - 1)
  }

  function DigitValue(c: char): (d: Option<nat>)
    ensures d.Some? ==> d.value < 16
  {
    if '0' <= c <= '9' then Some((c - '0') as nat)
    else if 'a' <= c <= 'f' then Some((c - 'a') as nat + 10)
    else None
  }

  function DigitChar(d: nat): (c: char)
    requires d < 16
    ensures DigitValue(c) == Some(d)
    ensures d < 10 ==> '0' <= c <= '9'
    ensures c != '-' && c != '\\'
  {
    if d < 10 then '0' + d as char else 'a' + (d - 10) as char
  }

  /** The decimal rendering of a number, without leading zeros. */
  function Decimal(n: nat): (s: string)
    ensures s != ""
  {
    if n < 10 then [DigitChar(n)] else Decimal(n / 10) + [DigitChar(n % 10)]
  }

  function DecimalValue(s: string): Option<nat> {
    if s == "" then Some(0)
    else
      var d := s[|s| - 1];
      var front := DecimalValue(s[..|s| - 1]);
      if '0' <= d <= '9' && front.Some? then Some(10 * front.value + DigitValue(d).value) else None
  }

  /** `str::parse::<u32>`: an optional plus sign, at least one digit, no overflow. */
  function ParseU32(s: string): Option<nat> {
    var digits := if s != "" && s[0] == '+' then s[1..] else s;
    if digits == "" then None
    else
      var v := DecimalValue(digits);
      if v.Some? && v.value <= U32_MAX then v else None
  }

  function HexFixed(n: nat, digits: nat): (s: string)
    ensures |s| == digits
  {
    if digits == 0 then "" else HexFixed(n / 16, digits - 1) + [DigitChar(n % 16)]
  }

  predicate AllDigits(s: string) {
    forall k :: 0 <= k < |s| ==> '0' <= s[k] <= '9'
  }

  lemma {:induction false} DecimalRoundTrip(n: nat)
    ensures AllDigits(Decimal(n)) && DecimalValue(Decimal(n)) == Some(n)
    decreases n
  {
    var s := Decimal(n);
    if n < 10 {
      assert s[..|s| - 1] == "";
      assert DecimalValue("") == Some(0);
    } else {
      DecimalRoundTrip(n / 10);
      assert s[..|s| - 1] == Decimal(n / 10) && s[|s| - 1] == DigitChar(n % 10);
      assert 10 * (n / 10) + n % 10 == n;
    }
  }

  lemma ParseDecimal(n: nat)
    requires n <= U32_MAX
    ensures ParseU32(Decimal(n)) == Some(n)
  {
    DecimalRoundTrip(n);
    assert '0' <= Decimal(n)[0] <= '9';
  }

  /** A number has at most d digits exactly when it is below the d-th power of ten. */
  lemma {:induction false} DecimalLength(n: nat, d: nat)
    requires d >= 1
    ensures |Decimal(n)| <= d <==> n < Pow(10, d)
    decreases d
  {
    if d == 1 {
      assert Pow(10, 1) == 10 * Pow(10, 0) == 10;
    } else {
      DecimalLength(n / 10, d - 1);
      assert Pow(10, d) == 10 * Pow(10, d - 1);
      if n < 10 {
        PowPositive(10, d - 1);
      }
    }
  }

  lemma {:induction false} PowPositive(base: nat, e: nat)
    requires base > 0
    ensures Pow(base, e) >= 1
  {
    if e > 0 {
      PowPositive(base, e - 1);
      assert base * Pow(base, e - 1) >= base;
    }
  }

  // ---------------------------------------------------------------- escaping

  predicate Unescaped(b: Byte) {
    || '0' as int <= b <= '9' as int || 'A' as int <= b <= 'Z' as int || 'a' as int <= b <= 'z' as int
    || b == ':' as int || b == '_' as int || b == '.' as int
  }

  function Token(b: Byte): (t: string)
    ensures 1 <= |t| <= 4
  {
    if Unescaped(b) then [b as char] else ['\\', 'x', DigitChar(b / 16), DigitChar(b % 16)]
  }

  function Escape(bytes: seq<Byte>): string {
    if bytes == [] then "" else Token(bytes[0]) + Escape(bytes[1..])
  }

  method EscapeUnitComponent(bytes: seq<Byte>) returns (escaped: string)
    ensures escaped == Escape(bytes)
  {
    escaped := "";
    for i := 0 to |bytes|
      invariant escaped + Escape(bytes[i..]) == Escape(bytes)
    {
      assert bytes[i..][0] == bytes[i] && bytes[i..][1..] == bytes[i + 1..];
      escaped := escaped + Token(bytes[i]);
    }
  }

  /** The reverse reading of an escaped component. */
  function Unescape(s: string): Option<seq<Byte>>
    decreases |s|
  {
    if s == "" then Some([])
    else if s[0] != '\\' then
      if s[0] as int < 256 then Push(s[0] as int, Unescape(s[1..])) else None
    else if |s| < 4 || s[1] != 'x' || DigitValue(s[2]).None? || DigitValue(s[3]).None? then None
    else Push(16 * DigitValue(s[2]).value + DigitValue(s[3]).value, Unescape(s[4..]))
  }

  function Push(b: Byte, rest: Option<seq<Byte>>): Option<seq<Byte>> {
    if rest.Some? then Some([b] + rest.value) else None
  }

  lemma UnescapeToken(b: Byte, rest: string)
    ensures Unescape(Token(b) + rest) == Push(b, Unescape(rest))
  {
    var t := Token(b);
    var s := t + rest;
    if Unescaped(b) {
      assert s[0] == b as char && s[1..] == rest;
    } else {
      assert s[0] == '\\' && s[1] == 'x' && s[2] == DigitChar(b / 16) && s[3] == DigitChar(b % 16);
      assert s[4..] == rest;
      assert 16 * (b / 16) + b % 16 == b;
    }
  }

  /** Escaping loses nothing: it has a left inverse over all byte strings. */
  lemma {:induction false} UnescapeInvertsEscape(bytes: seq<Byte>)
    ensures Unescape(Escape(bytes)) == Some(bytes)
    decreases |bytes|
  {
    if bytes != [] {
      UnescapeInvertsEscape(bytes[1..]);
      UnescapeToken(bytes[0], Escape(bytes[1..]));
      assert [bytes[0]] + bytes[1..] == bytes;
    }
  }

  lemma EscapeIsInjective(a: seq<Byte>, b: seq<Byte>)
    requires Escape(a) == Escape(b)
    ensures a == b
  {
    UnescapeInvertsEscape(a);
    UnescapeInvertsEscape(b);
  }

  lemma {:induction false} EscapeAppend(a: seq<Byte>, b: seq<Byte>)
    ensures Escape(a + b) == Escape(a) + Escape(b)
    decreases |a|
  {
    if a == [] {
      assert a + b == b;
    } else {
      assert (a + b)[1..] == a[1..] + b;
      EscapeAppend(a[1..], b);
    }
  }

  /** No escaped component contains a hyphen. */
  lemma {:induction false} EscapeHasNoHyphen(bytes: seq<Byte>)
    ensures '-' !in Escape(bytes)
    decreases |bytes|
  {
    if bytes != [] {
      EscapeHasNoHyphen(bytes[1..]);
      var b := bytes[0];
      assert '-' !in Token(b);
    }
  }

  // ---------------------------------------------------------------- the shortened component

  /** Exclusive or of two numbers, bit by bit. */
  function Xor(x: nat, y: nat): nat {
    if x == 0 && y == 0 then 0 else 2 * Xor(x / 2, y / 2) + (x + y) % 2
  }

  /** One byte of the 64-bit name digest (FNV-1a): mix the byte in, then multiply with wrap-around. */
  function DigestStep(digest: nat, b: Byte): nat {
    (digest - digest % 256 + Xor(digest % 256, b)) * 0x100000001b3 % 0x1_0000_0000_0000_0000
  }

  function DigestFrom(digest: nat, bytes: seq<Byte>): nat
    decreases |bytes|
  {
    if bytes == [] then digest else DigestFrom(DigestStep(digest, bytes[0]), bytes[1..])
  }

  const DIGEST_SEED: nat := 0xcbf29ce484222325

  function Suffix(basename: seq<Byte>): (s: string)
    ensures |s| == 17 && s[0] == '-'
  {
    "-" + HexFixed(DigestFrom(DIGEST_SEED, basename), 16)
  }

  function PrefixCapacity(slot: nat): nat {
    var fixed := |"surface" + Decimal(slot) + "-"| + 17 + |".service"|;
    if fixed <= UNIT_NAME_MAX_BYTES then UNIT_NAME_MAX_BYTES - fixed else 0
  }

  /** How many leading bytes have an escape of at most `capacity` characters. */
  function FitCount(basename: seq<Byte>, capacity: nat): (k: nat)
    ensures k <= |basename|
  {
    if basename == [] || |Token(basename[0])| > capacity then 0
    else 1 + FitCount(basename[1..], capacity - |Token(basename[0])|)
  }

  function Shorten(basename: seq<Byte>, slot: nat): string {
    Escape(basename[..FitCount(basename, PrefixCapacity(slot))]) + Suffix(basename)
  }

  lemma {:induction false} FitStep(basename: seq<Byte>, i: nat, capacity: nat)
    requires i < |basename| && i <= FitCount(basename, capacity)
    ensures |Escape(basename[..i])| <= capacity
    ensures |Escape(basename[..i])| + |Token(basename[i])| > capacity <==> i == FitCount(basename, capacity)
    decreases i
  {
    if i == 0 {
      assert basename[..0] == [];
    } else {
      FitStep(basename[1..], i - 1, capacity - |Token(basename[0])|);
      assert basename[..i][1..] == basename[1..][..i - 1];
    }
  }

  method Digest(basename: seq<Byte>) returns (digest: nat)
    ensures digest == DigestFrom(DIGEST_SEED, basename)
  {
    digest := DIGEST_SEED;
    for i := 0 to |basename|
      invariant DigestFrom(digest, basename[i..]) == DigestFrom(DIGEST_SEED, basename)
    {
      assert basename[i..][0] == basename[i] && basename[i..][1..] == basename[i + 1..];
      digest := DigestStep(digest, basename[i]);
    }
  }

  method ShortenUnitComponent(basename: seq<Byte>, slot: nat) returns (component: string)
    ensures component == Shorten(basename, slot)
  {
    var digest := Digest(basename);
    var suffix := "-" + HexFixed(digest, 16);
    assert suffix == Suffix(basename);
    var fixed := |"surface" + Decimal(slot) + "-"| + |suffix| + |".service"|;
    var prefixCapacity := if fixed <= UNIT_NAME_MAX_BYTES then UNIT_NAME_MAX_BYTES - fixed else 0;
    assert prefixCapacity == PrefixCapacity(slot);
    ghost var count := FitCount(basename, prefixCapacity);
    var prefix, i := "", 0;
    while i < |basename|
      invariant 0 <= i <= count <= |basename|
      invariant prefix == Escape(basename[..i])
      invariant i == |basename| ==> i == count
    {
      var token := Token(basename[i]);
      FitStep(basename, i, prefixCapacity);
      if |prefix| + |token| > prefixCapacity {
        break;
      }
      EscapeSnoc(basename, i);
      prefix := prefix + token;
      i := i + 1;
    }
    assert i == count;
    return prefix + suffix;
  }

  /**
   The shortened component keeps the escape of the longest basename prefix that fits, and so never
   cuts an escape; with the digest suffix it differs from every unshortened component.
   */
  lemma ShortenKeepsLongestFit(basename: seq<Byte>, slot: nat, other: seq<Byte>)
    ensures var kept := FitCount(basename, PrefixCapacity(slot));
            && kept <= |basename|
            && Shorten(basename, slot) == Escape(basename[..kept]) + Suffix(basename)
            && forall k :: 0 <= k <= |basename| ==>
                 (|Escape(basename[..k])| <= PrefixCapacity(slot) <==> k <= kept)
    ensures Shorten(basename, slot) != Escape(other)
  {
    var kept := FitCount(basename, PrefixCapacity(slot));
    forall k | 0 <= k <= |basename|
      ensures |Escape(basename[..k])| <= PrefixCapacity(slot) <==> k <= kept
    {
      FitsUpToCount(basename, k, PrefixCapacity(slot));
    }
    EscapeHasNoHyphen(other);
    var front := Escape(basename[..kept]);
    assert Shorten(basename, slot)[|front|] == '-';
  }

  lemma FitsUpToCount(basename: seq<Byte>, k: nat, capacity: nat)
    requires k <= |basename|
    ensures |Escape(basename[..k])| <= capacity <==> k <= FitCount(basename, capacity)
  {
    var kept := FitCount(basename, capacity);
    if k > kept {
      FitStep(basename, kept, capacity);
      EscapeSnoc(basename, kept);
      assert basename[..k] == basename[..kept + 1] + basename[kept + 1..k];
      EscapeAppend(basename[..kept + 1], basename[kept + 1..k]);
    } else if k < |basename| {
      FitStep(basename, k, capacity);
    } else if k > 0 {
      FitStep(basename, k - 1, capacity);
      EscapeSnoc(basename, k - 1);
    } else {
      assert basename[..k] == [];
    }
  }

  lemma EscapeSnoc(basename: seq<Byte>, i: nat)
    requires i < |basename|
    ensures Escape(basename[..i + 1]) == Escape(basename[..i]) + Token(basename[i])
  {
    assert basename[..i + 1] == basename[..i] + [basename[i]];
    EscapeAppend(basename[..i], [basename[i]]);
    assert [basename[i]][1..] == [];
  }

  // ---------------------------------------------------------------- slots in names

  function UnitName(slot: nat, component: string): string {
    "surface" + Decimal(slot) + "-" + component + ".service"
  }

  function StripSuffix(s: string, suffix: string): Option<string> {
    if |suffix| <= |s| && s[|s| - |suffix|..] == suffix then Some(s[..|s| - |suffix|]) else None
  }

  function StripPrefix(s: string, prefix: string): Option<string> {
    if |prefix| <= |s| && s[..|prefix|] == prefix then Some(s[|prefix|..]) else None
  }

  /** The part before the first occurrence of `c`, if there is one. */
  function BeforeFirst(s: string, c: char): Option<string> {
    if s == "" then None
    else if s[0] == c then Some("")
    else
      var rest := BeforeFirst(s[1..], c);
      if rest.Some? then Some([s[0]] + rest.value) else None
  }

  function UnitSlotForName(name: string): Option<nat> {
    var a := StripSuffix(name, ".service");
    if a.None? then None else
    var b := StripPrefix(a.value, "surface");
    if b.None? then None else
    var d := BeforeFirst(b.value, '-');
    if d.None? then None else ParseU32(d.value)
  }

  lemma {:induction false} BeforeFirstOf(a: string, c: char, rest: string)
    requires c !in a
    ensures BeforeFirst(a + [c] + rest, c) == Some(a)
    decreases |a|
  {
    var s := a + [c] + rest;
    if a != "" {
      assert s[0] == a[0] && s[1..] == a[1..] + [c] + rest;
      BeforeFirstOf(a[1..], c, rest);
      assert [a[0]] + a[1..] == a;
    }
  }

  /** Every unit name parses back to the slot printed into it, whatever its component. */
  lemma SlotRoundTrip(slot: nat, component: string)
    requires slot <= U32_MAX
    ensures UnitSlotForName(UnitName(slot, component)) == Some(slot)
  {
    var name := UnitName(slot, component);
    var inner := "surface" + Decimal(slot) + "-" + component;
    assert name == inner + ".service";
    assert name[|name| - |".service"|..] == ".service" && name[..|name| - |".service"|] == inner;
    assert inner[..|"surface"|] == "surface";
    assert inner[|"surface"|..] == Decimal(slot) + ['-'] + component;
    DecimalRoundTrip(slot);
    assert '-' !in Decimal(slot);
    BeforeFirstOf(Decimal(slot), '-', component);
    ParseDecimal(slot);
  }

  // ---------------------------------------------------------------- how large a slot may be

  predicate Fits(slot: nat, component: string) {
    |UnitName(slot, component)| <= UNIT_NAME_MAX_BYTES
  }

  function MaxSlotForChild(encoded: string): Option<nat> {
    var fixed := |"surface"| + 1 + |encoded| + |".service"|;
    if fixed > UNIT_NAME_MAX_BYTES then None
    else
      var digits := UNIT_NAME_MAX_BYTES - fixed;
      if digits == 0 then None
      else if digits >= 10 then Some(U32_MAX)
      else Some(Pow(10, digits) - 1)
  }

  /** The largest slot allowed is exactly the largest 32-bit slot whose complete name fits. */
  lemma MaxSlotIsLargestFitting(encoded: string, slot: nat)
    requires slot <= U32_MAX
    ensures MaxSlotForChild(encoded).Some? ==> MaxSlotForChild(encoded).value <= U32_MAX
    ensures Fits(slot, encoded) <==> MaxSlotForChild(encoded).Some? && slot <= MaxSlotForChild(encoded).value
  {
    var fixed := |"surface"| + 1 + |encoded| + |".service"|;
    assert |UnitName(slot, encoded)| == fixed + |Decimal(slot)|;
    assert Pow(10, 1) == 10 && Pow(10, 2) == 100 && Pow(10, 3) == 1000 && Pow(10, 4) == 10000;
    assert Pow(10, 5) == 100000 && Pow(10, 6) == 1000000 && Pow(10, 7) == 10000000;
    assert Pow(10, 8) == 100000000 && Pow(10, 9) == 1000000000 && Pow(10, 10) == 10000000000;
    DecimalLength(slot, 10);
    if 1 <= UNIT_NAME_MAX_BYTES - fixed <= 9 {
      DecimalLength(slot, UNIT_NAME_MAX_BYTES - fixed);
    }
  }

  predicate NeedsShortening(encoded: string) {
    |encoded| + |"surface0-"| + |".service"| > UNIT_NAME_MAX_BYTES
  }

  /** The component the spawn loop puts into a name. */
  function Component(basename: seq<Byte>, slot: nat): string {
    if NeedsShortening(Escape(basename)) then Shorten(basename, slot) else Escape(basename)
  }

  /** The slot limit of the spawn loop; `None` is the branch that launches without a unit. */
  function SlotLimit(basename: seq<Byte>): Option<nat> {
    if NeedsShortening(Escape(basename)) then Some(U32_MAX) else MaxSlotForChild(Escape(basename))
  }

  /** A basename that needs no shortening always leaves room for a slot. */
  lemma SlotLimitExists(basename: seq<Byte>)
    ensures SlotLimit(basename).Some? && SlotLimit(basename).value <= U32_MAX
  {
    if !NeedsShortening(Escape(basename)) {
      MaxSlotIsLargestFitting(Escape(basename), 0);
    }
  }

  /** Every name the spawn loop can build is within the systemd limit and carries its slot. */
  lemma SpawnNamesFit(basename: seq<Byte>, slot: nat)
    requires SlotLimit(basename).Some? && slot <= SlotLimit(basename).value
    ensures Fits(slot, Component(basename, slot))
    ensures slot <= U32_MAX && UnitSlotForName(UnitName(slot, Component(basename, slot))) == Some(slot)
  {
    SlotLimitExists(basename);
    SlotRoundTrip(slot, Component(basename, slot));
    if NeedsShortening(Escape(basename)) {
      ShortenKeepsLongestFit(basename, slot, []);
      assert Pow(10, 10) == 10000000000 by {
        assert Pow(10, 5) == 100000;
        assert Pow(10, 8) == 1000 * Pow(10, 5);
      }
      DecimalLength(slot, 10);
    } else {
      MaxSlotIsLargestFitting(Escape(basename), slot);
    }
  }

  // ---------------------------------------------------------------- the search for a free slot

  function FirstFree(from: nat, maxSlot: nat, occupied: set<nat>, attempted: set<nat>): (r: Option<nat>)
    ensures r.Some? ==> from <= r.value <= maxSlot && r.value !in occupied && r.value !in attempted
    ensures r.Some? ==> forall s :: from <= s < r.value ==> s in occupied || s in attempted
    ensures r.None? ==> forall s :: from <= s <= maxSlot ==> s in occupied || s in attempted
    decreases maxSlot + 1 - from
  {
    if from > maxSlot then None
    else if from !in occupied && from !in attempted then Some(from)
    else FirstFree(from + 1, maxSlot, occupied, attempted)
  }

  /** Slot 0 is only for the main application; others get the least free slot from 1 up. */
  function NextCandidateSlot(preferMain: bool, maxSlot: nat, occupied: set<nat>, attempted: set<nat>): (r: Option<nat>)
    ensures r.Some? ==> r.value <= maxSlot && r.value !in occupied && r.value !in attempted
    ensures r == Some(0) <==> preferMain && 0 !in occupied && 0 !in attempted
    ensures r.Some? && r.value > 0 ==> forall s :: 1 <= s < r.value ==> s in occupied || s in attempted
    ensures r.None? <==> (preferMain ==> 0 in occupied || 0 in attempted)
                         && forall s :: 1 <= s <= maxSlot ==> s in occupied || s in attempted
  {
    if preferMain && 0 !in occupied && 0 !in attempted then Some(0)
    else FirstFree(1, maxSlot, occupied, attempted)
  }
}
