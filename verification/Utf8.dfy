/** Well-formed UTF-8, section 4 of RFC 3629, and an automaton that recognizes it byte by byte. */
module Utf8 {
  import opened Basics
  import opened Text

  predicate Tail(b: Byte) {
    0x80 <= b <= 0xBF
  }

  /** The length of the character at the head, 0 if there is none. */
  function CharLength(s: Bytes): (n: nat)
    ensures n <= |s| && n <= 4
  {
    if s == [] then 0
    else if s[0] <= 0x7F then 1
    else if |s| >= 2 && 0xC2 <= s[0] <= 0xDF && Tail(s[1]) then 2
    else if |s| >= 3 && Tail(s[2])
            && ((s[0] == 0xE0 && 0xA0 <= s[1] <= 0xBF) || (0xE1 <= s[0] <= 0xEC && Tail(s[1]))
                || (s[0] == 0xED && 0x80 <= s[1] <= 0x9F) || (0xEE <= s[0] <= 0xEF && Tail(s[1]))) then 3
    else if |s| >= 4 && Tail(s[2]) && Tail(s[3])
            && ((s[0] == 0xF0 && 0x90 <= s[1] <= 0xBF) || (0xF1 <= s[0] <= 0xF3 && Tail(s[1]))
                || (s[0] == 0xF4 && 0x80 <= s[1] <= 0x8F)) then 4
    else 0
  }

  /** `str::from_utf8` succeeds. */
  predicate Valid(s: Bytes)
    decreases |s|
  {
    s == [] || (CharLength(s) > 0 && Valid(s[CharLength(s)..]))
  }

  datatype State = Start | One | Two | Three | AfterE0 | AfterED | AfterF0 | AfterF4 | Bad

  function Next(st: State, b: Byte): State {
    match st
    case Start =>
      if b <= 0x7F then Start
      else if 0xC2 <= b <= 0xDF then One
      else if b == 0xE0 then AfterE0
      else if b == 0xED then AfterED
      else if 0xE1 <= b <= 0xEF then Two
      else if b == 0xF0 then AfterF0
      else if 0xF1 <= b <= 0xF3 then Three
      else if b == 0xF4 then AfterF4
      else Bad
    case One => if Tail(b) then Start else Bad
    case Two => if Tail(b) then One else Bad
    case Three => if Tail(b) then Two else Bad
    case AfterE0 => if 0xA0 <= b <= 0xBF then One else Bad
    case AfterED => if 0x80 <= b <= 0x9F then One else Bad
    case AfterF0 => if 0x90 <= b <= 0xBF then Two else Bad
    case AfterF4 => if 0x80 <= b <= 0x8F then Two else Bad
    case Bad => Bad
  }

  function Run(st: State, s: Bytes): State
    decreases |s|
  {
    if s == [] then st else Run(Next(st, s[0]), s[1..])
  }

  lemma {:induction false} RunBad(s: Bytes)
    ensures Run(Bad, s) == Bad
    decreases |s|
  {
    if s != [] {
      RunBad(s[1..]);
    }
  }

  lemma {:induction false} RunAppend(st: State, a: Bytes, b: Bytes)
    ensures Run(st, a + b) == Run(Run(st, a), b)
    decreases |a|
  {
    if a == [] {
      assert a + b == b;
    } else {
      assert (a + b)[1..] == a[1..] + b;
      RunAppend(Next(st, a[0]), a[1..], b);
    }
  }

  lemma RunTwo(st: State, s: Bytes)
    requires |s| >= 2
    ensures Run(st, s) == Run(Next(Next(st, s[0]), s[1]), s[2..])
  {
    assert s[1..][1..] == s[2..];
  }

  /** The automaton accepts exactly the well-formed strings. */
  lemma {:induction false} AutomatonIsGrammar(s: Bytes)
    ensures Valid(s) <==> Run(Start, s) == Start
    decreases |s|
  {
    if s != [] {
      var n := CharLength(s);
      if n > 0 {
        AutomatonIsGrammar(s[n..]);
        CharRun(s);
      } else {
        NoCharRun(s);
      }
    }
  }

  lemma CharRun(s: Bytes)
    requires CharLength(s) > 0
    ensures Run(Start, s) == Run(Start, s[CharLength(s)..])
  {
    var n := CharLength(s);
    if n >= 2 {
      RunTwo(Start, s);
      if n == 3 {
        assert s[2..][0] == s[2] && s[2..][1..] == s[3..];
      } else if n == 4 {
        RunTwo(Next(Next(Start, s[0]), s[1]), s[2..]);
        assert s[2..][0] == s[2] && s[2..][1] == s[3] && s[2..][2..] == s[4..];
      }
    }
  }

  lemma NoCharRun(s: Bytes)
    requires s != [] && CharLength(s) == 0
    ensures Run(Start, s) != Start
  {
    var st := Next(Start, s[0]);
    if |s| == 1 {
      assert s[1..] == [];
    } else {
      RunTwo(Start, s);
      var st2 := Next(st, s[1]);
      if st2 == Bad {
        RunBad(s[2..]);
      } else if |s| == 2 {
        assert s[2..] == [];
      } else {
        var st3 := Next(st2, s[2]);
        assert s[2..][0] == s[2] && s[2..][1..] == s[3..];
        if st3 == Bad {
          RunBad(s[3..]);
        } else if |s| == 3 {
          assert s[3..] == [];
        } else {
          assert s[3..][0] == s[3] && s[3..][1..] == s[4..];
          assert Next(st3, s[3]) == Bad;
          RunBad(s[4..]);
        }
      }
    }
  }

  predicate AllAscii(s: Bytes) {
    forall k :: 0 <= k < |s| ==> s[k] <= 0x7F
  }

  lemma {:induction false} RunAscii(s: Bytes)
    requires AllAscii(s)
    ensures Run(Start, s) == Start
    decreases |s|
  {
    if s != [] {
      RunAscii(s[1..]);
    }
  }

  lemma MarkerRuns()
    ensures Run(Start, MARKER) == Start
  {
    hide Run;
    RunAscii(MARKER);
  }

  /** Before an ASCII byte or the end, an accepting run is between characters. */
  lemma RunBeforeAscii(st: State, s: Bytes)
    requires Run(st, s) == Start && (s == [] || s[0] <= 0x7F)
    ensures st == Start
  {
    if s != [] && st != Start {
      RunBad(s[1..]);
    }
  }

  /**
   A string can be cut next to an ASCII byte: if the byte before the cut is ASCII, or the byte after
   it is, both parts of a well-formed string are well formed.
   */
  lemma CutBesideAscii(a: Bytes, b: Bytes)
    requires Run(Start, a + b) == Start
    requires a == [] || b == [] || a[|a| - 1] <= 0x7F || b[0] <= 0x7F
    ensures Run(Start, a) == Start && Run(Start, b) == Start
  {
    RunAppend(Start, a, b);
    if b == [] || b[0] <= 0x7F {
      RunBeforeAscii(Run(Start, a), b);
    } else if a != [] {
      var front, last := a[..|a| - 1], a[|a| - 1];
      assert a == front + [last];
      RunAppend(Start, front, [last]);
      assert [last][1..] == [];
      assert Run(Start, a) == Next(Run(Start, front), last);
      if Run(Start, a) != Start {
        RunBad(b);
      }
    }
  }
}
