/**
 What every redaction pass does to a record: it keeps some stretches and shows a marker for others.

 A pass is described by pieces. `Hidden` pieces carry what they hide and what they show, so the
 record is `Before(pieces)` and the pass's output is `After(pieces)`; everything in `Kept` pieces
 is copied unchanged and in order.
 */
module Masking {
  import opened Basics
  import opened Text

  datatype Piece = Kept(bytes: Bytes) | Hidden(secret: Bytes, shown: Bytes)

  function Before(pieces: seq<Piece>): Bytes {
    if pieces == [] then []
    else (if pieces[0].Kept? then pieces[0].bytes else pieces[0].secret) + Before(pieces[1..])
  }

  function After(pieces: seq<Piece>): Bytes {
    if pieces == [] then []
    else (if pieces[0].Kept? then pieces[0].bytes else pieces[0].shown) + After(pieces[1..])
  }

  function Seen(p: Piece): Bytes {
    if p.Kept? then p.bytes else p.shown
  }

  function Original(p: Piece): Bytes {
    if p.Kept? then p.bytes else p.secret
  }

  lemma OnePiece(p: Piece)
    ensures Before([p]) == Original(p) && After([p]) == Seen(p)
  {
    assert [p][1..] == [];
  }

  lemma PieceFirst(p: Piece, rest: seq<Piece>)
    ensures Before([p] + rest) == Original(p) + Before(rest) && After([p] + rest) == Seen(p) + After(rest)
  {
    assert ([p] + rest)[1..] == rest;
  }

  lemma FirstPiece(pieces: seq<Piece>)
    requires pieces != []
    ensures Before(pieces) == Original(pieces[0]) + Before(pieces[1..])
    ensures After(pieces) == Seen(pieces[0]) + After(pieces[1..])
  {
  }

  lemma NothingMasked()
    ensures Before([]) == [] && After([]) == []
  {
  }

  lemma {:induction false} PiecesAppend(a: seq<Piece>, b: seq<Piece>)
    ensures Before(a + b) == Before(a) + Before(b) && After(a + b) == After(a) + After(b)
    decreases |a|
  {
    hide *;
    NothingMasked();
    if a == [] {
      assert a + b == b && [] + Before(b) == Before(b) && [] + After(b) == After(b);
    } else {
      PiecesAppend(a[1..], b);
      FirstPiece(a);
      assert a + b == [a[0]] + (a[1..] + b);
      PieceFirst(a[0], a[1..] + b);
      Associates(Original(a[0]), Before(a[1..]), Before(b));
      Associates(Seen(a[0]), After(a[1..]), After(b));
    }
  }

  lemma KeptFirst(pieces: seq<Piece>, kept: Bytes)
    requires pieces != [] && pieces[0].Kept?
    ensures kept + After(pieces) == kept + pieces[0].bytes + After(pieces[1..])
    ensures kept + Before(pieces) == kept + pieces[0].bytes + Before(pieces[1..])
  {
    hide Before, After;
    FirstPiece(pieces);
    Associates(kept, pieces[0].bytes, After(pieces[1..]));
    Associates(kept, pieces[0].bytes, Before(pieces[1..]));
  }

  /** Laid over q at offset d, p agrees with q where they overlap. */
  predicate Fits(p: Bytes, q: Bytes, d: int) {
    forall k :: 0 <= k < |p| && 0 <= k + d < |q| ==> p[k] == q[k + d]
  }

  /** No occurrence of p can overlap an occurrence of q. */
  predicate Apart(p: Bytes, q: Bytes) {
    forall d :: -|p| < d < |q| ==> !Fits(p, q, d)
  }

  /** Strings without a common byte are apart. */
  lemma DisjointIsApart(p: Bytes, q: Bytes)
    requires p != [] && q != []
    requires forall i, j :: 0 <= i < |p| && 0 <= j < |q| ==> p[i] != q[j]
    ensures Apart(p, q)
  {
    forall d | -|p| < d < |q|
      ensures !Fits(p, q, d)
    {
      var k := if d < 0 then -d else 0;
      assert p[k] != q[k + d];
    }
  }

  /** Every marker shown is non-empty and no occurrence of p can overlap it. */
  predicate ShownAvoids(pieces: seq<Piece>, p: Bytes) {
    forall k :: 0 <= k < |pieces| && pieces[k].Hidden? ==> pieces[k].shown != [] && Apart(p, pieces[k].shown)
  }

  lemma OccursInAppend(p: Bytes, a: Bytes, b: Bytes)
    ensures Occurs(p, a) || Occurs(p, b) ==> Occurs(p, a + b)
  {
    if Occurs(p, a) {
      var i: nat :| i <= |a| && OccursAt(p, a, i);
      assert (a + b)[i..i + |p|] == a[i..i + |p|];
      assert OccursAt(p, a + b, i);
    } else if Occurs(p, b) {
      var i: nat :| i <= |b| && OccursAt(p, b, i);
      assert (a + b)[|a| + i..|a| + i + |p|] == b[i..i + |p|];
      assert OccursAt(p, a + b, |a| + i);
    }
  }

  /** An occurrence that overlaps the middle part agrees with it there. */
  lemma OverlapFits(p: Bytes, a: Bytes, middle: Bytes, b: Bytes, i: nat)
    requires OccursAt(p, a + middle + b, i) && |a| < i + |p| && i < |a| + |middle|
    ensures -|p| < i - |a| < |middle| && Fits(p, middle, i - |a|)
  {
    var s := a + middle + b;
    forall k | 0 <= k < |p| && 0 <= k + (i - |a|) < |middle|
      ensures p[k] == middle[k + (i - |a|)]
    {
      assert s[i..i + |p|][k] == s[i + k];
    }
  }

  /** A non-empty string apart from the marker occurs before it or behind it. */
  lemma OccursBesideMarker(p: Bytes, a: Bytes, marker: Bytes, b: Bytes)
    requires p != [] && marker != [] && Apart(p, marker) && Occurs(p, a + marker + b)
    ensures Occurs(p, a) || Occurs(p, b)
  {
    hide OccursAt, Fits;
    var s := a + marker + b;
    var i: nat :| i <= |s| && OccursAt(p, s, i);
    if i + |p| <= |a| {
      Associates(a, marker, b);
      OccursInFront(p, a, marker + b, i);
    } else if i >= |a| + |marker| {
      OccursBehind(p, a + marker, b, i);
    } else {
      OverlapFits(p, a, marker, b, i);
    }
  }

  lemma OccursInFront(p: Bytes, a: Bytes, b: Bytes, i: nat)
    requires OccursAt(p, a + b, i) && i + |p| <= |a|
    ensures Occurs(p, a)
  {
    assert (a + b)[i..i + |p|] == a[i..i + |p|];
    assert OccursAt(p, a, i);
  }

  lemma OccursBehind(p: Bytes, a: Bytes, b: Bytes, i: nat)
    requires OccursAt(p, a + b, i) && i >= |a|
    ensures Occurs(p, b)
  {
    var j := i - |a|;
    assert (a + b)[i..i + |p|] == b[j..j + |p|];
    assert OccursAt(p, b, j);
  }

  /**
   Masking reveals nothing: a string that cannot overlap the markers shown and occurs in the
   output already occurred in the record.
   */
  lemma {:induction false} MaskingRevealsNothing(pieces: seq<Piece>, p: Bytes, kept: Bytes)
    requires p != [] && ShownAvoids(pieces, p) && Occurs(p, kept + After(pieces))
    ensures Occurs(p, kept + Before(pieces))
    decreases |pieces|
  {
    hide Before, After, Occurs, Apart;
    NothingMasked();
    if pieces != [] {
      var rest := pieces[1..];
      match pieces[0]
      case Kept(bytes) =>
        KeptFirst(pieces, kept);
        MaskingRevealsNothing(rest, p, kept + bytes);
      case Hidden(secret, shown) =>
        FirstPiece(pieces);
        Associates(kept, shown, After(rest));
        OccursBesideMarker(p, kept, shown, After(rest));
        if Occurs(p, After(rest)) {
          assert [] + After(rest) == After(rest) && [] + Before(rest) == Before(rest);
          MaskingRevealsNothing(rest, p, []);
          OccursInAppend(p, secret, Before(rest));
        }
        OccursInAppend(p, kept, secret + Before(rest));
    }
  }

  lemma MaskedRecordRevealsNothing(pieces: seq<Piece>, p: Bytes)
    requires p != [] && ShownAvoids(pieces, p) && Occurs(p, After(pieces))
    ensures Occurs(p, Before(pieces))
  {
    assert [] + After(pieces) == After(pieces) && [] + Before(pieces) == Before(pieces);
    MaskingRevealsNothing(pieces, p, []);
  }
}
