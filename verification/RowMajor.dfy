/**
 Row-major addressing without products. `Index` and `Area` are `y * w + x` and `w * h` counted row
 by row, and `Row` and `Col` are the quotient and remainder that invert `Index`; defining them by
 recursion keeps nonlinear arithmetic out of the proofs about pixel loops.
 */
module RowMajor {

  function Index(x: nat, y: nat, w: nat): nat {
    if y == 0 then x else w + Index(x, y - 1, w)
  }

  function Area(w: nat, h: nat): nat {
    if h == 0 then 0 else w + Area(w, h - 1)
  }

  function Row(p: nat, w: nat): nat
    requires w > 0
  {
    if p < w then 0 else 1 + Row(p - w, w)
  }

  function Col(p: nat, w: nat): (c: nat)
    requires w > 0
    ensures c < w
  {
    if p < w then p else Col(p - w, w)
  }

  lemma {:induction false} IndexIsProduct(x: nat, y: nat, w: nat)
    ensures Index(x, y, w) == y * w + x
    decreases y
  {
    if y > 0 {
      IndexIsProduct(x, y - 1, w);
    }
  }

  lemma {:induction false} AreaIsProduct(w: nat, h: nat)
    ensures Area(w, h) == w * h
    decreases h
  {
    if h > 0 {
      AreaIsProduct(w, h - 1);
    }
  }

  lemma AreaCommutes(w: nat, h: nat)
    ensures Area(w, h) == Area(h, w)
  {
    AreaIsProduct(w, h);
    AreaIsProduct(h, w);
  }

  lemma {:induction false} IndexOffset(x: nat, y: nat, w: nat)
    ensures Index(x, y, w) == Index(0, y, w) + x
    decreases y
  {
    if y > 0 {
      IndexOffset(x, y - 1, w);
    }
  }

  lemma {:induction false} IndexInvert(x: nat, y: nat, w: nat)
    requires x < w
    ensures Row(Index(x, y, w), w) == y && Col(Index(x, y, w), w) == x
    decreases y
  {
    if y > 0 {
      IndexInvert(x, y - 1, w);
    }
  }

  lemma {:induction false} IndexInArea(x: nat, y: nat, w: nat, h: nat)
    requires x <= w && y < h
    ensures Index(x, y, w) <= Index(0, y, w) + w <= Area(w, h)
    ensures x < w ==> Index(x, y, w) < Area(w, h)
    decreases y
  {
    if y > 0 {
      IndexInArea(x, y - 1, w, h - 1);
    }
  }

  lemma {:induction false} IndexCovers(p: nat, w: nat, h: nat)
    requires p < Area(w, h)
    ensures w > 0 && Row(p, w) < h && Index(Col(p, w), Row(p, w), w) == p
    decreases h
  {
    if w == 0 {
      AreaIsProduct(w, h);
    } else if p >= w {
      IndexCovers(p - w, w, h - 1);
    }
  }

  /** A row is a contiguous range of indices. */
  lemma {:induction false} RowRange(p: nat, y: nat, w: nat)
    requires w > 0
    ensures Row(p, w) == y <==> Index(0, y, w) <= p < Index(0, y, w) + w
    ensures Row(p, w) < y <==> p < Index(0, y, w)
    ensures Row(p, w) == y ==> Col(p, w) == p - Index(0, y, w)
    decreases y
  {
    if y == 0 {
    } else if p >= w {
      RowRange(p - w, y - 1, w);
    } else {
      IndexOffset(0, y, w);
    }
  }
}
