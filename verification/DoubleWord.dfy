/**
 The generic C double-word macros of longlong.h.

 A word has an even number of bits, 2*h, and a half word has h of them; every
 result below holds for every h > 0.  `Base(h)` is the half-word base __ll_B
 and `Word(h)` the number of values a UWtype can hold.  All the arithmetic that
 the macros leave to C's unsigned wrap-around is written out as `Wrap`.
 */
module DoubleWord {

  import opened Bits

  /** __ll_B */
  function Base(h: nat): (b: nat) { Pow2(h) }

  /** The number of distinct values of a UWtype. */
  function Word(h: nat): nat { Pow2(h + h) }

  predicate IsWord(h: nat, x: int) { 0 <= x < Word(h) }

  /** What C stores when the mathematical value of an unsigned expression is x. */
  function Wrap(h: nat, x: int): (w: nat)
    ensures w < Word(h)
    ensures 0 <= x < Word(h) ==> w == x
    ensures Word(h) <= x < 2 * Word(h) ==> w == x - Word(h)
    ensures x < 0 <= x + Word(h) ==> w == x + Word(h)
    decreases x < 0, if x < 0 then -x else x
  {
    if x < 0 then Wrap(h, x + Word(h)) else if x >= Word(h) then Wrap(h, x - Word(h)) else x
  }

  /** __ll_lowpart */
  function Low(h: nat, x: nat): nat { LowBits(x, h) }

  /** __ll_highpart */
  function High(h: nat, x: nat): nat { Shr(x, h) }

  /** The number a pair of words stands for. */
  function Pair(h: nat, high: int, low: int): int { high * Word(h) + low }

  /** The wrap-around keeps the value modulo the word. */
  lemma {:induction false} WrapIsMod(h: nat, x: int)
    ensures Wrap(h, x) == x % Word(h)
    decreases x < 0, if x < 0 then -x else x
  {
    var m := Word(h);
    if x < 0 {
      WrapIsMod(h, x + m);
      ModShift(x, m);
    } else if x >= m {
      WrapIsMod(h, x - m);
      ModShift(x - m, m);
    } else {
      DivModUnique(x, m, 0, x);
    }
  }

  lemma ModShift(x: int, m: int)
    requires m > 0
    ensures (x + m) % m == x % m
  {
    var q, r := x / m, x % m;
    assert x == q * m + r;
    assert x + m == (q + 1) * m + r;
    DivModUnique(x + m, m, q + 1, r);
  }

  lemma SplitWord(h: nat, x: nat)
    requires IsWord(h, x)
    ensures x == High(h, x) * Base(h) + Low(h, x)
    ensures High(h, x) < Base(h) && Low(h, x) < Base(h)
  {
    Split(x, h);
    Pow2Add(h, h);
    if High(h, x) >= Base(h) {
      MulMono(Base(h), High(h, x), Base(h));
    }
  }

  // ----- add_ssaaaa and sub_ddmmss -----

  /** The sum of two double words, with a carry out of at most one lost. */
  method AddSsaaaa(h: nat, ah: nat, al: nat, bh: nat, bl: nat) returns (sh: nat, sl: nat)
    requires IsWord(h, ah) && IsWord(h, al) && IsWord(h, bh) && IsWord(h, bl)
    ensures IsWord(h, sh) && IsWord(h, sl)
    ensures exists carry :: 0 <= carry <= 1
              && Pair(h, ah, al) + Pair(h, bh, bl) == Pair(h, sh, sl) + carry * (Word(h) * Word(h))
  {
    var x := Wrap(h, al + bl);
    sh := Wrap(h, ah + bh + (if x < al then 1 else 0));
    sl := x;
    ghost var carryLow := if al + bl < Word(h) then 0 else 1;
    ghost var carry := if ah + bh + carryLow < Word(h) then 0 else 1;
    AddIdentity(Word(h), ah, al, bh, bl, carryLow, carry, sh, sl);
  }

  lemma AddIdentity(m: int, ah: int, al: int, bh: int, bl: int, carryLow: int, carry: int, sh: int, sl: int)
    requires al + bl == sl + (if carryLow == 0 then 0 else if carryLow == 1 then m else -m)
    requires ah + bh + carryLow == sh + (if carry == 0 then 0 else if carry == 1 then m else -m)
    requires -1 <= carryLow <= 1 && -1 <= carry <= 1
    ensures (ah * m + al) + (bh * m + bl) == (sh * m + sl) + carry * (m * m)
  {
    assert (ah + bh + carryLow) * m == ah * m + bh * m + carryLow * m;
    assert (sh + carry * m) * m == sh * m + carry * (m * m);
  }

  /** The difference of two double words, with a borrow of at most one lost. */
  method SubDdmmss(h: nat, ah: nat, al: nat, bh: nat, bl: nat) returns (sh: nat, sl: nat)
    requires IsWord(h, ah) && IsWord(h, al) && IsWord(h, bh) && IsWord(h, bl)
    ensures IsWord(h, sh) && IsWord(h, sl)
    ensures exists borrow :: 0 <= borrow <= 1
              && Pair(h, ah, al) - Pair(h, bh, bl) == Pair(h, sh, sl) - borrow * (Word(h) * Word(h))
  {
    var x := Wrap(h, al - bl);
    sh := Wrap(h, ah - bh - (if x > al then 1 else 0));
    sl := x;
    ghost var borrowLow := if al < bl then 1 else 0;
    ghost var borrow := if ah - bh - borrowLow < 0 then 1 else 0;
    SubIdentity(Word(h), ah, al, bh, bl, borrowLow, borrow, sh, sl);
  }

  lemma SubIdentity(m: int, ah: int, al: int, bh: int, bl: int, borrowLow: int, borrow: int, sh: int, sl: int)
    requires al - bl == sl - (if borrowLow == 0 then 0 else m)
    requires ah - bh - borrowLow == sh - (if borrow == 0 then 0 else m)
    requires 0 <= borrowLow <= 1 && 0 <= borrow <= 1
    ensures (ah * m + al) - (bh * m + bl) == (sh * m + sl) - borrow * (m * m)
  {
    AddIdentity(m, ah, al, -bh, -bl, -borrowLow, -borrow, sh, sl);
  }

  /** Two pairs of words that agree modulo the double word are the same pair. */
  lemma PairUnique(m: nat, sh: nat, sl: nat, th: nat, tl: nat, k: int)
    requires sh < m && sl < m && th < m && tl < m
    requires sh * m + sl == th * m + tl + k * (m * m)
    ensures k == 0 && sh == th && sl == tl
  {
    assert k * (m * m) == (k * m) * m;
    assert sh * m + sl == (th + k * m) * m + tl;
    QuotientUnique(m, sh, sl, th + k * m, tl);
    QuotientUnique(m, 0, sh, k, th);
  }

  /** Subtracting what was added gives back the very same two words, whatever wrapped. */
  method AddThenSub(h: nat, ah: nat, al: nat, bh: nat, bl: nat) returns (dh: nat, dl: nat)
    requires IsWord(h, ah) && IsWord(h, al) && IsWord(h, bh) && IsWord(h, bl)
    ensures dh == ah && dl == al
  {
    var sh, sl := AddSsaaaa(h, ah, al, bh, bl);
    dh, dl := SubDdmmss(h, sh, sl, bh, bl);
    Recovered(h, ah, al, bh, bl, sh, sl, dh, dl);
  }

  lemma Recovered(h: nat, ah: nat, al: nat, bh: nat, bl: nat, sh: nat, sl: nat, dh: nat, dl: nat)
    requires IsWord(h, ah) && IsWord(h, al) && IsWord(h, dh) && IsWord(h, dl)
    requires exists carry :: 0 <= carry <= 1
               && Pair(h, ah, al) + Pair(h, bh, bl) == Pair(h, sh, sl) + carry * (Word(h) * Word(h))
    requires exists borrow :: 0 <= borrow <= 1
               && Pair(h, sh, sl) - Pair(h, bh, bl) == Pair(h, dh, dl) - borrow * (Word(h) * Word(h))
    ensures dh == ah && dl == al
  {
    var mm := Word(h) * Word(h);
    var carry :| 0 <= carry <= 1 && Pair(h, ah, al) + Pair(h, bh, bl) == Pair(h, sh, sl) + carry * mm;
    var borrow :| 0 <= borrow <= 1 && Pair(h, sh, sl) - Pair(h, bh, bl) == Pair(h, dh, dl) - borrow * mm;
    assert Pair(h, dh, dl) == Pair(h, ah, al) + (borrow - carry) * mm;
    PairUnique(Word(h), dh, dl, ah, al, borrow - carry);
  }

  // ----- umul_ppmm -----

  /** A product of two half words, plus two more half words, still fits in a word. */
  lemma HalfProduct(h: nat, a: nat, b: nat)
    requires a < Base(h) && b < Base(h)
    ensures 0 <= a * b && a * b + 2 * (Base(h) - 1) < Word(h)
  {
    Pow2Add(h, h);
    HalfProductBound(Base(h), a, b);
  }

  lemma HalfProductBound(n: nat, a: nat, b: nat)
    requires a < n && b < n
    ensures 0 <= a * b && a * b + 2 * (n - 1) < n * n
  {
    MulMono(a, n - 1, b);
    MulMono(b, n - 1, n - 1);
    assert (n - 1) * b == b * (n - 1);
    assert (n - 1) * (n - 1) == n * n - 2 * n + 1;
    MulMono(0, a, b);
  }

  method UmulPpmm(h: nat, u: nat, v: nat) returns (w1: nat, w0: nat)
    requires IsWord(h, u) && IsWord(h, v)
    ensures IsWord(h, w1) && IsWord(h, w0)
    ensures Pair(h, w1, w0) == u * v
  {
    var b := Base(h);
    var ul, uh, vl, vh := Low(h, u), High(h, u), Low(h, v), High(h, v);
    SplitWord(h, u);
    SplitWord(h, v);
    HalfProduct(h, ul, vl);
    HalfProduct(h, ul, vh);
    HalfProduct(h, uh, vl);
    HalfProduct(h, uh, vh);
    var x0, x1, x2, x3 := Wrap(h, ul * vl), Wrap(h, ul * vh), Wrap(h, uh * vl), Wrap(h, uh * vh);
    SplitWord(h, x0);
    x1 := Wrap(h, x1 + High(h, x0));
    ghost var mid := x1 + x2;
    x1 := Wrap(h, x1 + x2);
    if x1 < x2 {
      x3 := Wrap(h, x3 + b);
    }
    SplitWord(h, x1);
    ghost var carry := if mid < Word(h) then 0 else 1;
    ProductTop(h, u, v, ul, uh, vl, vh, High(h, x0), Low(h, x0), mid, carry, High(h, x1), Low(h, x1));
    w1 := Wrap(h, x3 + High(h, x1));
    w0 := Wrap(h, Wrap(h, Low(h, x1) * b) + Low(h, x0));
  }

  /** The schoolbook identity behind the macro, and that its top word does not overflow. */
  lemma ProductTop(h: nat, u: nat, v: nat, ul: nat, uh: nat, vl: nat, vh: nat, x0h: nat, x0l: nat,
                   mid: nat, carry: nat, x1h: nat, x1l: nat)
    requires IsWord(h, u) && IsWord(h, v)
    requires u == uh * Base(h) + ul && v == vh * Base(h) + vl
    requires ul * vl == x0h * Base(h) + x0l
    requires mid == ul * vh + x0h + uh * vl
    requires mid == (if carry == 0 then 0 else Word(h)) + (x1h * Base(h) + x1l) && carry <= 1
    requires x1l < Base(h) && x0l < Base(h)
    ensures var top := uh * vh + (if carry == 0 then 0 else Base(h)) + x1h;
            IsWord(h, top) && Pair(h, top, x1l * Base(h) + x0l) == u * v
    ensures 0 <= x1l * Base(h) <= x1l * Base(h) + x0l < Word(h)
  {
    var b := Base(h);
    Pow2Add(h, h);
    MulDecompose(b, ul, uh, vl, vh, x0h, x0l, mid, carry, x1h, x1l);
    LowWord(b, x1l, x0l);
    TopWord(b * b, uh * vh + carry * b + x1h, x1l * b + x0l, u, v);
  }

  lemma LowWord(b: nat, high: nat, low: nat)
    requires high < b && low < b
    ensures 0 <= high * b <= high * b + low < b * b
  {
    MulMono(high, b - 1, b);
    MulMono(0, high, b);
  }

  lemma MulDecompose(b: int, ul: int, uh: int, vl: int, vh: int, x0h: int, x0l: int,
                     mid: int, carry: int, x1h: int, x1l: int)
    requires ul * vl == x0h * b + x0l
    requires mid == ul * vh + x0h + uh * vl == carry * (b * b) + x1h * b + x1l
    ensures (uh * vh + carry * b + x1h) * (b * b) + (x1l * b + x0l) == (uh * b + ul) * (vh * b + vl)
  {
    MulExpand(b, ul, uh, vl, vh);
    MulExpand(b, x1l, carry * b + x1h, 0, 1);
    assert (carry * b + x1h) * b + x1l == mid;
    assert ((carry * b + x1h) * b + x1l) * b == (carry * b + x1h) * (b * b) + x1l * b;
    assert (ul * vh + x0h + uh * vl) * b == (ul * vh) * b + x0h * b + (uh * vl) * b;
  }

  lemma MulExpand(b: int, ul: int, uh: int, vl: int, vh: int)
    ensures (uh * b + ul) * (vh * b + vl)
         == (uh * vh) * (b * b) + (ul * vh) * b + (uh * vl) * b + ul * vl
  {
    calc {
      (uh * b + ul) * (vh * b + vl);
      (uh * b) * (vh * b) + ul * (vh * b) + (uh * b) * vl + ul * vl;
      { assert (uh * b) * (vh * b) == (uh * vh) * (b * b); }
      (uh * vh) * (b * b) + (ul * vh) * b + (uh * vl) * b + ul * vl;
    }
  }

  lemma TopWord(m: nat, full: int, low: nat, u: nat, v: nat)
    requires u < m && v < m && low < m
    requires full * m + low == u * v
    ensures 0 <= full < m
  {
    HalfProductBound(m, u, v);
    if full >= m {
      MulMono(m, full, m);
    } else if full <= -1 {
      MulMono(full, -1, m);
    }
  }

  // ----- __udiv_qrnnd_c -----

  /** The divisor has its top bit set. */
  predicate Normalised(h: nat, d: nat) { IsWord(h, d) && Word(h) <= 2 * d }

  /** How far the estimate n1/d1 can be from the digit: at most two too large, never too small. */
  lemma EstimateBounds(b: nat, d1: nat, d0: nat, n1: nat, nh: nat, q: nat, r: nat)
    requires b >= 2 && 1 <= d1 < b && d0 < b && nh < b
    requires b * b <= 2 * (d1 * b + d0)
    requires n1 < d1 * b + d0
    requires n1 == q * d1 + r && r < d1
    ensures 0 <= q * d0 < b * b
    ensures r * b + nh < d1 * b
    ensures r * b + nh - q * d0 + 2 * (d1 * b + d0) >= 0
    ensures 0 <= r * b && r * b + nh < b * b
  {
    TopHalfBound(b, d1, d0);
    EstimateCap(b, d1, d0, q);
    MulMono(q, b + 1, d0);
    MulMono(d0, b - 1, b + 1);
    assert (b + 1) * d0 == d0 * (b + 1);
    assert (b - 1) * (b + 1) == b * b - 1;
    MulMono(0, q, d0);
    MulMono(r, d1 - 1, b);
    assert (d1 - 1) * b == d1 * b - b;
    MulMono(d1, b, b);
    MulMono(0, r, b);
  }

  lemma TopHalfBound(b: nat, d1: nat, d0: nat)
    requires b >= 2 && d0 < b && b * b <= 2 * (d1 * b + d0)
    ensures b - 1 <= 2 * d1 && d1 >= 1
  {
    if 2 * d1 <= b - 2 {
      MulMono(2 * d1, b - 2, b);
    }
  }

  lemma EstimateCap(b: nat, d1: nat, d0: nat, q: nat)
    requires d0 < b && b - 1 <= 2 * d1 && d1 >= 1
    requires q * d1 < d1 * b + d0
    ensures q <= b + 1
  {
    if q >= b + 2 {
      MulMono(b + 2, q, d1);
    }
  }

  /** With a remainder in range, the digit is a half word. */
  lemma DigitBound(b: nat, d: nat, n1: nat, nh: nat, q: int, r: int)
    requires n1 < d && nh < b && 0 <= r < d
    requires q * d + r == n1 * b + nh
    ensures 0 <= q < b
  {
    MulMono(n1, d - 1, b);
    assert (d - 1) * b == b * d - b;
    MulMono(0, n1, b);
    if q >= b {
      MulMono(b, q, d);
    } else if q <= -1 {
      MulMono(q, -1, d);
    }
  }

  /**
   The correction block: the estimate with its partial remainder (partial - m, which may be
   negative by up to 2*d) becomes the digit.  That the first addition of d wraps is exactly
   what tells that no second correction is due; the second addition and the final
   subtraction may wrap too, and cancel.
   */
  method Settle(h: nat, estimate: nat, partial: nat, m: nat, d: nat, ghost total: int) returns (q: int, r: nat)
    requires IsWord(h, partial) && IsWord(h, m) && Normalised(h, d)
    requires estimate * d + (partial - m) == total
    requires -2 * d <= partial - m < d
    ensures r < d && q * d + r == total
  {
    var q1: int, r1 := estimate, partial;
    if r1 < m {
      q1, r1 := q1 - 1, Wrap(h, r1 + d);
      if r1 >= d {
        if r1 < m {
          q1, r1 := q1 - 1, Wrap(h, r1 + d);
        }
      }
    }
    Corrected(estimate, d, partial - m, total);
    q, r := q1, Wrap(h, r1 - m);
  }

  lemma Corrected(q: int, d: int, exact: int, total: int)
    requires q * d + exact == total
    ensures (q - 1) * d + (exact + d) == total
    ensures (q - 2) * d + (exact + 2 * d) == total
  {
  }

  /** One of the two identical halves of the macro: divide n1*B + nh by d. */
  method DivStep(h: nat, n1: nat, nh: nat, d: nat) returns (q: nat, r: nat)
    requires h > 0 && Normalised(h, d) && n1 < d && nh < Base(h)
    ensures q < Base(h) && r < d
    ensures q * d + r == n1 * Base(h) + nh
  {
    var b := Base(h);
    HighBounds(h, d);
    var d1, d0 := High(h, d), Low(h, d);
    DivMod(n1, d1);
    var q1, r1 := n1 / d1, n1 % d1;
    Estimate(h, n1, nh, d, d1, d0, q1, r1);
    var m := Wrap(h, q1 * d0);
    var partial := Or(Wrap(h, r1 * b), nh);
    var digit: int;
    digit, r := Settle(h, q1, partial, m, d, n1 * b + nh);
    DigitBound(b, d, n1, nh, digit, r);
    q := digit;
  }

  lemma HighBounds(h: nat, d: nat)
    requires h > 0 && Normalised(h, d)
    ensures 1 <= High(h, d) < Base(h) && Low(h, d) < Base(h)
    ensures d == High(h, d) * Base(h) + Low(h, d)
  {
    SplitWord(h, d);
    Pow2Add(h, h);
    TopHalfBound(Base(h), High(h, d), Low(h, d));
  }

  /** What dividing by the top half of the divisor gives, in unbounded arithmetic. */
  lemma Estimate(h: nat, n1: nat, nh: nat, d: nat, d1: nat, d0: nat, q: nat, r: nat)
    requires h > 0 && Normalised(h, d) && n1 < d && nh < Base(h)
    requires 1 <= d1 < Base(h) && d0 < Base(h) && d == d1 * Base(h) + d0
    requires n1 == q * d1 + r && r < d1
    ensures 0 <= q * d0 && IsWord(h, q * d0)
    ensures 0 <= r * Base(h) && Or(Wrap(h, r * Base(h)), nh) == r * Base(h) + nh && IsWord(h, r * Base(h) + nh)
    ensures q * d + (r * Base(h) + nh - q * d0) == n1 * Base(h) + nh
    ensures -2 * d <= r * Base(h) + nh - q * d0 < d
  {
    var b := Base(h);
    Pow2Add(h, h);
    assert b == 2 * Pow2(h - 1);
    EstimateBounds(b, d1, d0, n1, nh, q, r);
    DivIdentity(b, d1, d0, d, n1, nh, q, r);
    OrIsSum(h, r, nh);
  }

  lemma DivMod(x: nat, d: nat)
    requires d > 0
    ensures x == (x / d) * d + x % d && 0 <= x / d && 0 <= x % d < d
  {
  }

  lemma DivIdentity(b: int, d1: int, d0: int, d: int, n1: int, nh: int, q: int, r: int)
    requires d == d1 * b + d0 && n1 == q * d1 + r
    ensures q * d + (r * b + nh - q * d0) == n1 * b + nh
  {
    assert q * d == (q * d1) * b + q * d0;
    assert n1 * b == (q * d1) * b + r * b;
  }

  method UdivQrnndC(h: nat, n1: nat, n0: nat, d: nat) returns (q: nat, r: nat)
    requires h > 0 && Normalised(h, d) && n1 < d && IsWord(h, n0)
    ensures IsWord(h, q) && r < d
    ensures q * d + r == Pair(h, n1, n0)
  {
    var b := Base(h);
    SplitWord(h, n0);
    var q1, r1 := DivStep(h, n1, High(h, n0), d);
    var q0, r0 := DivStep(h, r1, Low(h, n0), d);
    JoinWord(h, q1, q0);
    JoinDigits(h, d, n1, High(h, n0), Low(h, n0), q1, r1, q0, r0);
    q := Or(Wrap(h, q1 * b), q0);
    r := r0;
  }

  lemma JoinWord(h: nat, q1: nat, q0: nat)
    requires q1 < Base(h) && q0 < Base(h)
    ensures 0 <= q1 * Base(h) && Or(Wrap(h, q1 * Base(h)), q0) == q1 * Base(h) + q0 && IsWord(h, q1 * Base(h) + q0)
  {
    Pow2Add(h, h);
    LowWord(Base(h), q1, q0);
    OrIsSum(h, q1, q0);
  }

  lemma JoinDigits(h: nat, d: int, n1: int, nh: int, nl: int, q1: int, r1: int, q0: int, r0: int)
    requires q1 * d + r1 == n1 * Base(h) + nh && q0 * d + r0 == r1 * Base(h) + nl
    ensures (q1 * Base(h) + q0) * d + r0 == Pair(h, n1, nh * Base(h) + nl)
  {
    Pow2Add(h, h);
    JoinIdentity(Base(h), d, n1, nh, nl, q1, r1, q0, r0);
  }

  lemma JoinIdentity(b: int, d: int, n1: int, nh: int, nl: int, q1: int, r1: int, q0: int, r0: int)
    requires q1 * d + r1 == n1 * b + nh && q0 * d + r0 == r1 * b + nl
    ensures (q1 * b + q0) * d + r0 == n1 * (b * b) + (nh * b + nl)
  {
    calc {
      (q1 * b + q0) * d + r0;
      (q1 * d) * b + q0 * d + r0;
      (q1 * d + r1) * b + nl;
      (n1 * b + nh) * b + nl;
      n1 * (b * b) + (nh * b + nl);
    }
  }

  /** Multiplying and dividing back recovers the factor exactly. */
  method MulThenDiv(h: nat, u: nat, d: nat) returns (q: nat, r: nat)
    requires h > 0 && Normalised(h, d) && IsWord(h, u)
    ensures q == u && r == 0
  {
    var w1, w0 := UmulPpmm(h, u, d);
    HighBelowDivisor(Word(h), u, d, w1, w0);
    q, r := UdivQrnndC(h, w1, w0, d);
    QuotientUnique(d, q, r, u, 0);
  }

  lemma HighBelowDivisor(m: nat, u: nat, d: nat, w1: nat, w0: nat)
    requires u < m && w1 * m + w0 == u * d
    ensures w1 < d || d == 0
  {
    if w1 >= d > 0 {
      MulMono(d, w1, m);
      MulMono(u, m - 1, d);
    }
  }
}
