/** Powers of two, shifts, masks and bitwise or on unbounded unsigned numbers. */
module Bits {

  function Pow2(n: nat): (p: nat)
    ensures p >= 1
  {
    if n == 0 then 1 else 2 * Pow2(n - 1)
  }

  /** x >> n */
  function Shr(x: nat, n: nat): nat
  {
    if n == 0 then x else Shr(x / 2, n - 1)
  }

  /** x & (2^n - 1) */
  function LowBits(x: nat, n: nat): nat
  {
    if n == 0 then 0 else x % 2 + 2 * LowBits(x / 2, n - 1)
  }

  function Or(x: nat, y: nat): nat
    decreases x + y
  {
    if x == 0 && y == 0 then 0
    else (if x % 2 == 1 || y % 2 == 1 then 1 else 0) + 2 * Or(x / 2, y / 2)
  }

  /** A number is its high part shifted back, plus its low part. */
  lemma {:induction false} Split(x: nat, n: nat)
    ensures x == Shr(x, n) * Pow2(n) + LowBits(x, n)
    ensures LowBits(x, n) < Pow2(n)
  {
    if n > 0 {
      Split(x / 2, n - 1);
      MulTwo(Shr(x, n), Pow2(n - 1));
    }
  }

  /** Shifting n bits out leaves a number of a bits exactly when there were n + a bits. */
  lemma {:induction false} ShrBound(x: nat, n: nat, a: nat)
    ensures Shr(x, n) < Pow2(a) <==> x < Pow2(n + a)
  {
    if n > 0 {
      ShrBound(x / 2, n - 1, a);
    }
  }

  lemma {:induction false} ShrShr(x: nat, m: nat, n: nat)
    ensures Shr(Shr(x, m), n) == Shr(x, m + n)
  {
    if m > 0 {
      ShrShr(x / 2, m - 1, n);
    }
  }

  lemma ShrTwo(x: nat)
    ensures Shr(x, 2) == x / 4
  {
    assert Shr(x, 2) == Shr(x / 2, 1) == x / 2 / 2;
  }

  /** The shift counts the library uses on bytes and six-bit groups. */
  lemma ShrSmall(x: nat)
    ensures Shr(x, 2) == x / 4 && Shr(x, 4) == x / 16 && Shr(x, 6) == x / 64 && Shr(x, 8) == x / 256
    ensures Shr(x, 3) == x / 8 && Shr(x, 5) == x / 32
  {
    ShrShr(x, 2, 2);
    ShrShr(x, 4, 2);
    ShrShr(x, 6, 2);
    ShrTwo(x);
    ShrTwo(x / 4);
    ShrTwo(x / 16);
    ShrTwo(x / 64);
    ShrShr(x, 2, 1);
    ShrShr(x, 4, 1);
  }

  lemma MulTwo(x: int, y: int)
    ensures x * (2 * y) == 2 * (x * y)
  {
  }

  /** Or of a number whose low n bits are clear with a number of n bits is their sum. */
  lemma {:induction false} OrIsSum(n: nat, x: nat, y: nat)
    requires y < Pow2(n)
    ensures x * Pow2(n) >= 0 && Or(x * Pow2(n), y) == x * Pow2(n) + y
  {
    if n == 0 {
      OrZero(x);
    } else {
      MulTwo(x, Pow2(n - 1));
      OrIsSum(n - 1, x, y / 2);
      OrEven(x * Pow2(n - 1), y);
    }
  }

  lemma OrEven(half: nat, y: nat)
    ensures Or(2 * half, y) == 2 * Or(half, y / 2) + y % 2
  {
  }

  lemma {:induction false} OrZero(x: nat)
    ensures Or(x, 0) == x
  {
    if x > 0 {
      OrZero(x / 2);
    }
  }

  lemma {:induction false} Pow2Add(m: nat, n: nat)
    ensures Pow2(m + n) == Pow2(m) * Pow2(n)
  {
    if m > 0 {
      Pow2Add(m - 1, n);
      MulTwo(Pow2(n), Pow2(m - 1));
    }
  }

  lemma DivModUnique(x: int, m: int, q: int, r: int)
    requires m > 0 && 0 <= r < m && x == q * m + r
    ensures x / m == q && x % m == r
  {
    var q', r' := x / m, x % m;
    assert x == q' * m + r';
    QuotientUnique(m, q, r, q', r');
  }

  lemma QuotientUnique(m: int, q: int, r: int, q': int, r': int)
    requires 0 <= r < m && 0 <= r' < m && q * m + r == q' * m + r'
    ensures q == q' && r == r'
  {
    if q' <= q - 1 {
      MulMono(q', q - 1, m);
    } else if q <= q' - 1 {
      MulMono(q, q' - 1, m);
    }
  }

  lemma MulMono(a: int, b: int, m: int)
    requires a <= b && m >= 0
    ensures a * m <= b * m
  {
    assert 0 <= (b - a) * m;
  }
}
