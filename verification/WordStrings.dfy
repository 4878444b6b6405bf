/**
 The word-at-a-time string routines strlen, strcmp and strcpy (lib/strlen.c, lib/strcmp.c,
 lib/strcpy.c), on a 64-bit little-endian machine with signed char.

 Memory is a sequence of bytes indexed by address; address 0 is the null pointer and words
 lie at multiples of 8.  That every index below is in range is part of the proofs: with a
 memory that ends with the word holding the terminating NUL, nothing behind it is read.
 */
module WordStrings {

  const MAGIC: bv64 := 0x0101_0101_0101_0101

  // ----- words and their bytes -----

  /** GFC */
  function FirstByte(l: bv64): bv8 { (l & 0xff) as bv8 }

  /** A word after i shifts by INCSTR. */
  function Shifted(l: bv64, i: nat): bv64
  {
    if i == 0 then l else Shifted(l >> 8, i - 1)
  }

  /** Byte i of a little-endian word. */
  function ByteOf(l: bv64, i: nat): bv8 { FirstByte(Shifted(l, i)) }

  function Pack(b0: bv8, b1: bv8, b2: bv8, b3: bv8, b4: bv8, b5: bv8, b6: bv8, b7: bv8): bv64
  {
    (b0 as bv64) | ((b1 as bv64) << 8) | ((b2 as bv64) << 16) | ((b3 as bv64) << 24)
    | ((b4 as bv64) << 32) | ((b5 as bv64) << 40) | ((b6 as bv64) << 48) | ((b7 as bv64) << 56)
  }

  /** The eight bytes of a word, without recursion. */
  lemma EightBytes(l: bv64)
    ensures ByteOf(l, 0) == (l & 0xff) as bv8 && ByteOf(l, 1) == ((l >> 8) & 0xff) as bv8
    ensures ByteOf(l, 2) == ((l >> 16) & 0xff) as bv8 && ByteOf(l, 3) == ((l >> 24) & 0xff) as bv8
    ensures ByteOf(l, 4) == ((l >> 32) & 0xff) as bv8 && ByteOf(l, 5) == ((l >> 40) & 0xff) as bv8
    ensures ByteOf(l, 6) == ((l >> 48) & 0xff) as bv8 && ByteOf(l, 7) == ((l >> 56) & 0xff) as bv8
  {
    LowBytes(l);
    LowBytes(l >> 32);
    SkipFour(l, 0);
    SkipFour(l, 1);
    SkipFour(l, 2);
    SkipFour(l, 3);
    HighShifts(l);
  }

  lemma ShiftedZero(l: bv64)
    ensures Shifted(l, 0) == l
  {
  }

  lemma LowBytes(l: bv64)
    ensures ByteOf(l, 0) == (l & 0xff) as bv8 && ByteOf(l, 1) == ((l >> 8) & 0xff) as bv8
    ensures ByteOf(l, 2) == ((l >> 16) & 0xff) as bv8 && ByteOf(l, 3) == ((l >> 24) & 0xff) as bv8
  {
    hide Shifted;
    ShiftedZero(l);
    ShiftedStep(l, 0);
    ShiftedStep(l, 1);
    ShiftedStep(l, 2);
    LowShifts(l);
  }

  lemma SkipFour(l: bv64, i: nat)
    ensures ByteOf(l, i + 4) == ByteOf(l >> 32, i)
  {
    LowShifts(l);
    assert Shifted(l, i + 4) == Shifted(l >> 8, i + 3) == Shifted(l >> 16, i + 2);
    assert Shifted(l >> 16, i + 2) == Shifted(l >> 24, i + 1) == Shifted(l >> 32, i);
  }

  lemma LowShifts(l: bv64)
    ensures l >> 8 >> 8 == l >> 16 && l >> 16 >> 8 == l >> 24 && l >> 24 >> 8 == l >> 32
  {
  }

  lemma HighShifts(l: bv64)
    ensures l >> 32 >> 8 == l >> 40 && l >> 32 >> 16 == l >> 48 && l >> 32 >> 24 == l >> 56
  {
  }

  lemma {:induction false} ShiftedStep(l: bv64, i: nat)
    ensures Shifted(l, i + 1) == Shifted(l, i) >> 8
  {
    if i > 0 {
      ShiftedStep(l >> 8, i - 1);
    }
  }

  /** The test of all three loops: is some byte of the word zero? */
  function ZeroMask(word: bv64): bv64 { ((word - MAGIC) & !word) & (MAGIC << 7) }

  /** The mask is zero exactly when no byte of the word is. */
  lemma ZeroMaskCorrect(l: bv64)
    ensures ZeroMask(l) == 0 <==> forall i :: 0 <= i < 8 ==> ByteOf(l, i) != 0
  {
    EightBytes(l);
    ZeroMaskBits(l);
    assert (forall i :: 0 <= i < 8 ==> ByteOf(l, i) != 0) <==>
           ByteOf(l, 0) != 0 && ByteOf(l, 1) != 0 && ByteOf(l, 2) != 0 && ByteOf(l, 3) != 0
           && ByteOf(l, 4) != 0 && ByteOf(l, 5) != 0 && ByteOf(l, 6) != 0 && ByteOf(l, 7) != 0;
  }

  lemma ZeroMaskBits(l: bv64)
    ensures ZeroMask(l) == 0 <==>
            l & 0xff != 0 && (l >> 8) & 0xff != 0 && (l >> 16) & 0xff != 0 && (l >> 24) & 0xff != 0
            && (l >> 32) & 0xff != 0 && (l >> 40) & 0xff != 0 && (l >> 48) & 0xff != 0 && (l >> 56) & 0xff != 0
  {
  }

  /** strlen's way from the mask to the position of the lowest zero byte. */
  function ByteIndex(mask: bv64): bv64
  {
    var a := (mask - 1) & (MAGIC << 8);
    var b := a + (a << 32);
    var c := b + (b << 16);
    var d := c + (c << 8);
    d >> 56
  }

  /** Whatever the bytes behind it, the index found is that of the first zero byte. */
  lemma ByteIndexCorrect(l: bv64, k: nat)
    requires k < 8 && ByteOf(l, k) == 0 && forall i :: 0 <= i < k ==> ByteOf(l, i) != 0
    ensures ByteIndex(ZeroMask(l)) as nat == k
  {
    EightBytes(l);
    assert k > 0 ==> ByteOf(l, 0) != 0;
    assert k > 1 ==> ByteOf(l, 1) != 0;
    assert k > 2 ==> ByteOf(l, 2) != 0;
    assert k > 3 ==> ByteOf(l, 3) != 0;
    assert k > 4 ==> ByteOf(l, 4) != 0;
    assert k > 5 ==> ByteOf(l, 5) != 0;
    assert k > 6 ==> ByteOf(l, 6) != 0;
    ByteIndexBits(l);
  }

  lemma ByteIndexBits(l: bv64)
    ensures ZeroMask(l) != 0 ==>
            ByteIndex(ZeroMask(l)) ==
            if l & 0xff == 0 then 0 else if (l >> 8) & 0xff == 0 then 1 else if (l >> 16) & 0xff == 0 then 2
            else if (l >> 24) & 0xff == 0 then 3 else if (l >> 32) & 0xff == 0 then 4
            else if (l >> 40) & 0xff == 0 then 5 else if (l >> 48) & 0xff == 0 then 6 else 7
  {
  }

  /** A word is determined by its bytes. */
  lemma SameBytes(l1: bv64, l2: bv64)
    ensures l1 == l2 <==> forall i :: 0 <= i < 8 ==> ByteOf(l1, i) == ByteOf(l2, i)
  {
    EightBytes(l1);
    EightBytes(l2);
    assert (forall i :: 0 <= i < 8 ==> ByteOf(l1, i) == ByteOf(l2, i)) ==>
           ByteOf(l1, 0) == ByteOf(l2, 0) && ByteOf(l1, 1) == ByteOf(l2, 1) && ByteOf(l1, 2) == ByteOf(l2, 2)
           && ByteOf(l1, 3) == ByteOf(l2, 3) && ByteOf(l1, 4) == ByteOf(l2, 4) && ByteOf(l1, 5) == ByteOf(l2, 5)
           && ByteOf(l1, 6) == ByteOf(l2, 6) && ByteOf(l1, 7) == ByteOf(l2, 7);
  }

  /** Byte i of the string, or word, at p. */
  function At(mem: seq<bv8>, p: nat, i: nat): bv8
    requires p + i < |mem|
  {
    mem[p + i]
  }

  /** The word l holds the eight bytes at address t. */
  ghost predicate Spells(l: bv64, mem: seq<bv8>, t: nat)
  {
    t + 8 <= |mem| && forall i :: 0 <= i < 8 ==> ByteOf(l, i) == At(mem, t, i)
  }

  /** A load of the aligned little-endian word at t. */
  method LoadWord(mem: seq<bv8>, t: nat) returns (l: bv64)
    requires t % 8 == 0 && t + 8 <= |mem|
    ensures Spells(l, mem, t)
  {
    l := Pack(mem[t], mem[t + 1], mem[t + 2], mem[t + 3], mem[t + 4], mem[t + 5], mem[t + 6], mem[t + 7]);
    PackedBytes(mem[t], mem[t + 1], mem[t + 2], mem[t + 3], mem[t + 4], mem[t + 5], mem[t + 6], mem[t + 7]);
  }

  lemma PackedBytes(b0: bv8, b1: bv8, b2: bv8, b3: bv8, b4: bv8, b5: bv8, b6: bv8, b7: bv8)
    ensures var l := Pack(b0, b1, b2, b3, b4, b5, b6, b7);
            ByteOf(l, 0) == b0 && ByteOf(l, 1) == b1 && ByteOf(l, 2) == b2 && ByteOf(l, 3) == b3
            && ByteOf(l, 4) == b4 && ByteOf(l, 5) == b5 && ByteOf(l, 6) == b6 && ByteOf(l, 7) == b7
  {
    EightBytes(Pack(b0, b1, b2, b3, b4, b5, b6, b7));
  }

  // ----- strings -----

  /** There is a string of n bytes at address s. */
  ghost predicate IsString(mem: seq<bv8>, s: nat, n: nat)
  {
    s + n < |mem| && At(mem, s, n) == 0 && forall i :: 0 <= i < n ==> At(mem, s, i) != 0
  }

  /** ... and the aligned word that holds its NUL can be read. */
  ghost predicate IsReadable(mem: seq<bv8>, s: nat, n: nat)
  {
    IsString(mem, s, n) && (s + n) / 8 * 8 + 8 <= |mem|
  }

  lemma AlignedWithin(p: nat, end: nat, size: nat)
    requires p % 8 == 0 && p <= end && end / 8 * 8 + 8 <= size
    ensures p + 8 <= size && (p + 8) % 8 == 0
  {
  }

  /** A word inside a string has a zero byte exactly if it reaches the NUL, and then first there. */
  lemma WordReachesEnd(mem: seq<bv8>, s: nat, n: nat, l: bv64, at: nat)
    requires IsString(mem, s, n) && at <= n && Spells(l, mem, s + at)
    ensures ZeroMask(l) != 0 <==> n < at + 8
    ensures n < at + 8 ==> ByteOf(l, n - at) == 0 && forall i :: 0 <= i < n - at ==> ByteOf(l, i) != 0
  {
    ZeroMaskCorrect(l);
    forall i | 0 <= i < 8 && at + i <= n
      ensures ByteOf(l, i) == At(mem, s, at + i)
    {
      assert ByteOf(l, i) == At(mem, s + at, i);
    }
    if n < at + 8 {
      assert ByteOf(l, n - at) == At(mem, s, n) == 0;
    } else {
      assert forall i :: 0 <= i < 8 ==> ByteOf(l, i) != 0;
    }
  }

  // ----- strlen -----

  method StrLen(mem: seq<bv8>, s: nat, ghost n: nat) returns (len: nat)
    requires s != 0 ==> IsReadable(mem, s, n)
    ensures len == if s == 0 then 0 else n
  {
    var t := s;
    if s == 0 { return 0; }
    while t % 8 != 0
      invariant s <= t <= s + n
      decreases s + n - t
    {
      assert mem[t] == At(mem, s, t - s);
      if mem[t] == 0 { return t - s; }
      t := t + 1;
    }
    var word: bv64;
    while true
      invariant s <= t <= s + n && t % 8 == 0
      decreases s + n - t
    {
      word := LoadWord(mem, t);
      WordReachesEnd(mem, s, n, word, t - s);
      if n < t - s + 8 { ByteIndexCorrect(word, n - (t - s)); }
      t := t + 8;
      word := ZeroMask(word);
      if word != 0 { break; }
    }
    t := t + ByteIndex(word) as nat;
    return t - 8 - s;
  }

  // ----- what strcmp is for -----

  function Sign(x: int): int { if x < 0 then -1 else if x > 0 then 1 else 0 }

  function Order(c: bv8, d: bv8): int { if c < d then -1 else if d < c then 1 else 0 }

  /** Lexicographic order on the bytes as unsigned characters, a proper prefix being smaller. */
  function Lex(a: seq<bv8>, b: seq<bv8>): int
  {
    if a == [] then (if b == [] then 0 else -1)
    else if b == [] then 1
    else if a[0] != b[0] then Order(a[0], b[0])
    else Lex(a[1..], b[1..])
  }

  /** The first k bytes of both strings are the same, and none is NUL. */
  ghost predicate Matching(m1: seq<bv8>, p: nat, m2: seq<bv8>, q: nat, k: nat)
  {
    p + k <= |m1| && q + k <= |m2|
    && forall i :: 0 <= i < k ==> At(m1, p, i) == At(m2, q, i) && At(m1, p, i) != 0 && At(m2, q, i) != 0
  }

  /** The comparison of two strings is settled k bytes in. */
  ghost predicate SettledAt(m1: seq<bv8>, p: nat, m2: seq<bv8>, q: nat, k: nat)
  {
    Matching(m1, p, m2, q, k) && p + k < |m1| && q + k < |m2|
    && (At(m1, p, k) == 0 || At(m1, p, k) != At(m2, q, k))
  }

  /** Matching bytes lie inside both strings. */
  lemma MatchingWithin(m1: seq<bv8>, p: nat, n1: nat, m2: seq<bv8>, q: nat, n2: nat, k: nat)
    requires IsString(m1, p, n1) && IsString(m2, q, n2) && Matching(m1, p, m2, q, k)
    ensures k <= n1 && k <= n2
  {
  }

  lemma MatchingJoin(m1: seq<bv8>, p: nat, m2: seq<bv8>, q: nat, k: nat, j: nat)
    requires Matching(m1, p, m2, q, k) && Matching(m1, p + k, m2, q + k, j)
    ensures Matching(m1, p, m2, q, k + j)
  {
    forall i | k <= i < k + j
      ensures At(m1, p, i) == At(m2, q, i) && At(m1, p, i) != 0 && At(m2, q, i) != 0
    {
      assert At(m1, p + k, i - k) == At(m2, q + k, i - k);
    }
  }

  function ByteOrNul(a: seq<bv8>, k: nat): bv8 { if k < |a| then a[k] else 0 }

  /** Two NUL-free strings that agree on k bytes are ordered by what comes next. */
  lemma {:induction false} LexAt(a: seq<bv8>, b: seq<bv8>, k: nat)
    requires k <= |a| && k <= |b| && a[..k] == b[..k] && 0 !in a && 0 !in b
    requires k == |a| || ByteOrNul(a, k) != ByteOrNul(b, k)
    ensures Lex(a, b) == Order(ByteOrNul(a, k), ByteOrNul(b, k))
    decreases k
  {
    if k > 0 {
      assert a[0] == a[..k][0] == b[..k][0] == b[0];
      assert a[1..][..k - 1] == a[..k][1..] == b[..k][1..] == b[1..][..k - 1];
      LexAt(a[1..], b[1..], k - 1);
    }
  }

  /** The bytes at which the comparison settles decide the order of the strings. */
  lemma SettledDecides(m1: seq<bv8>, p: nat, n1: nat, m2: seq<bv8>, q: nat, n2: nat, k: nat)
    requires IsString(m1, p, n1) && IsString(m2, q, n2) && SettledAt(m1, p, m2, q, k)
    ensures Lex(m1[p..p + n1], m2[q..q + n2]) == Order(At(m1, p, k), At(m2, q, k))
  {
    var a, b := m1[p..p + n1], m2[q..q + n2];
    MatchingWithin(m1, p, n1, m2, q, n2, k);
    assert forall i :: 0 <= i < n1 ==> a[i] == At(m1, p, i);
    assert forall i :: 0 <= i < n2 ==> b[i] == At(m2, q, i);
    assert a[..k] == b[..k];
    LexAt(a, b, k);
  }

  /** Equal strings are the ones Lex cannot tell apart. */
  lemma {:induction false} LexZero(a: seq<bv8>, b: seq<bv8>)
    ensures Lex(a, b) == 0 <==> a == b
  {
    if a != [] && b != [] {
      assert a == [a[0]] + a[1..] && b == [b[0]] + b[1..];
      LexZero(a[1..], b[1..]);
    }
  }

  // ----- strcmp -----

  /** UNALIGNED: the two addresses are at different places in their words. */
  predicate Unaligned(p: nat, q: nat) { p % 8 != q % 8 }

  /** STRALIGN: how many bytes to go to the next word. */
  function ToWord(p: nat): nat { (8 - p % 8) % 8 }

  lemma WordBoundary(p: nat, q: nat)
    requires !Unaligned(p, q)
    ensures (p + ToWord(p)) % 8 == 0 && (q + ToWord(p)) % 8 == 0
  {
  }

  /** Byte k is compared by a byte loop, as signed characters. */
  predicate ComparedSigned(p: nat, q: nat, k: nat) { Unaligned(p, q) || k < ToWord(p) }

  /** The value of a byte u as a signed or as an unsigned character. */
  function Value(signed: bool, u: int): int { if signed && u >= 128 then u - 256 else u }

  method StrCmp(m1: seq<bv8>, s1: nat, m2: seq<bv8>, s2: nat, ghost n1: nat, ghost n2: nat) returns (r: int, ghost at: nat)
    requires IsReadable(m1, s1, n1) && IsReadable(m2, s2, n2)
    ensures SettledAt(m1, s1, m2, s2, at)
    ensures r == Value(ComparedSigned(s1, s2, at), At(m1, s1, at) as int)
              - Value(ComparedSigned(s1, s2, at), At(m2, s2, at) as int)
    ensures s1 % 8 == s2 % 8 && at >= (8 - s1 % 8) % 8 ==> r == At(m1, s1, at) as int - At(m2, s2, at) as int
    ensures s1 % 8 != s2 % 8 || at < (8 - s1 % 8) % 8 ==>
              r == At(m1, s1, at) as int - (if At(m1, s1, at) >= 128 then 256 else 0)
                   - At(m2, s2, at) as int + (if At(m2, s2, at) >= 128 then 256 else 0)
  {
    var signed, c1, c2;
    at, signed, c1, c2 := FirstDifference(m1, s1, m2, s2, n1, n2);
    r := Value(signed, c1 as int) - Value(signed, c2 as int);
  }

  /** All of strcmp but the final subtraction. */
  method FirstDifference(m1: seq<bv8>, s1: nat, m2: seq<bv8>, s2: nat, ghost n1: nat, ghost n2: nat)
    returns (ghost at: nat, signed: bool, c1: bv8, c2: bv8)
    requires IsReadable(m1, s1, n1) && IsReadable(m2, s2, n2)
    ensures SettledAt(m1, s1, m2, s2, at) && signed == ComparedSigned(s1, s2, at)
    ensures c1 == At(m1, s1, at) && c2 == At(m2, s2, at)
  {
    var p, q;
    at, signed, c1, c2, p, q := ByteLoop(m1, s1, m2, s2, n1, n2, Unaligned(s1, s2), ToWord(s1));
    if signed { return; }
    WordBoundary(s1, s2);
    at, c1, c2 := WordLoop(m1, s1, m2, s2, n1, n2, p, q, at);
  }

  /** The byte loops: up to the NUL for unaligned strings, otherwise for tmp bytes at most. */
  method ByteLoop(m1: seq<bv8>, s1: nat, m2: seq<bv8>, s2: nat, ghost n1: nat, ghost n2: nat, endless: bool, limit: nat)
    returns (ghost at: nat, settled: bool, c1: bv8, c2: bv8, p: nat, q: nat)
    requires IsString(m1, s1, n1) && IsString(m2, s2, n2)
    ensures at <= n1 && at <= n2 && p == s1 + at && q == s2 + at
    ensures settled ==> SettledAt(m1, s1, m2, s2, at) && c1 == At(m1, s1, at) && c2 == At(m2, s2, at)
    ensures settled ==> endless || at < limit
    ensures !settled ==> Matching(m1, s1, m2, s2, at) && !endless && at == limit
  {
    at, p, q := 0, s1, s2;
    var tmp := limit;
    while endless || tmp != 0
      invariant at <= n1 && at <= n2 && p == s1 + at && q == s2 + at
      invariant !endless ==> tmp == limit - at
      invariant Matching(m1, s1, m2, s2, at)
      decreases n1 - at
    {
      assert m1[p] == At(m1, s1, at) && m2[q] == At(m2, s2, at);
      if m1[p] == 0 || m1[p] != m2[q] { return at, true, m1[p], m2[q], p, q; }
      p, q, at := p + 1, q + 1, at + 1;
      if !endless { tmp := tmp - 1; }
      MatchingWithin(m1, s1, n1, m2, s2, n2, at);
    }
    settled, c1, c2 := false, 0, 0;
  }

  /** The word loop, from two addresses at word boundaries. */
  method WordLoop(m1: seq<bv8>, s1: nat, m2: seq<bv8>, s2: nat, ghost n1: nat, ghost n2: nat, p0: nat, q0: nat, ghost at0: nat)
    returns (ghost at: nat, c1: bv8, c2: bv8)
    requires IsReadable(m1, s1, n1) && IsReadable(m2, s2, n2)
    requires at0 <= n1 && at0 <= n2 && p0 == s1 + at0 && q0 == s2 + at0 && p0 % 8 == 0 && q0 % 8 == 0
    requires Matching(m1, s1, m2, s2, at0)
    ensures at >= at0 && SettledAt(m1, s1, m2, s2, at) && c1 == At(m1, s1, at) && c2 == At(m2, s2, at)
  {
    var p, q := p0, q0;
    at := at0;
    while true
      invariant at0 <= at <= n1 && at <= n2 && p == s1 + at && q == s2 + at
      invariant p % 8 == 0 && q % 8 == 0
      invariant Matching(m1, s1, m2, s2, at)
      decreases n1 - at
    {
      AlignedWithin(p, s1 + n1, |m1|);
      AlignedWithin(q, s2 + n2, |m2|);
      var go;
      ghost var j;
      go, c1, c2, j := CompareWords(m1, p, m2, q);
      MatchingJoin(m1, s1, m2, s2, at, j);
      if !go {
        assert At(m1, p, j) == At(m1, s1, at + j) && At(m2, q, j) == At(m2, s2, at + j);
        at := at + j;
        return;
      }
      p, q, at := p + 8, q + 8, at + 8;
      MatchingWithin(m1, s1, n1, m2, s2, n2, at);
    }
  }

  /** The first k bytes of both words are the same, and none is zero. */
  ghost predicate WordsMatching(w1: bv64, w2: bv64, k: nat)
  {
    forall i :: 0 <= i < k ==> ByteOf(w1, i) == ByteOf(w2, i) && ByteOf(w1, i) != 0
  }

  /** One round of the word loop: either all eight bytes match, or they settle the comparison. */
  method CompareWords(m1: seq<bv8>, p: nat, m2: seq<bv8>, q: nat) returns (go: bool, c1: bv8, c2: bv8, ghost j: nat)
    requires p % 8 == 0 && q % 8 == 0 && p + 8 <= |m1| && q + 8 <= |m2|
    ensures go ==> j == 8 && Matching(m1, p, m2, q, 8)
    ensures !go ==> j < 8 && SettledAt(m1, p, m2, q, j) && c1 == At(m1, p, j) && c2 == At(m2, q, j)
  {
    var l1 := LoadWord(m1, p);
    var l2 := LoadWord(m2, q);
    WordsDecide(l1, l2);
    if ZeroMask(l1) != 0 || ZeroMask(l2) != 0 || l1 != l2 {
      c1, c2, j := ResolveWord(l1, l2);
      return false, c1, c2, j;
    }
    return true, 0, 0, 8;
  }

  lemma WordsDecide(l1: bv64, l2: bv64)
    ensures ZeroMask(l1) == 0 && ZeroMask(l2) == 0 && l1 == l2 <==> WordsMatching(l1, l2, 8)
  {
    ZeroMaskCorrect(l1);
    SameBytes(l1, l2);
  }

  /** The inner loop of strcmp: it settles within the eight bytes it has loaded. */
  method ResolveWord(w1: bv64, w2: bv64) returns (c1: bv8, c2: bv8, ghost j: nat)
    requires !WordsMatching(w1, w2, 8)
    ensures j < 8 && WordsMatching(w1, w2, j) && c1 == ByteOf(w1, j) && c2 == ByteOf(w2, j) && (c1 == 0 || c1 != c2)
  {
    var l1, l2 := w1, w2;
    j := 0;
    while true
      invariant j < 8 && WordsMatching(w1, w2, j)
      invariant l1 == Shifted(w1, j) && l2 == Shifted(w2, j)
      decreases 8 - j
    {
      c1, l1 := NextByte(l1, w1, j);
      c2, l2 := NextByte(l2, w2, j);
      if c1 == 0 || c1 != c2 {
        return;
      }
      j := j + 1;
    }
  }

  /** GFC and INCSTR */
  method NextByte(l: bv64, ghost w: bv64, ghost j: nat) returns (c: bv8, l': bv64)
    requires l == Shifted(w, j)
    ensures c == ByteOf(w, j) && l' == Shifted(w, j + 1)
  {
    c, l' := FirstByte(l), l >> 8;
    ShiftedStep(w, j);
  }

  // ----- what strcmp returns -----

  predicate SameHalf(u: int, v: int) { u < 128 <==> v < 128 }

  /** Where bytes are compared signed, the order comes out right iff both are on the same side of 128. */
  lemma SignedOrder(signed: bool, u: int, v: int)
    requires 0 <= u < 256 && 0 <= v < 256
    ensures var r := Value(signed, u) - Value(signed, v);
            (r == 0 <==> u == v) && (Sign(r) == Sign(u - v) <==> !signed || SameHalf(u, v))
  {
  }

  lemma OrderAsInt(c: bv8, d: bv8)
    ensures 0 <= c as int < 256 && 0 <= d as int < 256 && Order(c, d) == Sign(c as int - d as int)
  {
  }

  lemma DifferenceOrder(signed: bool, c: bv8, d: bv8, r: int)
    requires r == Value(signed, c as int) - Value(signed, d as int)
    ensures r == 0 <==> Order(c, d) == 0
    ensures Sign(r) == Order(c, d) <==> !signed || SameHalf(c as int, d as int)
  {
    OrderAsInt(c, d);
    SignedOrder(signed, c as int, d as int);
  }

  /**
   strcmp returns 0 exactly for equal strings.  Its sign is that of their order as unsigned
   characters exactly if the bytes that settle it were compared in the word loop, or lie on
   the same side of 128.
   */
  method CompareStrings(m1: seq<bv8>, s1: nat, m2: seq<bv8>, s2: nat, ghost n1: nat, ghost n2: nat)
    returns (r: int, ghost at: nat)
    requires IsReadable(m1, s1, n1) && IsReadable(m2, s2, n2)
    ensures SettledAt(m1, s1, m2, s2, at)
    ensures r == 0 <==> m1[s1..s1 + n1] == m2[s2..s2 + n2]
    ensures Sign(r) == Lex(m1[s1..s1 + n1], m2[s2..s2 + n2]) <==>
            (s1 % 8 == s2 % 8 && at >= (8 - s1 % 8) % 8) || (At(m1, s1, at) < 128 <==> At(m2, s2, at) < 128)
  {
    r, at := StrCmp(m1, s1, m2, s2, n1, n2);
    OrderOfDifference(m1, s1, n1, m2, s2, n2, at, r);
  }

  lemma OrderOfDifference(m1: seq<bv8>, p: nat, n1: nat, m2: seq<bv8>, q: nat, n2: nat, at: nat, r: int)
    requires IsString(m1, p, n1) && IsString(m2, q, n2) && SettledAt(m1, p, m2, q, at)
    requires r == Value(ComparedSigned(p, q, at), At(m1, p, at) as int)
               - Value(ComparedSigned(p, q, at), At(m2, q, at) as int)
    ensures r == 0 <==> m1[p..p + n1] == m2[q..q + n2]
    ensures Sign(r) == Lex(m1[p..p + n1], m2[q..q + n2]) <==>
            !ComparedSigned(p, q, at) || SameHalf(At(m1, p, at) as int, At(m2, q, at) as int)
  {
    SettledDecides(m1, p, n1, m2, q, n2, at);
    LexZero(m1[p..p + n1], m2[q..q + n2]);
    DifferenceOrder(ComparedSigned(p, q, at), At(m1, p, at), At(m2, q, at), r);
  }

  /** The same two strings, "a" and "\x80", come out in opposite orders at different alignments. */
  method AlignmentDecides() returns (aligned: int, offset: int)
    ensures aligned < 0 < offset
  {
    // each memory has its string at address 8 and again at address 15
    var a: seq<bv8> := [0, 0, 0, 0, 0, 0, 0, 0, 97, 0, 0, 0, 0, 0, 0, 97, 0, 0, 0, 0, 0, 0, 0, 0];
    var b: seq<bv8> := [0, 0, 0, 0, 0, 0, 0, 0, 128, 0, 0, 0, 0, 0, 0, 128, 0, 0, 0, 0, 0, 0, 0, 0];
    assert At(a, 8, 0) == 97 && At(b, 8, 0) == 128 && At(a, 15, 0) == 97 && At(b, 15, 0) == 128;
    assert At(a, 8, 1) == 0 && At(b, 8, 1) == 0 && At(a, 15, 1) == 0 && At(b, 15, 1) == 0;
    ghost var at: nat;
    aligned, at := StrCmp(a, 8, b, 8, 1, 1);
    assert at == 0;
    offset, at := StrCmp(a, 15, b, 15, 1, 1);
    assert at == 0;
  }

  // ----- strcpy -----

  /** dst is as it was before, except that the first k bytes of the string at s are now at d. */
  ghost predicate Copied(dst: seq<bv8>, was: seq<bv8>, d: nat, src: seq<bv8>, s: nat, k: nat)
  {
    |dst| == |was| && d + k <= |dst| && s + k <= |src|
    && (forall i :: d <= i < d + k ==> dst[i] == src[s + (i - d)])
    && (forall i :: 0 <= i < d || d + k <= i < |dst| ==> dst[i] == was[i])
  }

  /** Copying goes on: k bytes are there, and j more are put behind them. */
  lemma CopiedMore(dst: seq<bv8>, mid: seq<bv8>, was: seq<bv8>, d: nat, src: seq<bv8>, s: nat, k: nat, j: nat)
    requires Copied(mid, was, d, src, s, k) && Copied(dst, mid, d + k, src, s + k, j)
    ensures Copied(dst, was, d, src, s, k + j)
  {
    forall i | d + k <= i < d + k + j
      ensures dst[i] == src[s + (i - d)]
    {
      assert dst[i] == src[s + k + (i - (d + k))];
    }
  }

  /** The string and its NUL are copied, and nothing else in dst changes. */
  method StrCpy(dst: array<bv8>, d: nat, src: seq<bv8>, s: nat, ghost n: nat) returns (res: nat)
    requires IsReadable(src, s, n) && d + n + 1 <= dst.Length
    modifies dst
    ensures res == d
    ensures Copied(dst[..], old(dst[..]), d, src, s, n + 1)
  {
    res := d;
    var done := CopyBytes(dst, d, src, s, n, Unaligned(d, s), ToWord(d));
    if done { return; }
    var tmp := ToWord(d);
    WordBoundary(d, s);
    ghost var mid := dst[..];
    StringTail(src, s, n, tmp);
    CopyWords(dst, d + tmp, src, s + tmp, n - tmp);
    CopiedMore(dst[..], mid, old(dst[..]), d, src, s, tmp, n - tmp + 1);
  }

  lemma StringTail(src: seq<bv8>, s: nat, n: nat, k: nat)
    requires IsReadable(src, s, n) && k <= n
    ensures IsReadable(src, s + k, n - k)
  {
    assert At(src, s + k, n - k) == At(src, s, n);
    forall i {:trigger At(src, s + k, i)} | 0 <= i < n - k
      ensures At(src, s + k, i) != 0
    {
      assert At(src, s, k + i) != 0;
    }
  }

  /** The byte loops: through the NUL for unaligned addresses, otherwise for tmp bytes at most. */
  method CopyBytes(dst: array<bv8>, d: nat, src: seq<bv8>, s: nat, ghost n: nat, endless: bool, limit: nat)
    returns (done: bool)
    requires IsString(src, s, n) && d + n + 1 <= dst.Length
    modifies dst
    ensures done ==> Copied(dst[..], old(dst[..]), d, src, s, n + 1)
    ensures !done ==> !endless && limit <= n && Copied(dst[..], old(dst[..]), d, src, s, limit)
  {
    var p, q, tmp := d, s, limit;
    ghost var at := 0;
    while endless || tmp != 0
      invariant at <= n && p == d + at && q == s + at
      invariant !endless ==> tmp == limit - at
      invariant Copied(dst[..], old(dst[..]), d, src, s, at)
      decreases n - at
    {
      assert src[q] == At(src, s, at);
      dst[p] := src[q];
      p, q := p + 1, q + 1;
      if dst[p - 1] == 0 { return true; }
      at := at + 1;
      if !endless { tmp := tmp - 1; }
    }
    done := false;
  }

  /** The word loop, from two addresses at word boundaries. */
  method CopyWords(dst: array<bv8>, d: nat, src: seq<bv8>, s: nat, ghost n: nat)
    requires IsReadable(src, s, n) && d + n + 1 <= dst.Length && s % 8 == 0
    modifies dst
    ensures Copied(dst[..], old(dst[..]), d, src, s, n + 1)
  {
    var p, q := d, s;
    ghost var at := 0;
    while true
      invariant at <= n && p == d + at && q == s + at && q % 8 == 0
      invariant Copied(dst[..], old(dst[..]), d, src, s, at)
      decreases n - at
    {
      AlignedWithin(q, s + n, |src|);
      var l := LoadWord(src, q);
      WordReachesEnd(src, s, n, l, at);
      ghost var mid := dst[..];
      if ZeroMask(l) != 0 {
        StringTail(src, s, n, at);
        CopyRest(dst, p, src, q, n - at, l);
        CopiedMore(dst[..], mid, old(dst[..]), d, src, s, at, n - at + 1);
        return;
      }
      StoreWord(dst, p, src, q, l);
      CopiedMore(dst[..], mid, old(dst[..]), d, src, s, at, 8);
      p, q, at := p + 8, q + 8, at + 8;
    }
  }

  /** The last word: its bytes up to the NUL, one by one. */
  method CopyRest(dst: array<bv8>, d: nat, ghost src: seq<bv8>, ghost s: nat, ghost n: nat, w: bv64)
    requires IsString(src, s, n) && n < 8 && Spells(w, src, s) && d + n + 1 <= dst.Length
    modifies dst
    ensures Copied(dst[..], old(dst[..]), d, src, s, n + 1)
  {
    var p, l := d, w;
    ghost var at := 0;
    while true
      invariant at <= n && p == d + at && l == Shifted(w, at)
      invariant Copied(dst[..], old(dst[..]), d, src, s, at)
      decreases n - at
    {
      var c;
      c, l := NextByte(l, w, at);
      assert c == At(src, s, at);
      dst[p] := c;
      if c == 0 { return; }
      p, at := p + 1, at + 1;
    }
  }

  /** A store of a whole word. */
  method StoreWord(dst: array<bv8>, p: nat, ghost src: seq<bv8>, ghost q: nat, l: bv64)
    requires Spells(l, src, q) && p + 8 <= dst.Length
    modifies dst
    ensures Copied(dst[..], old(dst[..]), p, src, q, 8)
  {
    for i := 0 to 8
      invariant Copied(dst[..], old(dst[..]), p, src, q, i)
    {
      assert ByteOf(l, i) == At(src, q, i);
      dst[p + i] := ByteOf(l, i);
    }
  }
}
