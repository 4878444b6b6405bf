/** Size classes and rounding in the heap allocator (lib/alloc.c:43-78). */
module SizeClass {

  import opened Bits
  import opened Heap

  const LIMIT: nat := 0x1_0000_0000_0000_0000

  /** The number of binary digits. */
  function Digits(x: nat): nat {
    if x == 0 then 0 else 1 + Digits(x / 2)
  }

  /** What get_index computes; the mask and the wrapped size of 0 included. */
  function Index(size: nat): nat {
    Digits(((size + LIMIT - 1) % LIMIT) % 4096 / 16)
  }

  method GetIndex(s: nat) returns (idx: nat)
    requires s < LIMIT
    ensures idx == Index(s)
  {
    idx := 0;
    var size: nat := ((s + LIMIT - 1) % LIMIT) % 4096 / 16;
    while size != 0
      invariant idx + Digits(size) == Index(s)
    {
      size := size / 2;
      idx := idx + 1;
    }
  }

  lemma {:induction false} DigitsRange(x: nat)
    ensures x < Pow2(Digits(x)) && (x > 0 ==> Pow2(Digits(x) - 1) <= x)
  {
    if x > 0 {
      DigitsRange(x / 2);
    }
  }

  lemma {:induction false} Pow2Mono(j: nat, k: nat)
    requires j <= k
    ensures Pow2(j) <= Pow2(k)
  {
    if j < k {
      Pow2Mono(j, k - 1);
    }
  }

  lemma SmallPowers()
    ensures Pow2(0) == 1 && Pow2(1) == 2 && Pow2(2) == 4 && Pow2(3) == 8
    ensures Pow2(4) == 16 && Pow2(5) == 32 && Pow2(6) == 64 && Pow2(7) == 128
  {
    assert Pow2(4) == 2 * Pow2(3) == 4 * Pow2(2);
    assert Pow2(6) == 2 * Pow2(5) == 4 * Pow2(4);
  }

  lemma BytesIsPower(k: nat)
    requires k < 8
    ensures Bytes(k) == 16 * Pow2(k)
  {
    SmallPowers();
  }

  /** GET_SIZE picks the least class that holds the size. */
  lemma LeastClass(size: nat)
    requires 0 < size <= 2048
    ensures Index(size) < 8 && size <= Bytes(Index(size))
    ensures forall k :: 0 <= k < Index(size) ==> Bytes(k) < size
  {
    hide Bytes, Pow2;
    var x := (size - 1) / 16;
    assert ((size + LIMIT - 1) % LIMIT) % 4096 / 16 == x;
    var i := Digits(x);
    DigitsRange(x);
    SmallPowers();
    if i >= 8 {
      Pow2Mono(7, i - 1);
    }
    BytesIsPower(i);
    forall k | 0 <= k < i
      ensures Bytes(k) < size
    {
      Pow2Mono(k, i - 1);
      BytesIsPower(k);
    }
  }

  lemma ClassOfBytes(k: nat)
    requires k < 8
    ensures Index(Bytes(k)) == k
  {
    hide Index;
    LeastClass(Bytes(k));
    var i := Index(Bytes(k));
    if i < k {
      hide Bytes;
      BytesIsPower(i);
      BytesIsPower(k);
      Pow2Mono(i, k - 1);
    }
  }

  /** PAGE_ALIGN, in 64 bits. */
  function PageAlign(s: nat): (r: nat)
    ensures r % 4096 == 0 && r < LIMIT
  {
    ((s + 4095) % LIMIT) / 4096 * 4096
  }

  /** It rounds up to pages, or gives zero when the next page boundary is out of range. */
  lemma PageAlignRounds(s: nat)
    requires s < LIMIT
    ensures PageAlign(s) == 0 <==> s == 0 || s > LIMIT - 4096
    ensures 0 < s <= LIMIT - 4096 ==> s <= PageAlign(s) < s + 4096
    ensures PageAlign(PageAlign(s)) == PageAlign(s)
  {
  }

  /** The size with header of a block for so many bytes; zero when there is none. */
  function Need(size: nat): (need: nat)
    requires size < LIMIT
  {
    if size == 0 || size + 16 >= LIMIT then 0
    else if size + 16 <= 2048 then (LeastClass(size + 16); Bytes(Index(size + 16)))
    else PageAlign(size + 16)
  }

  lemma NeedFits(size: nat)
    requires size < LIMIT && Need(size) > 0
    ensures 8 * Room(Need(size)) >= size > 0 && Need(size) >= 16
    ensures Need(size) <= 2048 <==> size + 16 <= 2048
    ensures Need(size) > 2048 ==> Need(size) % 4096 == 0
  {
    hide Bytes, Index, PageAlign, Room;
    if size + 16 <= 2048 {
      LeastClass(size + 16);
      BytesEven(Index(size + 16));
    } else {
      PageAlignRounds(size + 16);
      EightInPage(PageAlign(size + 16));
    }
    RoomFor(size, Need(size));
  }

  /** Class k is the least one that holds so many bytes and a header. */
  ghost predicate LeastFor(k: nat, size: nat) {
    k < 8 && size + 16 <= 16 * Pow2(k) && (k > 0 ==> 16 * Pow2(k - 1) < size + 16)
  }

  lemma IndexIsLeast(size: nat)
    requires 0 < size <= 2032
    ensures LeastFor(Index(size + 16), size)
    ensures forall k: nat :: LeastFor(k, size) ==> k == Index(size + 16)
  {
    hide Index, Bytes, Pow2;
    var i := Index(size + 16);
    LeastClass(size + 16);
    BytesIsPower(i);
    if i > 0 {
      BytesIsPower(i - 1);
    }
    forall k | LeastFor(k, size)
      ensures k == i
    {
      if k < i {
        BytesIsPower(k);
      } else if k > i {
        Pow2Mono(i, k - 1);
      }
    }
  }

  /** The size of malloc's block: a class, whole pages, or none. */
  lemma NeedExactly(size: nat)
    requires size < LIMIT
    ensures size == 0 || size > LIMIT - 4112 ==> Need(size) == 0
    ensures 0 < size <= 2032 ==> forall k: nat :: LeastFor(k, size) ==> Need(size) == 16 * Pow2(k)
    ensures 2032 < size <= LIMIT - 4112 ==> Need(size) == (size + 16 + 4095) / 4096 * 4096
    ensures 2032 < size <= LIMIT - 4112 ==> Need(size) > 2048 && Need(size) / 4096 == (size + 16 + 4095) / 4096
  {
    hide Index, Bytes, Pow2;
    if 0 < size <= 2032 {
      IndexIsLeast(size);
      LeastClass(size + 16);
      BytesIsPower(Index(size + 16));
    } else if 2032 < size <= LIMIT - 4112 {
      PageAlignRounds(size + 16);
      assert Need(size) == PageAlign(size + 16) == (size + 16 + 4095) / 4096 * 4096;
      DivModUnique(Need(size), 4096, (size + 16 + 4095) / 4096, 0);
    } else if 0 < size && size + 16 < LIMIT {
      PageAlignRounds(size + 16);
    }
  }

  lemma EightInPage(need: nat)
    requires need % 4096 == 0
    ensures need % 8 == 0
  {
    var pages := need / 4096;
    DivModUnique(need, 8, 512 * pages, 0);
  }

  lemma RoomFor(size: nat, need: nat)
    requires need >= size + 16 && need % 8 == 0
    ensures 8 * Room(need) >= size
  {
  }

  lemma BytesEven(k: nat)
    requires k < 8
    ensures Bytes(k) % 8 == 0
  {
  }

  // ----- calloc's test for overflow -----

  function Product(x: nat, y: nat): nat {
    x * y
  }

  /** Dividing the wrapped product tells exactly whether it wrapped. */
  lemma MulCheck(nmemb: nat, size: nat)
    requires 0 < nmemb < LIMIT && size < LIMIT
    ensures (size * nmemb) % LIMIT / nmemb == size <==> size * nmemb < LIMIT
  {
    var product := size * nmemb;
    var wrapped := product % LIMIT;
    if product < LIMIT {
      assert product == nmemb * size;
      DivExact(nmemb, size);
    } else {
      WrapLoses(product);
      assert wrapped < product - nmemb;
      if wrapped / nmemb >= size {
        MulMonoDiv(nmemb, size, wrapped);
      }
    }
  }

  lemma DivExact(c: nat, q: nat)
    requires c > 0
    ensures (c * q) / c == q
  {
    DivUnique(c, q, c * q);
  }

  lemma WrapLoses(x: nat)
    requires x >= LIMIT
    ensures x % LIMIT <= x - LIMIT
  {
  }

  lemma MulMonoDiv(c: nat, q: nat, w: nat)
    requires c > 0 && w / c >= q
    ensures c * q <= w
  {
    assert c * (w / c) <= w;
    assert c * q <= c * (w / c);
  }
}
