/**
 malloc, free, calloc and realloc (lib/alloc.c), with WANT_MALLOC_ZERO and WANT_FREE_OVERWRITE
 off and 4096-byte pages.

 Pointers count words: a block starts two words before the pointer its caller holds.  The
 kernel's answers to mmap and mremap are inputs of the calls: a page number to place the new
 pages at, or nothing; an answer that is not a free range stands for a failure.

 Contents maps the start of every block in use to its payload, and the contracts say what each
 call does to it.  That the invariant holds after every call, for every answer of the kernel and
 whatever the callers write to their payloads, makes the contracts statements about all runs.
 */
module Allocator {

  import opened Bits
  import opened Common
  import opened Heap
  import opened HeapSteps
  import opened HeapCarve
  import opened HeapMove
  import opened SizeClass

  const ENOMEM := 12

  /** The kernel can place n pages at page p. */
  predicate Placeable(mem: Memory, p: nat, n: nat) {
    p > 0 && (p + n) * 4096 <= LIMIT && forall w :: w in ZeroRange(512 * p, 512 * n) ==> w !in mem
  }

  lemma PlaceableFresh(mem: Memory, owner: Owners, p: nat, n: nat)
    requires Domain(mem, owner) && n > 0 && Placeable(mem, p, n)
    ensures Fresh(owner, p, n)
  {
    hide Page, Classes;
    forall q | p <= q < p + n
      ensures q !in owner
    {
      FirstWords(q);
      assert 512 * q in ZeroRange(512 * p, 512 * n);
    }
  }

  /** A list head is zero exactly when the list is empty. */
  lemma HeadZero(mem: Memory, small: seq<Addr>, g: Ledger, k: nat)
    requires Inv(mem, small, g) && k < 8
    ensures small[k] == 0 <==> g.lists[k] == []
    ensures g.lists[k] != [] ==> small[k] == g.lists[k][0] && small[k] in mem
  {
    hide BlockOf, Align, Width;
    assert ListOk(mem, g, k, small[k], g.lists[k]);
    if g.lists[k] != [] {
      assert FreeBlock(mem, g, k, g.lists[k][0]);
      assert Page(0) == 0;
    }
  }

  lemma ClassWords(k: nat)
    requires k < 8
    ensures Bytes(k) / 8 == Width(k) && 4096 / Bytes(k) == Count(k)
  {
  }

  lemma CarvePre(mem0: Memory, owner: Owners, k: nat, p: nat)
    requires Domain(mem0, owner) && Fresh(owner, p, 1) && k < 8
    ensures forall i :: 0 <= i < Count(k) ==> SlotsOf(k, p)[i] in ZeroRange(512 * p, 512)
    ensures forall w :: w in ZeroRange(512 * p, 512) ==> w !in mem0 && Page(w) == p
    ensures forall w :: w in mem0 ==> Page(w) != p
    ensures SlotsOf(k, p)[0] == 512 * p
    ensures forall i :: 0 <= i < Count(k) - 1 ==> SlotsOf(k, p)[i + 1] == SlotsOf(k, p)[i] + Width(k)
  {
    hide Page, Width, Count, Align, Classes;
    forall w | w in ZeroRange(512 * p, 512)
      ensures w !in mem0 && Page(w) == p
    {
      FreshWord(mem0, owner, p, 1, w);
    }
    forall i | 0 <= i < Count(k)
      ensures SlotsOf(k, p)[i] in ZeroRange(512 * p, 512)
    {
      SlotsMember(k, p, SlotsOf(k, p)[i]);
      PageRange(p, 1, SlotsOf(k, p)[i]);
    }
    forall i | 0 <= i < Count(k) - 1
      ensures SlotsOf(k, p)[i + 1] == SlotsOf(k, p)[i] + Width(k)
    {
      SlotNext(512 * p, Width(k), i);
    }
  }

  /** The carving loop has linked the first i blocks of l, in page p new to mem0. */
  ghost predicate LinkedTo(mem0: Memory, mem: Memory, p: nat, l: seq<Addr>, i: nat)
    requires i < |l|
  {
    && mem.Keys == (mem0 + ZeroRange(512 * p, 512)).Keys
    && (forall w :: w in mem0 ==> mem[w] == mem0[w])
    && (forall j :: 0 <= j < i ==> l[j] in mem && mem[l[j]] == l[j + 1])
    && (forall w :: w in mem && Page(w) == p && w !in l ==> mem[w] == 0)
  }

  lemma LinkNone(mem0: Memory, p: nat, l: seq<Addr>)
    requires l != [] && forall w :: w in mem0 ==> Page(w) != p
    requires forall w :: w in ZeroRange(512 * p, 512) ==> w !in mem0
    ensures LinkedTo(mem0, mem0 + ZeroRange(512 * p, 512), p, l, 0)
  {
  }

  /** The block with number i becomes linked, or its link is cleared. */
  lemma LinkStep(mem0: Memory, mem: Memory, p: nat, l: seq<Addr>, i: nat, next: Addr)
    requires i < |l| && LinkedTo(mem0, mem, p, l, i) && Distinct(l)
    requires l[i] in ZeroRange(512 * p, 512) && l[i] !in mem0
    ensures l[i] in mem && LinkedTo(mem0, mem[l[i] := next], p, l, i)
    ensures i + 1 < |l| && next == l[i + 1] ==> LinkedTo(mem0, mem[l[i] := next], p, l, i + 1)
  {
    hide Page;
  }

  lemma LinkedChain(mem: Memory, l: seq<Addr>, head: Addr)
    requires l != [] && head == l[0]
    requires forall j :: 0 <= j < |l| - 1 ==> l[j] in mem && mem[l[j]] == l[j + 1]
    requires l[|l| - 1] in mem && mem[l[|l| - 1]] == 0
    ensures Chain(mem, head, l)
  {
    forall i | 0 <= i < |l|
      ensures l[i] in mem && mem[l[i]] == After(l, i)
    {
      if i == |l| - 1 {
        assert After(l, i) == 0;
      }
    }
  }

  lemma LinkedAll(mem0: Memory, mem: Memory, k: nat, p: nat)
    requires k < 8 && LinkedTo(mem0, mem, p, SlotsOf(k, p), Count(k) - 1)
    requires SlotsOf(k, p)[0] == 512 * p
    requires var last := SlotsOf(k, p)[Count(k) - 1]; last in mem && mem[last] == 0
    ensures Grown(mem0, mem, p, 1) && Threaded(mem, k, p)
  {
    hide Page, SlotsOf, Width, Count, ZeroRange, Chain;
    LinkedChain(mem, SlotsOf(k, p), 512 * p);
  }

  /** When a request can be met: from a free block, or with the kernel's help. */
  ghost predicate Served(mem: Memory, g: Ledger, size: nat, kernel: Option<nat>)
    requires size < LIMIT
  {
    if Need(size) == 0 then false
    else if Need(size) > 2048 then kernel.Some? && Placeable(mem, kernel.value, Need(size) / 4096)
    else HasFree(g, Index(size + 16)) || (kernel.Some? && Placeable(mem, kernel.value, 1))
  }

  /** When mremap can give a mapping of oldSize bytes the new size. */
  ghost predicate Movable(mem: Memory, b: Addr, oldSize: nat, size: nat, kernel: Option<nat>) {
    size > 0 && kernel.Some? && Placeable(Without(mem, b, oldSize / 8), kernel.value, size / 4096)
  }

  /** When realloc succeeds: the size stays, or malloc or mremap can provide. */
  ghost predicate ReallocServed(mem: Memory, g: Ledger, ptr: Addr, size: nat, kernel: Option<nat>)
    requires 0 < size < LIMIT && (ptr == 0 || (ptr >= 2 && ptr - 2 in g.live))
  {
    if ptr == 0 then Served(mem, g, size, kernel)
    else
      var oldSize := g.live[ptr - 2];
      oldSize == Need(size)
      || (if oldSize <= 2048 then Served(mem, g, size, kernel)
          else Movable(mem, ptr - 2, oldSize, PageAlign(Need(size)), kernel))
  }

  ghost predicate HasFree(g: Ledger, k: nat) {
    k < |g.lists| && g.lists[k] != []
  }

  /**
   What that comes to: 0 bytes and sizes that do not fit in 64 bits are refused, a large size
   takes a kernel with room for its pages, and a small one a free block of the least class that
   holds it, or a kernel with room for one page.
   */
  lemma ServedExactly(mem: Memory, g: Ledger, size: nat, kernel: Option<nat>)
    requires size < LIMIT && |g.lists| == 8
    ensures size == 0 || size > LIMIT - 4112 ==> !Served(mem, g, size, kernel)
    ensures 2032 < size <= LIMIT - 4112 ==>
              (Served(mem, g, size, kernel) <==>
               kernel.Some? && Placeable(mem, kernel.value, (size + 16 + 4095) / 4096))
    ensures 0 < size <= 2032 ==> exists k: nat :: LeastFor(k, size)
    ensures 0 < size <= 2032 ==>
              forall k: nat :: LeastFor(k, size) ==>
                (Served(mem, g, size, kernel) <==>
                 g.lists[k] != [] || (kernel.Some? && Placeable(mem, kernel.value, 1)))
  {
    hide Placeable, Index, LeastFor, Need;
    NeedExactly(size);
    if 0 < size <= 2032 {
      IndexIsLeast(size);
      SmallNeedPositive(size);
      LeastClass(size + 16);
    }
  }

  lemma SmallNeedPositive(size: nat)
    requires 0 < size <= 2032
    ensures 0 < Need(size) <= 2048
  {
    hide Index;
    LeastClass(size + 16);
  }

  /** A mapping can be placed exactly where its pages are free, below the end of the address space. */
  lemma PlaceableExactly(mem: Memory, owner: Owners, p: nat, n: nat)
    requires Domain(mem, owner) && n > 0
    ensures Placeable(mem, p, n) <==> Fresh(owner, p, n) && (p + n) * 4096 <= LIMIT
  {
    hide Page, Classes;
    if Fresh(owner, p, n) {
      forall w | w in ZeroRange(512 * p, 512 * n)
        ensures w !in mem
      {
        FreshWord(mem, owner, p, n, w);
      }
    }
    if Placeable(mem, p, n) {
      PlaceableFresh(mem, owner, p, n);
    }
  }

  /**
   The same for realloc.  A carved block keeps its size or is served like malloc; a mapping
   keeps its size, or takes a kernel with room for the pages of the new size once its own are
   given back.
   */
  lemma ReallocServedExactly(mem: Memory, g: Ledger, ptr: Addr, size: nat, kernel: Option<nat>)
    requires 0 < size < LIMIT && ptr >= 2 && ptr - 2 in g.live && g.live[ptr - 2] > 0
    ensures var oldSize := g.live[ptr - 2]; var pages := (size + 16 + 4095) / 4096;
            && (size > LIMIT - 4112 ==> !ReallocServed(mem, g, ptr, size, kernel))
            && (oldSize <= 2048 && 2032 < size <= LIMIT - 4112 ==>
                  (ReallocServed(mem, g, ptr, size, kernel) <==>
                   kernel.Some? && Placeable(mem, kernel.value, pages)))
            && (oldSize <= 2048 && size <= 2032 ==>
                  forall k: nat :: LeastFor(k, size) ==>
                    (ReallocServed(mem, g, ptr, size, kernel) <==>
                     oldSize == 16 * Pow2(k) || Served(mem, g, size, kernel)))
            && (oldSize > 2048 && size <= LIMIT - 4112 ==>
                  (ReallocServed(mem, g, ptr, size, kernel) <==>
                   (size > 2032 && oldSize == 4096 * pages)
                   || (kernel.Some? && Placeable(Without(mem, ptr - 2, oldSize / 8), kernel.value, pages))))
  {
    hide Placeable, Index, LeastFor, Need, Without, Served, PageAlign;
    NeedExactly(size);
    NewPages(size);
    NoneServed(mem, g, size, kernel);
    LargeServed(mem, g, size, kernel);
  }

  lemma NoneServed(mem: Memory, g: Ledger, size: nat, kernel: Option<nat>)
    requires size < LIMIT
    ensures Need(size) == 0 ==> !Served(mem, g, size, kernel)
  {
    hide Need, Placeable, Index;
  }

  lemma LargeServed(mem: Memory, g: Ledger, size: nat, kernel: Option<nat>)
    requires size < LIMIT
    ensures 2032 < size <= LIMIT - 4112 ==>
              (Served(mem, g, size, kernel) <==>
               kernel.Some? && Placeable(mem, kernel.value, (size + 16 + 4095) / 4096))
  {
    hide Need, Placeable, Index;
    NeedExactly(size);
  }

  /** The whole pages that a mapping gets for a size. */
  lemma NewPages(size: nat)
    requires 0 < size < LIMIT
    ensures size > LIMIT - 4112 ==> PageAlign(Need(size)) == 0
    ensures size <= LIMIT - 4112 ==>
              PageAlign(Need(size)) > 0 && PageAlign(Need(size)) / 4096 == (size + 16 + 4095) / 4096
    ensures size <= 2032 ==> 0 < Need(size) <= 2048
  {
    hide Need;
    NeedExactly(size);
    PageAlignRounds(0);
    if size <= 2032 {
      SmallNeedPositive(size);
      PageAlignRounds(Need(size));
      assert PageAlign(Need(size)) == 4096;
    } else if size <= LIMIT - 4112 {
      PageAlignRounds(size + 16);
      NeedIsAligned(size);
    }
  }

  lemma NeedIsAligned(size: nat)
    requires 2032 < size <= LIMIT - 4112
    ensures PageAlign(Need(size)) == Need(size)
  {
    PageAlignRounds(size + 16);
  }

  class Allocator {
    var mem: Memory
    const small: array<Addr>
    var errno: int
    ghost var g: Ledger

    ghost predicate Valid()
      reads this, small
    {
      small.Length == 8 && Inv(mem, small[..], g)
    }

    /** The payloads of the blocks in use. */
    ghost function Blocks(): map<Addr, seq<nat>>
      reads this
    {
      Contents(mem, g.live)
    }

    /** Program start: no memory, empty lists. */
    constructor ()
      ensures Valid() && fresh(small) && Blocks() == map[]
    {
      mem := map[];
      small := new Addr[8](_ => 0);
      errno := 0;
      g := Ledger(imap[], seq(8, _ => []), map[]);
    }

    /** Only mapped words are read and written. */
    function Load(w: Addr): nat
      requires w in mem
      reads this
    {
      mem[w]
    }

    method Store(w: Addr, v: nat)
      requires w in mem
      modifies this`mem
      ensures mem == old(mem)[w := v]
    {
      mem := mem[w := v];
    }

    /** do_mmap for n pages. */
    method DoMmap(n: nat, kernel: Option<nat>) returns (p: Option<nat>)
      requires n > 0 && Domain(mem, g.owner)
      modifies this`mem
      ensures p == if kernel.Some? && Placeable(old(mem), kernel.value, n) then kernel else None
      ensures p.None? ==> mem == old(mem)
      ensures p.Some? ==> mem == old(mem) + ZeroRange(512 * p.value, 512 * n) && Fresh(g.owner, p.value, n)
    {
      if kernel.None? || !Placeable(mem, kernel.value, n) {
        return None;
      }
      PlaceableFresh(mem, g.owner, kernel.value, n);
      mem := mem + ZeroRange(512 * kernel.value, 512 * n);
      p := kernel;
    }

    /** The loop that links the blocks of a new page. */
    method Carve(k: nat, p: nat, size: nat, ghost mem0: Memory, ghost owner: Owners)
      requires k < 8 && size == Bytes(k) && Domain(mem0, owner) && Fresh(owner, p, 1)
      requires mem == mem0 + ZeroRange(512 * p, 512)
      modifies this`mem
      ensures Grown(mem0, mem, p, 1) && Threaded(mem, k, p)
    {
      hide Page, Width, Count, Align, Classes, SlotsOf, Domain, Fresh, Bytes, Grown, Threaded, Distinct, LinkedTo, ZeroRange;
      ClassWords(k);
      CarvePre(mem0, owner, k, p);
      SlotsDistinct(k, p);
      ghost var l := SlotsOf(k, p);
      var ptr := 512 * p;
      var nr := 4096 / size - 1;
      LinkNone(mem0, p, l);
      for i := 0 to nr
        invariant ptr == l[i] && LinkedTo(mem0, mem, p, l, i)
      {
        LinkStep(mem0, mem, p, l, i, l[i + 1]);
        Store(ptr, ptr + size / 8);
        ptr := Load(ptr);
      }
      LinkStep(mem0, mem, p, l, nr, 0);
      Store(ptr, 0);
      LinkedAll(mem0, mem, k, p);
    }

    /** A page is carved for class k when its list is empty. */
    method Refill(k: nat, size: nat, kernel: Option<nat>) returns (ok: bool)
      requires Valid() && k < 8 && size == Bytes(k) && g.lists[k] == []
      modifies this`mem, this`g, small
      ensures Valid() && g.live == old(g.live) && Blocks() == old(Blocks())
      ensures ok <==> kernel.Some? && Placeable(old(mem), kernel.value, 1)
      ensures !ok ==> mem == old(mem) && g == old(g) && small[..] == old(small[..])
      ensures ok ==> g.lists[k] != []
    {
      hide Page, Width, Count, Align, Classes, SlotsOf, Domain, Fresh, Bytes, Grown, Threaded, ZeroRange, Inv, Contents, Placeable;
      InvDomain(mem, small[..], g);
      ghost var heads := small[..];
      var page := DoMmap(1, kernel);
      if page.None? {
        return false;
      }
      var first: Addr := 512 * page.value;
      small[k] := first;
      Carve(k, page.value, size, old(mem), g.owner);
      CarveInv(old(mem), heads, g, k, page.value, mem);
      assert small[..] == heads[k := first];
      g := CarveLedger(g, k, page.value);
      SlotsSome(k, page.value);
      ok := true;
    }

    /** The first block leaves its list. */
    method TakeFirst(k: nat) returns (b: Addr)
      requires Valid() && k < 8 && g.lists[k] != []
      modifies this`mem, this`g, small
      ensures b == old(small[k]) == old(g.lists[k][0]) && b in old(mem) && mem == old(mem)[b := 0]
      ensures small[..] == old(small[..])[k := old(mem)[b]] && g == TakeLedger(old(g), k, b)
    {
      hide Page, Width, Align, Inv, Contents;
      HeadZero(mem, small[..], g, k);
      InvDomain(mem, small[..], g);
      b := small[k];
      ghost var heads := small[..];
      small[k] := Load(b);
      assert small[..] == heads[k := mem[b]];
      Store(b, 0);
      g := TakeLedger(g, k, b);
    }

    /** The state once the size of the new block at b is stored. */
    ghost predicate ValidWith(b: Addr, size: nat)
      reads this, small
    {
      small.Length == 8 && Inv(mem[b + 1 := size], small[..], g)
    }

    /** __small_malloc: a block of class k, whose size the caller still has to store. */
    method SmallMalloc(size: nat, ghost k: nat, kernel: Option<nat>) returns (ptr: Option<Addr>)
      requires Valid() && k < 8 && size == Bytes(k)
      modifies this`mem, this`g, small
      ensures ptr.None? <==> !HasFree(old(g), k) && !(kernel.Some? && Placeable(old(mem), kernel.value, 1))
      ensures ptr.None? ==> mem == old(mem) && g == old(g) && small[..] == old(small[..])
      ensures ptr.Some? ==> ValidWith(ptr.value, size) && ptr.value + 1 in mem && ptr.value !in old(g.live)
      ensures ptr.Some? ==> g.live == old(g.live)[ptr.value := size]
      ensures ptr.Some? ==> Contents(mem[ptr.value + 1 := size], g.live) == old(Blocks())[ptr.value := Zeros(Room(size))]
    {
      hide Page, Width, Align, Inv, Contents, Bytes, Room, Zeros, Index, Placeable, ZeroRange;
      ClassOfBytes(k);
      InvDomain(mem, small[..], g);
      HeadZero(mem, small[..], g, k);
      var idx := GetIndex(size);
      if small[idx] == 0 {
        var ok := Refill(idx, size, kernel);
        if !ok {
          return None;
        }
      }
      TakeInv(mem, small[..], g, k);
      TakeContents(mem, small[..], g, k);
      SecondWord(mem, small[..], g, k);
      var b := TakeFirst(idx);
      ptr := Some(b);
    }

    /** malloc. */
    method Malloc(size: nat, kernel: Option<nat>) returns (ptr: Addr)
      requires Valid() && size < LIMIT
      modifies this, small
      ensures Valid()
      ensures ptr == 0 ==> errno == ENOMEM && mem == old(mem) && g == old(g) && small[..] == old(small[..])
      ensures ptr != 0 <==> Served(old(mem), old(g), size, kernel)
      ensures 2032 < size <= 0xFFFF_FFFF_FFFF_EFF0 ==>
                (ptr != 0 <==> kernel.Some? && Placeable(old(mem), kernel.value, (size + 16 + 4095) / 4096))
      ensures 0 < size <= 2032 && kernel.Some? && Placeable(old(mem), kernel.value, 1) ==> ptr != 0
      ensures size == 0 || size > 0xFFFF_FFFF_FFFF_EFF0 ==> ptr == 0
      ensures ptr != 0 ==> ptr >= 2 && ptr - 2 !in old(g.live) && g.live == old(g.live)[ptr - 2 := Need(size)]
      ensures ptr != 0 ==> Blocks() == old(Blocks())[ptr - 2 := Zeros(Room(Need(size)))]
    {
      hide Page, Width, Align, Inv, Contents, Bytes, Room, Zeros, Index, Placeable, ZeroRange, PageAlign, LeastFor;
      InvDomain(mem, small[..], g);
      ServedExactly(mem, g, size, kernel);
      if size == 0 || (size + 16) % LIMIT < 16 {
        errno := ENOMEM;
        return 0;
      }
      var s := (size + 16) % LIMIT;
      var b: Option<Addr>;
      var need: nat;
      if s <= 2048 {
        LeastClass(s);
        var idx := GetIndex(s);
        need := Bytes(idx);
        b := SmallMalloc(need, idx, kernel);
        if b.Some? {
          Store(b.value + 1, need);
        }
      } else {
        need := PageAlign(s);
        b := LargeMalloc(need, kernel);
      }
      if b.None? {
        errno := ENOMEM;
        return 0;
      }
      ptr := b.value + 2;
    }

    /** ptr->size=need in a fresh mapping of n pages at page p. */
    method StoreSize(p: nat, n: nat, need: nat, ghost mem0: Memory)
      requires small.Length == 8 && Inv(mem0, small[..], g) && Fresh(g.owner, p, n) && need == 4096 * n
      requires mem == mem0 + ZeroRange(512 * p, 512 * n)
      modifies this`mem, this`g
      ensures Valid() && 512 * p !in old(g.live) && g.live == old(g.live)[512 * p := need]
      ensures Blocks() == Contents(mem0, old(g.live))[512 * p := Zeros(Room(need))]
    {
      hide Inv, Contents, Room, Zeros, Fresh, MapLedger, MapMem, ZeroRange;
      MapAll(mem0, small[..], g, p, n, need);
      Store(512 * p + 1, need);
      g := MapLedger(g, p, n);
    }

    /** The branch for large sizes: a direct mapping, with its size in the header. */
    method LargeMalloc(need: nat, kernel: Option<nat>) returns (ptr: Option<Addr>)
      requires Valid() && need % 4096 == 0
      modifies this`mem, this`g
      ensures Valid()
      ensures ptr.Some? <==> need > 0 && kernel.Some? && Placeable(old(mem), kernel.value, need / 4096)
      ensures ptr.None? ==> mem == old(mem) && g == old(g)
      ensures ptr.Some? ==> ptr.value !in old(g.live) && g.live == old(g.live)[ptr.value := need]
      ensures ptr.Some? ==> Blocks() == old(Blocks())[ptr.value := Zeros(Room(need))]
    {
      hide Page, Inv, Contents, Room, Zeros, Placeable, Fresh, Domain, MapLedger, MapMem, ZeroRange;
      InvDomain(mem, small[..], g);
      if need == 0 {
        return None;
      }
      WholePages(need);
      var n := need / 4096;
      var p := DoMmap(n, kernel);
      if p.None? {
        return None;
      }
      StoreSize(p.value, n, need, old(mem));
      ptr := Some(512 * p.value);
    }

    /** calloc: the overflow test, and then malloc; the memory needs no clearing. */
    method Calloc(nmemb: nat, size: nat, kernel: Option<nat>) returns (ptr: Addr)
      requires Valid() && nmemb < LIMIT && size < LIMIT
      modifies this, small
      ensures Valid()
      ensures ptr == 0 ==> errno == ENOMEM && mem == old(mem) && g == old(g) && small[..] == old(small[..])
      ensures Product(size, nmemb) >= LIMIT ==> ptr == 0
      ensures Product(size, nmemb) < LIMIT ==> (ptr != 0 <==> Served(old(mem), old(g), Product(size, nmemb), kernel))
      ensures ptr != 0 ==> ptr >= 2 && ptr - 2 !in old(g.live)
      ensures ptr != 0 ==> Product(size, nmemb) < LIMIT && g.live == old(g.live)[ptr - 2 := Need(Product(size, nmemb))]
      ensures ptr != 0 ==> exists n: nat :: 8 * n >= Product(size, nmemb) && Blocks() == old(Blocks())[ptr - 2 := Zeros(n)]
    {
      hide Inv, Contents, Need, Zeros, Room, Served;
      var total := (size * nmemb) % LIMIT;
      if nmemb > 0 {
        MulCheck(nmemb, size);
      }
      if nmemb > 0 && total / nmemb != size {
        errno := ENOMEM;
        return 0;
      }
      ptr := Malloc(total, kernel);
      if ptr != 0 {
        NeedServed(old(mem), old(g), total, kernel);
        NeedFits(total);
        assert 8 * Room(Need(total)) >= Product(size, nmemb);
      }
    }

    /** memset to zero, word by word. */
    method Clear(b: Addr, n: nat)
      requires forall w :: b <= w < b + n ==> w in mem
      modifies this`mem
      ensures mem == old(mem) + ZeroRange(b, n) && mem.Keys == old(mem.Keys)
    {
      for i := 0 to n
        invariant mem == old(mem) + ZeroRange(b, i) && mem.Keys == old(mem.Keys)
      {
        Store(b + i, 0);
      }
    }

    /** __small_free: the block is cleared and goes to the front of its list. */
    method SmallFree(b: Addr, size: nat, ghost k: nat)
      requires Valid() && b in g.live && k < 8 && size == Bytes(k)
      requires Page(b) in g.owner && g.owner[Page(b)] == Carved(k)
      modifies this`mem, this`g, small
      ensures Valid() && g.live == old(g.live) - {b} && Blocks() == old(Blocks()) - {b} && Listed(g, b)
    {
      hide Page, Inv, Contents, Bytes, Width, Index, ReleaseMem, LiveBlock, Domain;
      ClassOfBytes(k);
      ClassWords(k);
      InvDomain(mem, small[..], g);
      ghost var heads := small[..];
      var idx := GetIndex(size);
      CarvedWords(mem, heads, g, k, b);
      Clear(b, size / 8);
      Store(b, small[idx]);
      small[idx] := b;
      assert small[..] == heads[k := b];
      ReleaseInv(old(mem), heads, g, k, b);
      ReleaseContents(old(mem), heads, g, k, b);
      ReleaseIs(old(mem), b, Width(k), heads[k]);
      g := ReleaseLedger(g, k, b);
      assert b in g.lists[k];
    }

    /** munmap. */
    method Munmap(b: Addr, size: nat)
      requires Valid() && b in g.live && size == g.live[b] > 2048
      modifies this`mem, this`g
      ensures Valid() && g.live == old(g.live) - {b} && Blocks() == old(Blocks()) - {b}
    {
      hide Page, Inv, Contents, LiveBlock, Domain, Without, Spans, UnmapLedger;
      ghost var p, n := LargeKind(mem, small[..], g, b);
      UnmapInv(mem, small[..], g, p, n);
      WithoutIs(mem, g, b, p, n, size);
      mem := mem - ZeroRange(b, size / 8).Keys;
      g := UnmapLedger(g, p, n);
    }

    /**
     free.  The size in the header decides; the header of a block that is already on a free list
     is zero, and then nothing happens.
     */
    method Free(ptr: Addr)
      requires Valid() && (ptr == 0 || (ptr >= 2 && (ptr - 2 in g.live || Listed(g, ptr - 2))))
      modifies this`mem, this`g, small
      ensures Valid()
      ensures ptr != 0 && ptr - 2 in old(g.live) ==>
                g.live == old(g.live) - {ptr - 2} && Blocks() == old(Blocks()) - {ptr - 2}
      ensures ptr != 0 && ptr - 2 in old(g.live) && old(g.live)[ptr - 2] <= 2048 ==> Listed(g, ptr - 2)
      ensures !(ptr != 0 && ptr - 2 in old(g.live)) ==> mem == old(mem) && g == old(g) && small[..] == old(small[..])
    {
      hide Page, Inv, Contents, LiveBlock, Domain, Bytes;
      if ptr != 0 {
        HeaderSays(mem, small[..], g, ptr - 2);
        var size := Load(ptr - 1);
        if size != 0 {
          if size <= 2048 {
            ghost var k := SmallKind(mem, small[..], g, ptr - 2);
            SmallFree(ptr - 2, size, k);
          } else {
            Munmap(ptr - 2, size);
          }
        }
      }
    }

    /** A caller's store to a word of its payload. */
    method Write(ptr: Addr, i: nat, v: nat)
      requires Valid() && ptr >= 2 && ptr - 2 in g.live && i < Room(g.live[ptr - 2])
      modifies this`mem
      ensures Valid() && ptr - 2 in old(Blocks()) && i < |old(Blocks())[ptr - 2]|
      ensures Blocks() == old(Blocks())[ptr - 2 := Updated(old(Blocks())[ptr - 2], i, v)]
    {
      hide Inv, Payload, Room;
      SetWord(mem, small[..], g, ptr - 2, i, v);
      Store(ptr + i, v);
    }

    /** memcpy of n words between blocks that do not overlap. */
    method Copy(dst: Addr, src: Addr, n: nat)
      requires dst + n <= src || src + n <= dst
      requires forall w :: dst <= w < dst + n || src <= w < src + n ==> w in mem
      modifies this`mem
      ensures Copied(old(mem), mem, dst, src, n)
    {
      for i := 0 to n
        invariant Copied(old(mem), mem, dst, src, i)
      {
        CopyStep(old(mem), mem, dst, src, i);
        var v := Load(src + i);
        Store(dst + i, v);
      }
    }

    /** The copy from block to block: as much as fits. */
    method CopyOver(r: Addr, ptr: Addr)
      requires Valid() && ptr >= 2 && ptr - 2 in g.live && r >= 2 && r - 2 in g.live && r != ptr
      requires Payload(mem, r - 2, g.live[r - 2]) == Zeros(Room(g.live[r - 2]))
      modifies this`mem
      ensures Valid()
      ensures Blocks() == old(Blocks())
                          [r - 2 := Fit(Payload(old(mem), ptr - 2, g.live[ptr - 2]), Room(g.live[r - 2]))]
    {
      hide Inv, Payload, Fit, Zeros, LiveBlock, Domain, Copied, Contents, Room;
      ghost var b, c := ptr - 2, r - 2;
      HeaderSays(mem, small[..], g, c);
      HeaderSays(mem, small[..], g, b);
      var n := Load(r - 1);
      if n > Load(ptr - 1) {
        n := Load(ptr - 1);
      }
      CopySpace(mem, small[..], g, b, c, n);
      Copy(r, ptr, (n - 16) / 8);
      CopyContents(old(mem), small[..], g, c, b, (n - 16) / 8, mem);
    }

    /** realloc of a carved block: a new block, a copy of what fits, and the old block is freed. */
    method ReallocCopy(ptr: Addr, size: nat, kernel: Option<nat>) returns (r: Addr)
      requires Valid() && ptr >= 2 && ptr - 2 in g.live && size < LIMIT
      modifies this, small
      ensures Valid() && ptr - 2 in old(Blocks())
      ensures r == 0 ==> errno == ENOMEM && mem == old(mem) && g == old(g) && small[..] == old(small[..])
      ensures r != 0 <==> Served(old(mem), old(g), size, kernel)
      ensures r != 0 ==> r >= 2 && r - 2 !in old(g.live) && g.live == (old(g.live) - {ptr - 2})[r - 2 := Need(size)]
      ensures r != 0 ==> Blocks() == (old(Blocks()) - {ptr - 2})[r - 2 := Fit(old(Blocks())[ptr - 2], Room(Need(size)))]
    {
      hide Inv, Payload, Fit, Need, Zeros, LiveBlock, Domain, Copied, Served, Room, Contents;
      LiveEntry(mem, g, ptr - 2);
      r := Malloc(size, kernel);
      if r != 0 {
        SameEntry(old(mem), old(g.live), mem, g.live, ptr - 2, r - 2, Zeros(Room(Need(size))));
        CopyOver(r, ptr);
        MoveEntry(old(Blocks()), ptr - 2, r - 2, Zeros(Room(Need(size))), Fit(old(Blocks())[ptr - 2], Room(Need(size))));
        Free(ptr);
      }
    }

    /** mremap with MREMAP_MAYMOVE: in place or elsewhere, where the kernel likes, with as much as fits. */
    method DoMremap(b: Addr, oldSize: nat, size: nat, kernel: Option<nat>) returns (a: Option<Addr>)
      requires size % 4096 == 0
      modifies this`mem
      ensures a.Some? <==> size > 0 && kernel.Some? && Placeable(Without(old(mem), b, oldSize / 8), kernel.value, size / 4096)
      ensures a.None? ==> mem == old(mem)
      ensures a.Some? ==> a.value == 512 * kernel.value && mem == Moved(old(mem), b, oldSize / 8, a.value, size / 8)
    {
      hide Placeable, Moved;
      if size == 0 || kernel.None? || !Placeable(Without(mem, b, oldSize / 8), kernel.value, size / 4096) {
        return None;
      }
      mem := Moved(mem, b, oldSize / 8, 512 * kernel.value, size / 8);
      a := Some(512 * kernel.value);
    }

    /** realloc of a direct mapping. */
    method ReallocRemap(ptr: Addr, size: nat, kernel: Option<nat>) returns (r: Addr)
      requires Valid() && ptr >= 2 && ptr - 2 in g.live && g.live[ptr - 2] > 2048 && size % 4096 == 0
      modifies this
      ensures Valid() && ptr - 2 in old(Blocks())
      ensures r == 0 ==> errno == ENOMEM && mem == old(mem) && g == old(g)
      ensures r != 0 <==> Movable(old(mem), ptr - 2, old(g.live)[ptr - 2], size, kernel)
      ensures r != 0 ==> r >= 2 && r - 2 !in old(g.live) - {ptr - 2} && g.live == (old(g.live) - {ptr - 2})[r - 2 := size]
      ensures r != 0 ==> Blocks() == (old(Blocks()) - {ptr - 2})[r - 2 := Fit(old(Blocks())[ptr - 2], Room(size))]
    {
      hide Inv, Payload, Fit, Room, Moved, Without, Placeable, MovedLedger;
      HeaderSays(mem, small[..], g, ptr - 2);
      var a := DoMremap(ptr - 2, Load(ptr - 1), size, kernel);
      if a.None? {
        errno := ENOMEM;
        return 0;
      }
      ghost var p0, n0 := MovedAll(old(mem), small[..], g, ptr - 2, size, kernel.value);
      Store(a.value + 1, size);
      g := MovedLedger(g, p0, n0, kernel.value, size / 4096);
      r := a.value + 2;
    }

    /**
     realloc.  On success as much of the payload as fits is kept, wherever the block ends up, and
     the rest of the new block is zero; when there is no memory the block stays as it was.
     */
    method Realloc(ptr: Addr, size: nat, kernel: Option<nat>) returns (r: Addr)
      requires Valid() && size < LIMIT && (ptr == 0 || (ptr >= 2 && ptr - 2 in g.live))
      modifies this, small
      ensures Valid() && (ptr != 0 ==> ptr - 2 in old(Blocks()))
      ensures size == 0 ==> r == 0
      ensures size == 0 && ptr == 0 ==> mem == old(mem) && g == old(g)
      ensures size == 0 && ptr != 0 ==> g.live == old(g.live) - {ptr - 2} && Blocks() == old(Blocks()) - {ptr - 2}
      ensures size > 0 && r == 0 ==> errno == ENOMEM && mem == old(mem) && g == old(g) && small[..] == old(small[..])
      ensures size > 0 ==> (r != 0 <==> ReallocServed(old(mem), old(g), ptr, size, kernel))
      ensures size > 0 && ptr != 0 && old(g.live)[ptr - 2] == Need(size) ==> r == ptr
      ensures size > 0 && r != 0 ==> r >= 2 && Grants(old(g.live), ptr, size, r, g.live)
      ensures size > 0 && r != 0 && ptr == 0 ==> Blocks() == old(Blocks())[r - 2 := Zeros(Room(Need(size)))]
      ensures size > 0 && r != 0 && ptr != 0 ==>
                Blocks() == (old(Blocks()) - {ptr - 2})
                            [r - 2 := Fit(old(Blocks())[ptr - 2], Room(NewSize(old(g.live)[ptr - 2], size)))]
    {
      hide Inv, Payload, Fit, Room, Need, PageAlign, Contents, Zeros, Served;
      r := ptr;
      if ptr == 0 {
        if size != 0 {
          r := Malloc(size, kernel);
        }
        return;
      }
      HeaderSays(mem, small[..], g, ptr - 2);
      LiveEntry(mem, g, ptr - 2);
      if size == 0 {
        Free(ptr);
        return 0;
      }
      NeedIs(size);
      var s := (size + 16) % LIMIT;
      if s < 16 {
        TooLarge(mem, g, ptr, size, kernel);
        errno := ENOMEM;
        return 0;
      }
      var need := if s <= 2048 then SmallNeed(s) else PageAlign(s);
      if Load(ptr - 1) != need {
        if Load(ptr - 1) <= 2048 {
          r := ReallocCopy(ptr, size, kernel);
        } else {
          r := ReallocRemap(ptr, PageAlign(need), kernel);
        }
      } else {
        KeepEntry(mem, g.live, ptr - 2);
      }
    }
  }

  lemma SecondWord(mem: Memory, small: seq<Addr>, g: Ledger, k: nat)
    requires Inv(mem, small, g) && k < 8 && g.lists[k] != []
    ensures g.lists[k][0] + 1 in mem && (g.lists[k][0] + 1) in mem[g.lists[k][0] := 0]
  {
    hide Inv, FreeBlock, Domain;
    InvDomain(mem, small, g);
    FreeNotLive(mem, small, g, k, g.lists[k][0]);
    FreeSecond(mem, g, k, g.lists[k][0]);
  }

  lemma FreeSecond(mem: Memory, g: Ledger, k: nat, b: Addr)
    requires Domain(mem, g.owner) && k < 8 && FreeBlock(mem, g, k, b)
    ensures b + 1 in mem && mem[b + 1] == 0
  {
    hide Page, Width, Align;
    HeaderWords(g.owner, k, b);
  }

  /** GET_SIZE. */
  function SmallNeed(s: nat): nat
    requires 0 < s <= 2048
  {
    LeastClass(s);
    Bytes(Index(s))
  }

  lemma NeedServed(mem: Memory, g: Ledger, size: nat, kernel: Option<nat>)
    requires size < LIMIT && Served(mem, g, size, kernel)
    ensures Need(size) > 0
  {
    hide Index, PageAlign, Bytes;
  }

  lemma TooLarge(mem: Memory, g: Ledger, ptr: Addr, size: nat, kernel: Option<nat>)
    requires 0 < size < LIMIT && ptr >= 2 && ptr - 2 in g.live && g.live[ptr - 2] > 0 && Need(size) == 0
    ensures !ReallocServed(mem, g, ptr, size, kernel)
  {
    hide Need;
    PageAlignRounds(0);
  }

  lemma NeedIs(size: nat)
    requires 0 < size < LIMIT
    ensures var s := (size + 16) % LIMIT;
            && (s < 16 <==> size + 16 >= LIMIT)
            && (s >= 16 ==> Need(size) == if s <= 2048 then SmallNeed(s) else PageAlign(s))
            && (s < 16 ==> Need(size) == 0)
  {
    hide PageAlign, Bytes, Index;
  }

  /** The size that realloc gives a block that had oldSize bytes. */
  function NewSize(oldSize: nat, size: nat): nat
    requires size < LIMIT
  {
    if oldSize <= 2048 || oldSize == Need(size) then Need(size) else PageAlign(Need(size))
  }

  /** The new block is where no other block in use is, and has room for what was asked. */
  ghost predicate Grants(live: map<Addr, nat>, ptr: Addr, size: nat, r: Addr, live': map<Addr, nat>)
    requires size < LIMIT && r >= 2 && (ptr != 0 ==> ptr >= 2 && ptr - 2 in live)
  {
    if ptr == 0 then r - 2 !in live && live' == live[r - 2 := Need(size)]
    else
      && r - 2 !in live - {ptr - 2}
      && live' == (live - {ptr - 2})[r - 2 := NewSize(live[ptr - 2], size)]
  }

  /** The block that realloc returns has room for what was asked. */
  lemma NewSizeFits(oldSize: nat, size: nat)
    requires 0 < size < LIMIT && NewSize(oldSize, size) > 0
    ensures 8 * Room(NewSize(oldSize, size)) >= size
    ensures NewSize(oldSize, size) > 2048 || NewSize(oldSize, size) == Need(size)
  {
    hide Need, PageAlign;
    AlignedNeed(size);
    NeedFits(size);
  }

  /** A block that was carved gets what malloc would give; a mapping gets whole pages. */
  lemma NewSizeExactly(oldSize: nat, size: nat)
    requires 0 < size <= LIMIT - 4112
    ensures size > 2032 || oldSize > 2048 ==>
              NewSize(oldSize, size) == 4096 * ((size + 16 + 4095) / 4096)
    ensures oldSize <= 2048 && size <= 2032 ==> forall k: nat :: LeastFor(k, size) ==> NewSize(oldSize, size) == 16 * Pow2(k)
  {
    hide Need, PageAlign, LeastFor;
    NeedExactly(size);
    NewPages(size);
    WholeNew(PageAlign(Need(size)));
  }

  lemma WholeNew(r: nat)
    requires r % 4096 == 0
    ensures r == 4096 * (r / 4096)
  {
  }

  lemma AlignedNeed(size: nat)
    requires 0 < size < LIMIT
    ensures Need(size) == 0 ==> PageAlign(Need(size)) == 0
    ensures Need(size) > 0 ==> PageAlign(Need(size)) >= Need(size) && PageAlign(Need(size)) >= 4096
    ensures Need(size) > 0 ==> PageAlign(Need(size)) % 4096 == 0
  {
  }

  lemma LiveEntry(mem: Memory, g: Ledger, b: Addr)
    requires b in g.live
    ensures b in Contents(mem, g.live) && Contents(mem, g.live)[b] == Payload(mem, b, g.live[b])
    ensures Fit(Payload(mem, b, g.live[b]), Room(g.live[b])) == Payload(mem, b, g.live[b])
  {
  }

  /** Nothing changes for a block that keeps its size. */
  lemma KeepEntry(mem: Memory, live: map<Addr, nat>, b: Addr)
    requires b in live
    ensures b in Contents(mem, live)
    ensures Contents(mem, live) == (Contents(mem, live) - {b})[b := Fit(Contents(mem, live)[b], Room(live[b]))]
    ensures live == (live - {b})[b := live[b]] && b !in live - {b}
  {
    LiveEntry(mem, Ledger(imap[], [], live), b);
    var c: map<Addr, seq<nat>> := Contents(mem, live);
    var without: map<Addr, seq<nat>> := c - {b};
    assert without[b := c[b]] == c;
  }

  lemma MovedFresh(mem: Memory, small: seq<Addr>, g: Ledger, p0: nat, n0: nat, p: nat, n: nat)
    requires Inv(mem, small, g) && 512 * p0 in g.live && Spans(g.owner, p0, n0)
    requires n > 0 && Placeable(Without(mem, 512 * p0, 512 * n0), p, n)
    ensures Fresh(UnmapLedger(g, p0, n0).owner, p, n) && 512 * p !in g.live - {512 * p0}
  {
    hide Inv, Without, Placeable, Fresh, Spans, Domain, Contents, MapMem;
    UnmapInv(mem, small, g, p0, n0);
    InvDomain(Without(mem, 512 * p0, 512 * n0), small, UnmapLedger(g, p0, n0));
    PlaceableFresh(Without(mem, 512 * p0, 512 * n0), UnmapLedger(g, p0, n0).owner, p, n);
    MapContents(Without(mem, 512 * p0, 512 * n0), small, UnmapLedger(g, p0, n0), p, n);
  }

  /** All of a move, from the answer of the kernel to the stored size. */
  lemma MovedAll(mem: Memory, small: seq<Addr>, g: Ledger, b: Addr, size: nat, p: nat) returns (p0: nat, n0: nat)
    requires Inv(mem, small, g) && b in g.live && g.live[b] > 2048 && size > 0 && size % 4096 == 0
    requires Placeable(Without(mem, b, g.live[b] / 8), p, size / 4096)
    ensures 512 * p + 1 in Moved(mem, b, g.live[b] / 8, 512 * p, size / 8)
    ensures Inv(Moved(mem, b, g.live[b] / 8, 512 * p, size / 8)[512 * p + 1 := size], small,
                MovedLedger(g, p0, n0, p, size / 4096))
    ensures var live' := MovedLedger(g, p0, n0, p, size / 4096).live;
            && live' == (g.live - {b})[512 * p := size] && 512 * p !in g.live - {b} && b in Contents(mem, g.live)
            && Contents(Moved(mem, b, g.live[b] / 8, 512 * p, size / 8)[512 * p + 1 := size], live')
               == (Contents(mem, g.live) - {b})[512 * p := Fit(Contents(mem, g.live)[b], Room(size))]
  {
    hide Inv, Payload, Fit, Room, Moved, Without, Placeable, Fresh, Spans, Contents, Pages, MovedLedger, UnmapLedger;
    p0, n0 := LargeKind(mem, small, g, b);
    var n := size / 4096;
    PageSizes(g.live[b], n0);
    PageSizes(size, n);
    MovedFresh(mem, small, g, p0, n0, p, n);
    MovedInv(mem, small, g, p0, n0, p, n);
    MovedLive(g, p0, n0, p, n);
    MovedHeader(mem, b, 512 * n0, p, n);
    LiveEntry(mem, g, b);
  }

  lemma PageSizes(size: nat, n: nat)
    requires size == 4096 * n
    ensures size / 8 == 512 * n && size / 4096 == n
  {
  }

  lemma MovedLive(g: Ledger, p0: nat, n0: nat, p: nat, n: nat)
    ensures MovedLedger(g, p0, n0, p, n).live == (g.live - {512 * p0})[512 * p := 4096 * n]
  {
  }

  lemma MovedHeader(mem: Memory, b: Addr, words: nat, p: nat, n: nat)
    requires n > 0
    ensures 512 * p + 1 in Moved(mem, b, words, 512 * p, 512 * n)
  {
    assert 512 * p + 1 in Shifted(mem, b, words, 512 * p, 512 * n);
  }

  lemma MoveEntry(m: map<Addr, seq<nat>>, b: Addr, c: Addr, empty: seq<nat>, filled: seq<nat>)
    requires b != c
    ensures m[c := empty][c := filled] - {b} == (m - {b})[c := filled]
  {
  }

  lemma CopyStep(mem: Memory, mem': Memory, dst: Addr, src: Addr, i: nat)
    requires Copied(mem, mem', dst, src, i) && dst + i in mem && src + i in mem
    requires src + i < dst || dst + i <= src
    ensures Copied(mem, mem'[dst + i := mem'[src + i]], dst, src, i + 1)
  {
    var mem'' := mem'[dst + i := mem'[src + i]];
    forall w | dst <= w < dst + i + 1
      ensures Word(mem'', w) == Word(mem, src + (w - dst))
    {
      if w < dst + i {
        assert Word(mem', w) == Word(mem, src + (w - dst));
      } else {
        assert mem'[src + i] == mem[src + i];
      }
    }
  }

  /** Two blocks in use do not overlap, so as much of one as fits can be copied to the other. */
  lemma CopySpace(mem: Memory, small: seq<Addr>, g: Ledger, b: Addr, c: Addr, n: nat)
    requires Inv(mem, small, g) && b in g.live && c in g.live && b != c
    requires n == if g.live[c] > g.live[b] then g.live[b] else g.live[c]
    ensures n >= 16 && (n - 16) / 8 == if Room(g.live[c]) <= Room(g.live[b]) then Room(g.live[c]) else Room(g.live[b])
    ensures var m := (n - 16) / 8; c + 2 + m <= b + 2 || b + 2 + m <= c + 2
    ensures var m := (n - 16) / 8; forall w :: c + 2 <= w < c + 2 + m || b + 2 <= w < b + 2 + m ==> w in mem
  {
    hide Inv;
    BlocksApart(mem, small, g, b, c);
    LiveSize(mem, small, g, b);
    LiveSize(mem, small, g, c);
  }

  lemma LiveSize(mem: Memory, small: seq<Addr>, g: Ledger, b: Addr)
    requires Inv(mem, small, g) && b in g.live
    ensures g.live[b] >= 16 && g.live[b] % 8 == 0
    ensures forall w :: b <= w < b + g.live[b] / 8 ==> w in mem
  {
    hide Inv, LiveBlock, BlockOf, Page;
    InvDomain(mem, small, g);
    LiveIsMapped(mem, small, g, b);
    LiveExtent(mem, g, b, b);
    forall w | b <= w < b + g.live[b] / 8
      ensures w in mem
    {
      LiveExtent(mem, g, b, w);
    }
  }

  /** Blocks in use do not overlap. */
  lemma BlocksApart(mem: Memory, small: seq<Addr>, g: Ledger, b: Addr, c: Addr)
    requires Inv(mem, small, g) && b in g.live && c in g.live && b != c
    ensures b + g.live[b] / 8 <= c || c + g.live[c] / 8 <= b
  {
    hide Inv, LiveBlock, BlockOf, Page;
    InvDomain(mem, small, g);
    LiveIsMapped(mem, small, g, b);
    LiveIsMapped(mem, small, g, c);
    if b < c {
      LiveExtent(mem, g, b, c);
    } else {
      LiveExtent(mem, g, c, b);
    }
  }

  /** A new entry leaves the payload of an old block as it was. */
  lemma SameEntry(mem: Memory, live: map<Addr, nat>, mem': Memory, live': map<Addr, nat>, b: Addr, c: Addr, words: seq<nat>)
    requires b in live && c !in live && b in live' && live'[b] == live[b] && c in live'
    requires Contents(mem', live') == Contents(mem, live)[c := words]
    ensures b in Contents(mem, live) && Payload(mem', b, live[b]) == Contents(mem, live)[b]
    ensures Payload(mem', c, live'[c]) == words
  {
    hide Payload;
    assert b in Contents(mem', live') && Contents(mem', live')[b] == Contents(mem, live)[b];
    assert c in Contents(mem', live') && Contents(mem', live')[c] == words;
  }

  /** All that a fresh mapping of `need` bytes means once its size is stored. */
  lemma MapAll(mem: Memory, small: seq<Addr>, g: Ledger, p: nat, n: nat, need: nat)
    requires Inv(mem, small, g) && Fresh(g.owner, p, n) && need == 4096 * n
    ensures Inv(MapMem(mem, p, n), small, MapLedger(g, p, n)) && 512 * p !in g.live
    ensures Contents(MapMem(mem, p, n), MapLedger(g, p, n).live)
            == Contents(mem, g.live)[512 * p := Zeros(Room(need))]
    ensures 512 * p + 1 in mem + ZeroRange(512 * p, 512 * n)
    ensures MapMem(mem, p, n) == (mem + ZeroRange(512 * p, 512 * n))[512 * p + 1 := need]
    ensures MapLedger(g, p, n).live == g.live[512 * p := need]
  {
    hide Inv, Contents, Room, Zeros, Domain, MapMem, ZeroRange, Fresh;
    InvDomain(mem, small, g);
    FreshFirst(mem, g.owner, p, n);
    MapInv(mem, small, g, p, n);
    MapContents(mem, small, g, p, n);
    MapFacts(mem, g, p, n);
  }

  lemma WholePages(need: nat)
    requires need % 4096 == 0
    ensures need == 4096 * (need / 4096) && (need > 0 ==> need / 4096 > 0)
  {
  }

  lemma MapFacts(mem: Memory, g: Ledger, p: nat, n: nat)
    requires n > 0
    ensures MapMem(mem, p, n) == (mem + ZeroRange(512 * p, 512 * n))[512 * p + 1 := 4096 * n]
    ensures 512 * p + 1 in mem + ZeroRange(512 * p, 512 * n)
    ensures MapLedger(g, p, n).live == g.live[512 * p := 4096 * n]
  {
    assert 512 * p + 1 in ZeroRange(512 * p, 512 * n);
  }

  ghost predicate Listed(g: Ledger, b: Addr) {
    exists k :: 0 <= k < |g.lists| && b in g.lists[k]
  }

  lemma CarvedWords(mem: Memory, small: seq<Addr>, g: Ledger, k: nat, b: Addr)
    requires Inv(mem, small, g) && b in g.live && k < 8
    requires Page(b) in g.owner && g.owner[Page(b)] == Carved(k)
    ensures b in mem && forall w :: b <= w < b + Width(k) ==> w in mem
  {
    hide Inv, Page, Width, Align, BlockOf, LiveBlock;
    InvDomain(mem, small, g);
    LiveIsMapped(mem, small, g, b);
    forall w | b <= w < b + Width(k)
      ensures w in mem
    {
      CarvedExtent(g.owner, b, w);
    }
  }

  lemma ReleaseIs(mem: Memory, b: Addr, n: nat, head: Addr)
    ensures ReleaseMem(mem, b, n, head) == (mem + ZeroRange(b, n))[b := head]
  {
  }

  /** A block in use with a small size is carved, one with a large size is a mapping. */
  lemma SmallKind(mem: Memory, small: seq<Addr>, g: Ledger, b: Addr) returns (k: nat)
    requires Inv(mem, small, g) && b in g.live && g.live[b] <= 2048
    ensures k < 8 && Page(b) in g.owner && g.owner[Page(b)] == Carved(k) && g.live[b] == Bytes(k)
  {
    LiveIsMapped(mem, small, g, b);
    InvDomain(mem, small, g);
    hide Inv, Page, Bytes, Align;
    k := g.owner[Page(b)].k;
  }

  lemma LargeKind(mem: Memory, small: seq<Addr>, g: Ledger, b: Addr) returns (p: nat, n: nat)
    requires Inv(mem, small, g) && b in g.live && g.live[b] > 2048
    ensures b == 512 * p && g.live[b] == 4096 * n && Spans(g.owner, p, n)
  {
    LiveIsMapped(mem, small, g, b);
    InvDomain(mem, small, g);
    hide Inv, Page, Align, Spans;
    p := g.owner[Page(b)].first;
    n := g.live[b] / 4096;
  }

  lemma WithoutIs(mem: Memory, g: Ledger, b: Addr, p: nat, n: nat, size: nat)
    requires b == 512 * p && size == 4096 * n
    ensures Without(mem, 512 * p, 512 * n) == mem - ZeroRange(b, size / 8).Keys
    ensures UnmapLedger(g, p, n).live == g.live - {b}
  {
    assert size / 8 == 512 * n;
  }

  /** The header of a block in use holds its size, that of a free block holds zero. */
  lemma HeaderSays(mem: Memory, small: seq<Addr>, g: Ledger, b: Addr)
    requires Inv(mem, small, g) && (b in g.live || Listed(g, b))
    ensures b + 1 in mem && mem[b + 1] == if b in g.live then g.live[b] else 0
    ensures b in g.live ==> g.live[b] > 0
  {
    InvDomain(mem, small, g);
    if b in g.live {
      LiveIsMapped(mem, small, g, b);
      hide Inv, Page;
      LiveExtent(mem, g, b, b);
    } else {
      hide Inv;
      var k :| 0 <= k < |g.lists| && b in g.lists[k];
      FreeNotLive(mem, small, g, k, b);
      FreeSecond(mem, g, k, b);
    }
  }

  lemma SlotsSome(k: nat, p: nat)
    requires k < 8
    ensures SlotsOf(k, p) != []
  {
  }
}
