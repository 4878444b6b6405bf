/**
 Carving a page into the blocks of one class (lib/alloc.c:106-121), and giving a direct
 mapping back to the kernel.
 */
module HeapCarve {

  import opened Bits
  import opened Common
  import opened Heap
  import opened HeapSteps

  // ----- the blocks of a page -----

  /** The n blocks of c words from a on. */
  function Slots(a: Addr, c: nat, n: nat): (l: seq<Addr>)
    ensures |l| == n && forall i :: 0 <= i < n ==> l[i] == a + c * i
  {
    seq<Addr>(n, i requires 0 <= i < n => Slot(a, c, i))
  }

  function Slot(a: Addr, c: nat, i: nat): Addr {
    a + c * i
  }

  lemma SlotNext(a: Addr, c: nat, i: nat)
    ensures a + c * (i + 1) == (a + c * i) + c
  {
  }

  /** The slots of page p are its aligned words. */
  lemma SlotAligned(k: nat, p: nat, i: nat)
    requires k < 8 && i < Count(k)
    ensures Page(512 * p + Width(k) * i) == p
    ensures Align(k, 512 * p + Width(k) * i) == 512 * p + Width(k) * i
  {
    hide Width, Count;
    var c := Width(k);
    var b := 512 * p + c * i;
    MulMono(i + 1, Count(k), c);
    assert c * (i + 1) == c * i + c;
    assert c * (Count(k) * p) == (c * Count(k)) * p == 512 * p;
    assert b == c * (Count(k) * p + i);
    DivUnique(c, Count(k) * p + i, b);
  }

  /** Every aligned word of page p is a slot. */
  lemma AlignedSlot(k: nat, p: nat, b: Addr) returns (i: nat)
    requires k < 8 && Page(b) == p && Align(k, b) == b
    ensures i < Count(k) && b == 512 * p + Width(k) * i
  {
    hide Width, Count;
    var c, d := Width(k), Count(k);
    var q := b / c;
    assert b == c * q;
    assert c * (d * p) == (c * d) * p == 512 * p;
    if q < d * p {
      MulMono(q + 1, d * p, c);
      assert false;
    }
    i := q - d * p;
    assert c * q == c * (d * p) + c * i;
    if i >= d {
      MulMono(d, i, c);
      assert false;
    }
  }

  ghost function SlotsOf(k: nat, p: nat): (l: seq<Addr>)
    requires k < 8
    ensures |l| == Count(k)
  {
    Slots(512 * p, Width(k), Count(k))
  }

  lemma SlotsMember(k: nat, p: nat, b: Addr)
    requires k < 8
    ensures b in SlotsOf(k, p) <==> Page(b) == p && Align(k, b) == b
  {
    hide Width, Count, Page, Align;
    var l := SlotsOf(k, p);
    if b in l {
      var i :| 0 <= i < |l| && l[i] == b;
      SlotAligned(k, p, i);
    }
    if Page(b) == p && Align(k, b) == b {
      var i := AlignedSlot(k, p, b);
      assert l[i] == b;
    }
  }

  lemma SlotsDistinct(k: nat, p: nat)
    requires k < 8
    ensures Distinct(SlotsOf(k, p))
  {
    hide Width, Count;
    var l := SlotsOf(k, p);
    forall i, j | 0 <= i < j < |l|
      ensures l[i] != l[j]
    {
      MulMono(i + 1, j, Width(k));
      SlotNext(0, Width(k), i);
    }
  }

  // ----- a page is carved -----

  /** The new page after the carving loop: its slots are linked in order, and all else is zero. */
  ghost predicate Threaded(mem: Memory, k: nat, p: nat)
    requires k < 8
  {
    Chain(mem, 512 * p, SlotsOf(k, p))
    && forall w :: w in mem && Page(w) == p && w !in SlotsOf(k, p) ==> mem[w] == 0
  }

  ghost function CarveLedger(g: Ledger, k: nat, p: nat): Ledger
    requires k < 8 == |g.lists|
  {
    Ledger(g.owner + Pages(p, 1, Carved(k)), g.lists[k := SlotsOf(k, p)], g.live)
  }

  lemma CarveFree(mem: Memory, small: seq<Addr>, g: Ledger, k: nat, p: nat, mem': Memory, b: Addr)
    requires Inv(mem, small, g) && k < 8 && Fresh(g.owner, p, 1) && Grown(mem, mem', p, 1) && Threaded(mem', k, p)
    requires b in SlotsOf(k, p)
    ensures Domain(mem', CarveLedger(g, k, p).owner) && FreeBlock(mem', CarveLedger(g, k, p), k, b)
  {
    hide Width, Count, Align, Page, Fresh, Classes, Pages, Chain, SlotsOf;
    var g' := CarveLedger(g, k, p);
    GrownDomain(mem, g.owner, p, 1, Carved(k), mem');
    SlotsMember(k, p, b);
    PagesOne(g.owner, p, Carved(k));
    NewSlot(mem, small, g, p, b);
    forall w | w in mem' && BlockOf(g'.owner, w) == b && w >= b + 1
      ensures mem'[w] == 0
    {
      CarvedExtent(g'.owner, b, w);
      SlotsMember(k, p, w);
      AlignExtent(k, b, w);
    }
  }

  lemma PagesOne(owner: Owners, p: nat, o: Owner)
    ensures p in owner + Pages(p, 1, o) && (owner + Pages(p, 1, o))[p] == o
  {
  }

  lemma NewSlot(mem: Memory, small: seq<Addr>, g: Ledger, p: nat, b: Addr)
    requires Inv(mem, small, g) && Fresh(g.owner, p, 1) && Page(b) == p
    ensures b !in mem && b !in g.live
  {
    hide Page, BlockOf, LiveBlock;
    if b in g.live {
      LiveIsMapped(mem, small, g, b);
    }
  }

  lemma CarveList(mem: Memory, small: seq<Addr>, g: Ledger, k: nat, p: nat, mem': Memory)
    requires Inv(mem, small, g) && k < 8 && Fresh(g.owner, p, 1) && Grown(mem, mem', p, 1) && Threaded(mem', k, p)
    ensures Domain(mem', CarveLedger(g, k, p).owner)
    ensures ListOk(mem', CarveLedger(g, k, p), k, 512 * p, SlotsOf(k, p))
  {
    hide Width, Count, Align, Page, Fresh, Classes, Pages, Chain, SlotsOf, FreeBlock, Grown;
    GrownDomain(mem, g.owner, p, 1, Carved(k), mem');
    SlotsDistinct(k, p);
    forall b | b in SlotsOf(k, p)
      ensures FreeBlock(mem', CarveLedger(g, k, p), k, b)
    {
      CarveFree(mem, small, g, k, p, mem', b);
    }
  }

  lemma CarveNewWord(g: Ledger, k: nat, p: nat, w: Addr)
    requires k < 8 == |g.lists| && Classes(g.owner) && Classes(CarveLedger(g, k, p).owner) && Page(w) == p
    ensures KeptWord(CarveLedger(g, k, p), w)
  {
    hide Width, Count, Align, Page, SlotsOf, Classes;
    AlignFacts(k, w);
    SlotsMember(k, p, Align(k, w));
  }

  lemma CarveOldWord(g: Ledger, k: nat, p: nat, w: Addr)
    requires k < 8 == |g.lists| && Classes(g.owner) && Classes(CarveLedger(g, k, p).owner)
    requires g.lists[k] == [] && Page(w) in g.owner && Page(w) != p && KeptWord(g, w)
    ensures KeptWord(CarveLedger(g, k, p), w)
  {
    hide Width, Count, Align, Page, SlotsOf;
  }

  lemma CarveKept(mem: Memory, g: Ledger, k: nat, p: nat, mem': Memory)
    requires Domain(mem, g.owner) && |g.lists| == 8 && Kept(mem, g) && k < 8 && g.lists[k] == []
    requires Fresh(g.owner, p, 1) && Grown(mem, mem', p, 1)
    ensures Domain(mem', CarveLedger(g, k, p).owner) && Kept(mem', CarveLedger(g, k, p))
  {
    hide Width, Count, Align, Page, Classes, SlotsOf, Fresh, Grown, KeptWord;
    GrownDomain(mem, g.owner, p, 1, Carved(k), mem');
    forall w | w in mem'
      ensures KeptWord(CarveLedger(g, k, p), w)
    {
      if Page(w) == p {
        CarveNewWord(g, k, p, w);
      } else {
        assert Page(w) in g.owner;
        assert w in mem;
        CarveOldWord(g, k, p, w);
      }
    }
  }

  /** All blocks of a carved page start on the free list of their class, and no caller notices. */
  lemma CarveInv(mem: Memory, small: seq<Addr>, g: Ledger, k: nat, p: nat, mem': Memory)
    requires Inv(mem, small, g) && k < 8 && g.lists[k] == []
    requires Fresh(g.owner, p, 1) && Grown(mem, mem', p, 1) && Threaded(mem', k, p)
    ensures Inv(mem', small[k := 512 * p], CarveLedger(g, k, p))
    ensures Contents(mem', g.live) == Contents(mem, g.live)
  {
    hide Width, Count, Align, Page, Classes, SlotsOf, BlockOf, LiveBlock, FreeBlock, ListOk, Kept, Payload, Pages, Fresh, Threaded;
    hide Grown;
    var g' := CarveLedger(g, k, p);
    GrowKeeps(mem, small, g, p, 1, Carved(k), mem', g');
    CarveList(mem, small, g, k, p, mem');
    CarveKept(mem, g, k, p, mem');
    InvIntro(mem', small[k := 512 * p], g');
  }

  // ----- a direct mapping goes -----

  function Without(mem: Memory, b: Addr, n: nat): Memory {
    mem - ZeroRange(b, n).Keys
  }

  ghost function UnmapLedger(g: Ledger, p: nat, n: nat): Ledger {
    Ledger(g.owner - ZeroRange(p, n).Keys, g.lists, g.live - {512 * p})
  }

  lemma UnmapDomain(mem: Memory, owner: Owners, p: nat, n: nat)
    requires Domain(mem, owner) && Spans(owner, p, n)
    ensures Domain(Without(mem, 512 * p, 512 * n), owner - ZeroRange(p, n).Keys)
  {
    hide Page;
    var owner' := owner - ZeroRange(p, n).Keys;
    forall q | q in owner'
      ensures match owner'[q]
              case Carved(k) => k < 8
              case Mapped(first) => first in owner' && owner'[first] == Mapped(first)
    {
      assert q in owner && owner'[q] == owner[q] && !(p <= q < p + n);
    }
    forall w: Addr
      ensures w in Without(mem, 512 * p, 512 * n) <==> Page(w) in owner'
    {
      PageRange(p, n, w);
    }
  }

  lemma UnmapUntouched(mem: Memory, owner: Owners, p: nat, n: nat, c: Addr)
    requires Domain(mem, owner) && Spans(owner, p, n) && c in mem && BlockOf(owner, c) == c && c != 512 * p
    ensures var mem', owner' := Without(mem, 512 * p, 512 * n), owner - ZeroRange(p, n).Keys;
            Domain(mem', owner') && Untouched(mem, owner, mem', owner', c)
  {
    hide Page, Align, Width, Classes;
    var mem', owner' := Without(mem, 512 * p, 512 * n), owner - ZeroRange(p, n).Keys;
    UnmapDomain(mem, owner, p, n);
    assert Domain(mem', owner');
    forall w | w in mem && BlockOf(owner, w) == c
      ensures w in mem' && BlockOf(owner', w) == c
    {
      PageRange(p, n, w);
      assert owner[Page(w)] != Mapped(p);
    }
    assert c in mem';
    assert BlockOf(owner, c) == c;
    CMapped(owner, p, n, c);
  }

  lemma CMapped(owner: Owners, p: nat, n: nat, c: Addr)
    requires Classes(owner) && Spans(owner, p, n) && Page(c) in owner && BlockOf(owner, c) == c && c != 512 * p
    ensures var owner' := owner - ZeroRange(p, n).Keys;
            forall q :: (q in owner' && owner'[q] == Mapped(Page(c))) <==> (q in owner && owner[q] == Mapped(Page(c)))
  {
  }

  /** What the end of a mapping keeps: the other blocks in use, with their payloads, and the free lists. */
  lemma UnmapKeeps(mem: Memory, small: seq<Addr>, g: Ledger, p: nat, n: nat)
    requires Inv(mem, small, g) && Spans(g.owner, p, n)
    ensures var mem', g' := Without(mem, 512 * p, 512 * n), UnmapLedger(g, p, n);
            && Domain(mem', g'.owner)
            && (forall c :: c in g'.live ==> LiveBlock(mem', g', c))
            && (forall c :: c in g.live && c != 512 * p ==> Payload(mem', c, g.live[c]) == Payload(mem, c, g.live[c]))
  {
    hide Width, Align, Page, BlockOf, LiveBlock, Untouched, Pages, Payload, Without, Spans;
    var mem', g' := Without(mem, 512 * p, 512 * n), UnmapLedger(g, p, n);
    UnmapDomain(mem, g.owner, p, n);
    forall c | c in g.live && c != 512 * p
      ensures LiveBlock(mem', g', c) && Payload(mem', c, g.live[c]) == Payload(mem, c, g.live[c])
    {
      LiveIsMapped(mem, small, g, c);
      UnmapUntouched(mem, g.owner, p, n, c);
      CarryLive(mem, g, mem', g', c);
      CarryPayload(mem, g, mem', g', c);
    }
  }

  lemma UnmapLists(mem: Memory, small: seq<Addr>, g: Ledger, p: nat, n: nat)
    requires Inv(mem, small, g) && Spans(g.owner, p, n) && 512 * p in g.live
    ensures var mem', g' := Without(mem, 512 * p, 512 * n), UnmapLedger(g, p, n);
            && Domain(mem', g'.owner)
            && (forall j :: 0 <= j < 8 ==> ListOk(mem', g', j, small[j], g.lists[j]))
  {
    hide Width, Align, Page, BlockOf, LiveBlock, FreeBlock, Untouched, Pages, Payload, Without, Spans, ListOk;
    var mem', g' := Without(mem, 512 * p, 512 * n), UnmapLedger(g, p, n);
    UnmapDomain(mem, g.owner, p, n);
    forall j | 0 <= j < 8
      ensures ListOk(mem', g', j, small[j], g.lists[j])
    {
      forall c | c in g.lists[j]
        ensures Untouched(mem, g.owner, mem', g'.owner, c) && c !in g'.live
      {
        FreeNotLive(mem, small, g, j, c);
        FreeIsBlock(mem, g, j, c);
        UnmapUntouched(mem, g.owner, p, n, c);
      }
      CarryList(mem, g, mem', g', j, small[j], g.lists[j]);
    }
  }

  lemma UnmapKept(mem: Memory, g: Ledger, p: nat, n: nat)
    requires Domain(mem, g.owner) && |g.lists| == 8 && Kept(mem, g) && Spans(g.owner, p, n)
    requires p in g.owner && g.owner[p] == Mapped(p)
    ensures var mem', g' := Without(mem, 512 * p, 512 * n), UnmapLedger(g, p, n); Domain(mem', g'.owner) && Kept(mem', g')
  {
    hide Width, Align, Page, Classes, KeptWord;
    var mem', g' := Without(mem, 512 * p, 512 * n), UnmapLedger(g, p, n);
    UnmapDomain(mem, g.owner, p, n);
    forall w | w in mem'
      ensures KeptWord(g', w)
    {
      PageRange(p, n, w);
      assert w in mem;
      UnmapWord(g, p, n, w);
    }
  }

  lemma UnmapWord(g: Ledger, p: nat, n: nat, w: Addr)
    requires Classes(g.owner) && Classes(UnmapLedger(g, p, n).owner) && |g.lists| == 8 && Spans(g.owner, p, n)
    requires Page(w) in UnmapLedger(g, p, n).owner && KeptWord(g, w) && p in g.owner && g.owner[p] == Mapped(p)
    ensures KeptWord(UnmapLedger(g, p, n), w)
  {
    hide Width, Align;
    if BlockOf(g.owner, w) == 512 * p {
      SameOwner(g.owner, w);
    }
  }

  lemma UnmapInv(mem: Memory, small: seq<Addr>, g: Ledger, p: nat, n: nat)
    requires Inv(mem, small, g) && Spans(g.owner, p, n) && 512 * p in g.live
    ensures Inv(Without(mem, 512 * p, 512 * n), small, UnmapLedger(g, p, n))
    ensures Contents(Without(mem, 512 * p, 512 * n), g.live - {512 * p}) == Contents(mem, g.live) - {512 * p}
  {
    hide Width, Align, Page, BlockOf, LiveBlock, FreeBlock, ListOk, Kept, Payload, Pages, Without;
    var mem', g' := Without(mem, 512 * p, 512 * n), UnmapLedger(g, p, n);
    assert p <= p < p + n;
    assert p in g.owner && g.owner[p] == Mapped(p);
    hide Spans;
    UnmapKeeps(mem, small, g, p, n);
    UnmapLists(mem, small, g, p, n);
    UnmapKept(mem, g, p, n);
    InvIntro(mem', small, g');
    ContentsDrop(mem, g.live, mem', 512 * p);
  }
}
