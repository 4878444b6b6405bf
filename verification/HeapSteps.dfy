/**
 The steps of the heap allocator (lib/alloc.c) as changes of its state, each of which keeps the
 invariant: a free block is taken, a block is given back, a page is carved, a mapping comes or
 goes, a caller writes to a payload.
 */
module HeapSteps {

  import opened Heap

  lemma OneList(mem: Memory, small: seq<Addr>, g: Ledger, k: nat, j: nat, b: Addr)
    requires Inv(mem, small, g) && k < 8 && j < 8 && b in g.lists[k] && b in g.lists[j]
    ensures j == k
  {
    hide Width, Align, Page;
    assert FreeBlock(mem, g, k, b) && FreeBlock(mem, g, j, b);
  }

  lemma FreeNotLive(mem: Memory, small: seq<Addr>, g: Ledger, k: nat, b: Addr)
    requires Inv(mem, small, g) && k < 8 && b in g.lists[k]
    ensures b !in g.live && FreeBlock(mem, g, k, b)
  {
    hide FreeBlock;
    assert ListOk(mem, g, k, small[k], g.lists[k]);
    assert FreeBlock(mem, g, k, b) ==> b !in g.live by { FreeIsNotLive(mem, g, k, b); }
  }

  lemma FreeIsNotLive(mem: Memory, g: Ledger, k: nat, b: Addr)
    requires Domain(mem, g.owner)
    ensures FreeBlock(mem, g, k, b) ==> b !in g.live
  {
  }

  lemma TailOk(mem: Memory, g: Ledger, k: nat, head: Addr, l: seq<Addr>)
    requires Domain(mem, g.owner) && ListOk(mem, g, k, head, l) && l != []
    ensures head == l[0] && l[0] in mem && ListOk(mem, g, k, mem[l[0]], l[1..]) && l[0] !in l[1..]
  {
    hide FreeBlock;
    ghost var second := After(l, 0);
    assert mem[l[0]] == second;
    forall i | 0 <= i < |l[1..]|
      ensures l[1..][i] in mem && mem[l[1..][i]] == After(l[1..], i)
    {
      assert l[1..][i] == l[i + 1] && After(l[1..], i) == After(l, i + 1);
    }
  }

  /** The first words of a carved block. */
  lemma HeaderWords(owner: Owners, k: nat, b: Addr)
    requires Classes(owner) && k < 8 && Page(b) in owner && owner[Page(b)] == Carved(k) && Align(k, b) == b
    ensures BlockOf(owner, b) == b && Page(b + 1) in owner && BlockOf(owner, b + 1) == b
    ensures owner[Page(b + 1)] == Carved(k)
  {
    hide Width, Align, Page;
    CarvedExtent(owner, b, b + 1);
    SameOwner(owner, b + 1);
  }

  // ----- taking a free block -----

  function TakeMem(mem: Memory, b: Addr, size: nat): Memory {
    mem[b := 0][b + 1 := size]
  }

  ghost function TakeLedger(g: Ledger, k: nat, b: Addr): Ledger
    requires k < 8 == |g.lists| && g.lists[k] != []
  {
    Ledger(g.owner, g.lists[k := g.lists[k][1..]], g.live[b := Bytes(k)])
  }

  lemma TakeBlock(mem: Memory, g: Ledger, k: nat, b: Addr, g': Ledger)
    requires Domain(mem, g.owner) && k < 8 && FreeBlock(mem, g, k, b)
    requires g'.owner == g.owner && b in g'.live && g'.live[b] == Bytes(k)
    ensures var mem' := TakeMem(mem, b, Bytes(k));
            Within(mem, g.owner, mem', b) && Domain(mem', g.owner) && LiveBlock(mem', g', b)
            && Payload(mem', b, Bytes(k)) == Zeros(Room(Bytes(k)))
  {
    hide Width, Align, Page;
    HeaderWords(g.owner, k, b);
    var mem' := TakeMem(mem, b, Bytes(k));
    assert Domain(mem', g.owner);
    forall w | b + 2 <= w < b + Width(k)
      ensures Word(mem', w) == 0
    {
      CarvedExtent(g.owner, b, w);
    }
  }

  lemma ContentsPut(mem: Memory, live: map<Addr, nat>, mem': Memory, b: Addr, size: nat)
    requires forall c :: c in live && c != b ==> Payload(mem', c, live[c]) == Payload(mem, c, live[c])
    ensures Contents(mem', live[b := size]) == Contents(mem, live)[b := Payload(mem', b, size)]
  {
    hide Payload;
  }

  lemma ContentsDrop(mem: Memory, live: map<Addr, nat>, mem': Memory, b: Addr)
    requires forall c :: c in live && c != b ==> Payload(mem', c, live[c]) == Payload(mem, c, live[c])
    ensures Contents(mem', live - {b}) == Contents(mem, live) - {b}
  {
    hide Payload;
  }

  lemma TakeLists(mem: Memory, small: seq<Addr>, g: Ledger, k: nat, mem': Memory, g': Ledger)
    requires Inv(mem, small, g) && k < 8 && g.lists[k] != []
    requires var b := g.lists[k][0]; Within(mem, g.owner, mem', b) && g' == TakeLedger(g, k, b)
    ensures Domain(mem', g.owner) && g.lists[k][0] in mem && small[k] == g.lists[k][0]
    ensures var small' := small[k := mem[g.lists[k][0]]];
            forall j :: 0 <= j < 8 ==> ListOk(mem', g', j, small'[j], g'.lists[j])
  {
    hide Width, Align, Page, BlockOf, LiveBlock, FreeBlock, ListOk;
    var b := g.lists[k][0];
    assert ListOk(mem, g, k, small[k], g.lists[k]);
    TailOk(mem, g, k, small[k], g.lists[k]);
    KeepList(mem, small, g, mem', g', b, k, mem[b], g.lists[k][1..]);
    forall j | 0 <= j < 8 && j != k
      ensures ListOk(mem', g', j, small[j], g.lists[j])
    {
      if b in g.lists[j] {
        OneList(mem, small, g, k, j, b);
      }
      KeepList(mem, small, g, mem', g', b, j, small[j], g.lists[j]);
    }
  }

  lemma TakeKept(mem: Memory, g: Ledger, k: nat, mem': Memory, g': Ledger)
    requires Domain(mem, g.owner) && |g.lists| == 8 && Kept(mem, g) && k < 8 && g.lists[k] != []
    requires g' == TakeLedger(g, k, g.lists[k][0]) && mem'.Keys == mem.Keys
    ensures Domain(mem', g.owner) && Kept(mem', g')
  {
    hide Width, Align, Page, BlockOf;
    forall w | w in mem'
      ensures KeptWord(g', w)
    {
      assert KeptWord(g, w);
    }
  }

  lemma TakeKeys(mem: Memory, small: seq<Addr>, g: Ledger, k: nat, b: Addr)
    requires Domain(mem, g.owner) && k < 8 && FreeBlock(mem, g, k, b)
    ensures TakeMem(mem, b, Bytes(k)).Keys == mem.Keys
  {
    hide Width, Align, Page;
    HeaderWords(g.owner, k, b);
  }

  /** What is left to show for the invariant once the memory agrees with the owners. */
  lemma InvIntro(mem: Memory, small: seq<Addr>, g: Ledger)
    requires Domain(mem, g.owner) && |small| == |g.lists| == 8
    requires forall k :: 0 <= k < 8 ==> ListOk(mem, g, k, small[k], g.lists[k])
    requires forall b :: b in g.live ==> LiveBlock(mem, g, b)
    requires Kept(mem, g)
    ensures Inv(mem, small, g)
  {
  }

  lemma TakeInv(mem: Memory, small: seq<Addr>, g: Ledger, k: nat)
    requires Inv(mem, small, g) && k < 8 && g.lists[k] != []
    ensures g.lists[k][0] in mem && small[k] == g.lists[k][0]
    ensures var b := g.lists[k][0]; Inv(TakeMem(mem, b, Bytes(k)), small[k := mem[b]], TakeLedger(g, k, b))
  {
    hide Width, Align, Page, BlockOf, LiveBlock, FreeBlock, Bytes, TakeMem, Within, ListOk, Kept, Payload;
    var b := g.lists[k][0];
    var g' := TakeLedger(g, k, b);
    var mem' := TakeMem(mem, b, Bytes(k));
    FreeNotLive(mem, small, g, k, b);
    TakeBlock(mem, g, k, b, g');
    TakeLists(mem, small, g, k, mem', g');
    WithinKeeps(mem, small, g, mem', g', b);
    TakeKeys(mem, small, g, k, b);
    TakeKept(mem, g, k, mem', g');
    InvIntro(mem', small[k := mem[b]], g');
  }

  lemma TakeContents(mem: Memory, small: seq<Addr>, g: Ledger, k: nat)
    requires Inv(mem, small, g) && k < 8 && g.lists[k] != []
    ensures g.lists[k][0] !in g.live
    ensures var b := g.lists[k][0];
            Contents(TakeMem(mem, b, Bytes(k)), g.live[b := Bytes(k)])
            == Contents(mem, g.live)[b := Zeros(Room(Bytes(k)))]
  {
    hide Width, Align, Page, BlockOf, LiveBlock, FreeBlock, Bytes, TakeMem, Within, ListOk, Kept, Payload;
    var b := g.lists[k][0];
    var g' := TakeLedger(g, k, b);
    FreeNotLive(mem, small, g, k, b);
    TakeBlock(mem, g, k, b, g');
    WithinKeeps(mem, small, g, TakeMem(mem, b, Bytes(k)), g', b);
    ContentsPut(mem, g.live, TakeMem(mem, b, Bytes(k)), b, Bytes(k));
  }

  // ----- giving a block back to its list -----

  function ZeroRange(b: Addr, n: nat): (m: Memory)
    ensures forall w :: w in m <==> b <= w < b + n
    ensures forall w :: w in m ==> m[w] == 0
  {
    if n == 0 then map[] else ZeroRange(b, n - 1)[b + n - 1 := 0]
  }

  function ReleaseMem(mem: Memory, b: Addr, n: nat, head: Addr): Memory {
    (mem + ZeroRange(b, n))[b := head]
  }

  ghost function ReleaseLedger(g: Ledger, k: nat, b: Addr): Ledger
    requires k < 8 == |g.lists|
  {
    Ledger(g.owner, g.lists[k := [b] + g.lists[k]], g.live - {b})
  }

  lemma ReleaseBlock(mem: Memory, g: Ledger, k: nat, b: Addr, head: Addr, g': Ledger)
    requires Domain(mem, g.owner) && k < 8 && b in g.live && LiveBlock(mem, g, b) && g.owner[Page(b)] == Carved(k)
    requires g'.owner == g.owner && b !in g'.live
    ensures var mem' := ReleaseMem(mem, b, Width(k), head);
            mem'.Keys == mem.Keys && Within(mem, g.owner, mem', b) && Domain(mem', g.owner)
            && FreeBlock(mem', g', k, b) && mem'[b] == head
  {
    hide Width, Align, Page;
    var mem' := ReleaseMem(mem, b, Width(k), head);
    forall w
      ensures w in mem' <==> w in mem
      ensures w in mem && BlockOf(g.owner, w) != b ==> mem'[w] == mem[w]
      ensures w in mem && BlockOf(g.owner, w) == b && w != b ==> mem'[w] == 0
    {
      CarvedExtent(g.owner, b, w);
    }
    assert Domain(mem', g.owner);
  }

  lemma ConsOk(mem: Memory, g: Ledger, k: nat, head: Addr, l: seq<Addr>, b: Addr)
    requires Domain(mem, g.owner) && ListOk(mem, g, k, head, l) && b !in l
    requires FreeBlock(mem, g, k, b) && b in mem && mem[b] == head
    ensures ListOk(mem, g, k, b, [b] + l)
  {
    hide FreeBlock;
    forall i | 0 <= i < |l| + 1
      ensures ([b] + l)[i] in mem && mem[([b] + l)[i]] == After([b] + l, i)
    {
      assert i > 0 ==> ([b] + l)[i] == l[i - 1] && After([b] + l, i) == After(l, i - 1);
    }
  }

  lemma ReleaseLists(mem: Memory, small: seq<Addr>, g: Ledger, k: nat, b: Addr, mem': Memory, g': Ledger)
    requires Inv(mem, small, g) && k < 8 && b in g.live
    requires Within(mem, g.owner, mem', b) && g' == ReleaseLedger(g, k, b)
    requires Domain(mem', g.owner) && FreeBlock(mem', g', k, b) && b in mem' && mem'[b] == small[k]
    ensures forall j :: 0 <= j < 8 ==> ListOk(mem', g', j, small[k := b][j], g'.lists[j])
  {
    hide Width, Align, Page, BlockOf, LiveBlock, FreeBlock, ListOk;
    forall j | 0 <= j < 8
      ensures b !in g.lists[j] && ListOk(mem', g', j, small[j], g.lists[j])
    {
      if b in g.lists[j] {
        FreeNotLive(mem, small, g, j, b);
      }
      KeepList(mem, small, g, mem', g', b, j, small[j], g.lists[j]);
    }
    ConsOk(mem', g', k, small[k], g.lists[k], b);
  }

  lemma ReleaseKept(mem: Memory, g: Ledger, k: nat, b: Addr, mem': Memory, g': Ledger)
    requires Domain(mem, g.owner) && |g.lists| == 8 && Kept(mem, g) && k < 8 && mem'.Keys == mem.Keys
    requires Page(b) in g.owner && g.owner[Page(b)] == Carved(k) && g' == ReleaseLedger(g, k, b)
    ensures Domain(mem', g.owner) && Kept(mem', g')
  {
    hide Width, Align, Page, BlockOf;
    forall w | w in mem'
      ensures KeptWord(g', w)
    {
      assert KeptWord(g, w);
      SameOwner(g.owner, w);
    }
  }

  lemma ReleaseInv(mem: Memory, small: seq<Addr>, g: Ledger, k: nat, b: Addr)
    requires Inv(mem, small, g) && b in g.live && Page(b) in g.owner && k < 8 && g.owner[Page(b)] == Carved(k)
    ensures Inv(ReleaseMem(mem, b, Width(k), small[k]), small[k := b], ReleaseLedger(g, k, b))
  {
    hide Width, Align, Page, BlockOf, LiveBlock, FreeBlock, ReleaseMem, Within, ListOk, Kept, Payload;
    var g' := ReleaseLedger(g, k, b);
    var mem' := ReleaseMem(mem, b, Width(k), small[k]);
    ReleaseBlock(mem, g, k, b, small[k], g');
    FreeIsMapped(mem', g', k, b);
    ReleaseLists(mem, small, g, k, b, mem', g');
    WithinKeeps(mem, small, g, mem', g', b);
    ReleaseKept(mem, g, k, b, mem', g');
    InvIntro(mem', small[k := b], g');
  }

  lemma FreeIsMapped(mem: Memory, g: Ledger, k: nat, b: Addr)
    requires Domain(mem, g.owner) && FreeBlock(mem, g, k, b)
    ensures b in mem
  {
  }

  lemma ReleaseContents(mem: Memory, small: seq<Addr>, g: Ledger, k: nat, b: Addr)
    requires Inv(mem, small, g) && b in g.live && Page(b) in g.owner && k < 8 && g.owner[Page(b)] == Carved(k)
    ensures Contents(ReleaseMem(mem, b, Width(k), small[k]), g.live - {b}) == Contents(mem, g.live) - {b}
  {
    hide Width, Align, Page, BlockOf, LiveBlock, FreeBlock, ReleaseMem, Within, ListOk, Kept, Payload;
    var g' := ReleaseLedger(g, k, b);
    var mem' := ReleaseMem(mem, b, Width(k), small[k]);
    ReleaseBlock(mem, g, k, b, small[k], g');
    WithinKeeps(mem, small, g, mem', g', b);
    ContentsDrop(mem, g.live, mem', b);
  }

  // ----- writing to a payload -----

  /** A caller's change to the payload of block b. */
  lemma WriteInv(mem: Memory, small: seq<Addr>, g: Ledger, b: Addr, mem': Memory)
    requires Inv(mem, small, g) && b in g.live && Within(mem, g.owner, mem', b)
    requires b + 1 in mem && b + 1 in mem' && mem'[b + 1] == mem[b + 1]
    ensures Inv(mem', small, g)
    ensures Contents(mem', g.live) == Contents(mem, g.live)[b := Payload(mem', b, g.live[b])]
  {
    hide Width, Align, Page, BlockOf, FreeBlock, ListOk, Payload;
    WithinKeeps(mem, small, g, mem', g, b);
    forall j | 0 <= j < 8
      ensures b !in g.lists[j]
    {
      if b in g.lists[j] {
        FreeNotLive(mem, small, g, j, b);
      }
    }
    assert LiveBlock(mem, g, b);
    assert LiveBlock(mem', g, b);
    hide LiveBlock;
    forall w | w in mem'
      ensures KeptWord(g, w)
    {
      assert w in mem;
    }
    InvIntro(mem', small, g);
    assert g.live[b := g.live[b]] == g.live;
    ContentsPut(mem, g.live, mem', b, g.live[b]);
  }

  // ----- pages that come -----

  function Pages(p: nat, n: nat, o: Owner): (owner: Owners)
    ensures forall q :: q in owner <==> p <= q < p + n
    ensures forall q :: q in owner ==> owner[q] == o
  {
    if n == 0 then imap[] else Pages(p, n - 1, o)[p + n - 1 := o]
  }

  /** None of the n pages from p on is mapped, and page 0 is not among them. */
  ghost predicate Fresh(owner: Owners, p: nat, n: nat) {
    p > 0 && n > 0 && forall q :: p <= q < p + n ==> q !in owner
  }

  ghost predicate GoodOwner(p: nat, o: Owner) {
    match o
    case Carved(k) => k < 8
    case Mapped(first) => first == p
  }

  lemma PageRange(p: nat, n: nat, w: Addr)
    ensures p <= Page(w) < p + n <==> 512 * p <= w < 512 * p + 512 * n
  {
  }

  lemma GrowClasses(owner: Owners, p: nat, n: nat, o: Owner)
    requires Classes(owner) && Fresh(owner, p, n) && GoodOwner(p, o)
    ensures Classes(owner + Pages(p, n, o))
  {
    var owner' := owner + Pages(p, n, o);
    forall q | q in owner'
      ensures match owner'[q]
              case Carved(k) => k < 8
              case Mapped(first) => first in owner' && owner'[first] == Mapped(first)
    {
      assert q in owner ==> owner'[q] == owner[q];
    }
  }

  lemma GrowDomain(mem: Memory, owner: Owners, p: nat, n: nat, o: Owner)
    requires Domain(mem, owner) && Fresh(owner, p, n) && GoodOwner(p, o)
    ensures Domain(mem + ZeroRange(512 * p, 512 * n), owner + Pages(p, n, o))
  {
    hide Page, Classes;
    var mem', owner' := mem + ZeroRange(512 * p, 512 * n), owner + Pages(p, n, o);
    GrowClasses(owner, p, n, o);
    forall w: Addr
      ensures w in mem' <==> Page(w) in owner'
    {
      PageRange(p, n, w);
    }
  }

  /** The blocks of the new pages lie in them. */
  lemma NewBlock(owner: Owners, p: nat, n: nat, o: Owner, w: Addr)
    requires Classes(owner) && Fresh(owner, p, n) && GoodOwner(p, o) && p <= Page(w) < p + n
    ensures Classes(owner + Pages(p, n, o))
    ensures p <= Page(BlockOf(owner + Pages(p, n, o), w)) < p + n
  {
    GrowClasses(owner, p, n, o);
    hide Classes, Align, Width;
    if o.Carved? {
      AlignFacts(o.k, w);
    }
  }

  /** The old blocks are left alone. */
  lemma GrowUntouched(mem: Memory, owner: Owners, p: nat, n: nat, o: Owner, mem': Memory, c: Addr)
    requires Domain(mem, owner) && Fresh(owner, p, n) && GoodOwner(p, o) && c in mem && BlockOf(owner, c) == c
    requires mem'.Keys == (mem + ZeroRange(512 * p, 512 * n)).Keys && forall w :: w in mem ==> mem'[w] == mem[w]
    ensures Domain(mem', owner + Pages(p, n, o)) && Untouched(mem, owner, mem', owner + Pages(p, n, o), c)
  {
    hide Page, Align, Width, Classes;
    var owner' := owner + Pages(p, n, o);
    GrowDomain(mem, owner, p, n, o);
    assert Domain(mem', owner');
    forall w | w in mem' && BlockOf(owner', w) == c
      ensures w in mem && BlockOf(owner, w) == c && mem'[w] == mem[w]
    {
      if Page(w) !in owner {
        NewBlock(owner, p, n, o, w);
      }
    }
    assert forall q :: (q in owner' && owner'[q] == Mapped(Page(c))) <==> (q in owner && owner[q] == Mapped(Page(c)));
  }

  lemma LiveIsMapped(mem: Memory, small: seq<Addr>, g: Ledger, c: Addr)
    requires Inv(mem, small, g) && c in g.live
    ensures LiveBlock(mem, g, c) && c in mem && BlockOf(g.owner, c) == c
  {
    hide Page, Align, Width;
  }

  lemma FreeIsBlock(mem: Memory, g: Ledger, k: nat, c: Addr)
    requires Domain(mem, g.owner) && FreeBlock(mem, g, k, c)
    ensures c in mem && BlockOf(g.owner, c) == c
  {
    hide Page, Align, Width;
  }

  /** Memory grows by n zero pages, in which words may then be set. */
  ghost predicate Grown(mem: Memory, mem': Memory, p: nat, n: nat) {
    mem'.Keys == (mem + ZeroRange(512 * p, 512 * n)).Keys && forall w :: w in mem ==> mem'[w] == mem[w]
  }

  lemma GrownDomain(mem: Memory, owner: Owners, p: nat, n: nat, o: Owner, mem': Memory)
    requires Domain(mem, owner) && Fresh(owner, p, n) && GoodOwner(p, o) && Grown(mem, mem', p, n)
    ensures Domain(mem', owner + Pages(p, n, o))
  {
    hide Page, Classes;
    GrowDomain(mem, owner, p, n, o);
  }

  /** What new pages keep: the blocks in use, with their payloads, and the free lists. */
  lemma GrowKeeps(mem: Memory, small: seq<Addr>, g: Ledger, p: nat, n: nat, o: Owner, mem': Memory, g': Ledger)
    requires Inv(mem, small, g) && Fresh(g.owner, p, n) && GoodOwner(p, o) && Grown(mem, mem', p, n)
    requires g'.owner == g.owner + Pages(p, n, o)
    requires forall c :: c in g'.live ==> (c in g.live && g'.live[c] == g.live[c]) || c !in mem
    requires forall c :: c in g.live ==> c in g'.live
    ensures Domain(mem', g'.owner)
    ensures forall c :: c in g.live ==> LiveBlock(mem', g', c) && Payload(mem', c, g.live[c]) == Payload(mem, c, g.live[c])
    ensures forall j :: 0 <= j < 8 ==> ListOk(mem', g', j, small[j], g.lists[j])
  {
    hide Width, Align, Page, BlockOf, LiveBlock, FreeBlock, Untouched, Pages, Fresh, GoodOwner, Payload, Grown;
    GrownDomain(mem, g.owner, p, n, o, mem');
    forall c | c in g.live
      ensures LiveBlock(mem', g', c) && Payload(mem', c, g.live[c]) == Payload(mem, c, g.live[c])
    {
      LiveIsMapped(mem, small, g, c);
      GrownUntouched(mem, g.owner, p, n, o, mem', c);
      CarryLive(mem, g, mem', g', c);
      CarryPayload(mem, g, mem', g', c);
    }
    forall j | 0 <= j < 8
      ensures ListOk(mem', g', j, small[j], g.lists[j])
    {
      forall c | c in g.lists[j]
        ensures Untouched(mem, g.owner, mem', g'.owner, c) && c !in g'.live
      {
        FreeNotLive(mem, small, g, j, c);
        FreeIsBlock(mem, g, j, c);
        GrownUntouched(mem, g.owner, p, n, o, mem', c);
      }
      CarryList(mem, g, mem', g', j, small[j], g.lists[j]);
    }
  }

  lemma GrownUntouched(mem: Memory, owner: Owners, p: nat, n: nat, o: Owner, mem': Memory, c: Addr)
    requires Domain(mem, owner) && Fresh(owner, p, n) && GoodOwner(p, o) && c in mem && BlockOf(owner, c) == c
    requires Grown(mem, mem', p, n)
    ensures Domain(mem', owner + Pages(p, n, o)) && Untouched(mem, owner, mem', owner + Pages(p, n, o), c)
  {
    GrowUntouched(mem, owner, p, n, o, mem', c);
  }

  // ----- a direct mapping that comes -----

  function MapMem(mem: Memory, p: nat, n: nat): Memory {
    (mem + ZeroRange(512 * p, 512 * n))[512 * p + 1 := 4096 * n]
  }

  ghost function MapLedger(g: Ledger, p: nat, n: nat): Ledger {
    Ledger(g.owner + Pages(p, n, Mapped(p)), g.lists, g.live[512 * p := 4096 * n])
  }

  lemma FreshWord(mem: Memory, owner: Owners, p: nat, n: nat, w: Addr)
    requires Domain(mem, owner) && Fresh(owner, p, n) && 512 * p <= w < 512 * p + 512 * n
    ensures w !in mem && p <= Page(w) < p + n
  {
    PageRange(p, n, w);
  }

  lemma FreshFirst(mem: Memory, owner: Owners, p: nat, n: nat)
    requires Domain(mem, owner) && Fresh(owner, p, n)
    ensures 512 * p !in mem && n > 0
  {
    FreshWord(mem, owner, p, n, 512 * p);
  }

  lemma MapGrown(mem: Memory, owner: Owners, p: nat, n: nat)
    requires Domain(mem, owner) && Fresh(owner, p, n)
    ensures Grown(mem, MapMem(mem, p, n), p, n)
  {
    hide Page;
    forall w | 512 * p <= w < 512 * p + 512 * n
      ensures w !in mem
    {
      FreshWord(mem, owner, p, n, w);
    }
  }

  lemma FirstWords(p: nat)
    ensures Page(512 * p) == p && Page(512 * p + 1) == p
  {
  }

  lemma MapBlock(mem: Memory, g: Ledger, p: nat, n: nat)
    requires Domain(mem, g.owner) && Fresh(g.owner, p, n)
    ensures var mem' := MapMem(mem, p, n); var g' := MapLedger(g, p, n);
            Domain(mem', g'.owner) && LiveBlock(mem', g', 512 * p)
  {
    hide Align, Width, Classes, Page, ZeroRange;
    var mem', g' := MapMem(mem, p, n), MapLedger(g, p, n);
    MapGrown(mem, g.owner, p, n);
    GrownDomain(mem, g.owner, p, n, Mapped(p), mem');
    MapSpans(g.owner, p, n);
    FirstWords(p);
    assert p in g'.owner && g'.owner[p] == Mapped(p);
    assert 4096 * n / 4096 == n;
  }

  lemma MapPayload(mem: Memory, p: nat, n: nat)
    ensures Payload(MapMem(mem, p, n), 512 * p, 4096 * n) == Zeros(Room(4096 * n))
  {
    var mem' := MapMem(mem, p, n);
    hide MapMem;
    forall w | 512 * p + 2 <= w < 512 * p + 512 * n
      ensures Word(mem', w) == 0
    {
      MapWord(mem, p, n, w);
    }
  }

  lemma MapWord(mem: Memory, p: nat, n: nat, w: Addr)
    requires 512 * p + 2 <= w < 512 * p + 512 * n
    ensures Word(MapMem(mem, p, n), w) == 0
  {
    assert w in ZeroRange(512 * p, 512 * n);
  }

  lemma MapSpans(owner: Owners, p: nat, n: nat)
    requires Classes(owner) && Fresh(owner, p, n)
    ensures Spans(owner + Pages(p, n, Mapped(p)), p, n)
  {
    hide Page;
    var owner' := owner + Pages(p, n, Mapped(p));
    forall q
      ensures (q in owner' && owner'[q] == Mapped(p)) <==> p <= q < p + n
    {
      if q in owner && !(p <= q < p + n) {
        assert owner'[q] == owner[q];
      }
    }
  }

  lemma MapKept(mem: Memory, g: Ledger, p: nat, n: nat)
    requires Domain(mem, g.owner) && |g.lists| == 8 && Kept(mem, g) && Fresh(g.owner, p, n)
    ensures var mem' := MapMem(mem, p, n); var g' := MapLedger(g, p, n); Domain(mem', g'.owner) && Kept(mem', g')
  {
    hide Width, Align, Page, Classes;
    var mem', g' := MapMem(mem, p, n), MapLedger(g, p, n);
    MapGrown(mem, g.owner, p, n);
    GrownDomain(mem, g.owner, p, n, Mapped(p), mem');
    forall w | w in mem'
      ensures KeptWord(g', w)
    {
      if Page(w) in g.owner {
        assert KeptWord(g, w) by {
          assert w in mem;
        }
      }
    }
  }

  lemma MapInv(mem: Memory, small: seq<Addr>, g: Ledger, p: nat, n: nat)
    requires Inv(mem, small, g) && Fresh(g.owner, p, n)
    ensures Inv(MapMem(mem, p, n), small, MapLedger(g, p, n))
  {
    hide Width, Align, Page, BlockOf, LiveBlock, FreeBlock, ListOk, Kept, Payload, MapMem, Pages, Classes, Grown, Fresh;
    var mem', g' := MapMem(mem, p, n), MapLedger(g, p, n);
    FreshFirst(mem, g.owner, p, n);
    MapGrown(mem, g.owner, p, n);
    MapBlock(mem, g, p, n);
    NewNotLive(mem, small, g, 512 * p);
    GrowKeeps(mem, small, g, p, n, Mapped(p), mem', g');
    MapKept(mem, g, p, n);
    InvIntro(mem', small, g');
  }

  lemma NewNotLive(mem: Memory, small: seq<Addr>, g: Ledger, b: Addr)
    requires Inv(mem, small, g) && b !in mem
    ensures b !in g.live
  {
    hide Page, BlockOf, LiveBlock;
    if b in g.live {
      LiveIsMapped(mem, small, g, b);
    }
  }

  lemma MapContents(mem: Memory, small: seq<Addr>, g: Ledger, p: nat, n: nat)
    requires Inv(mem, small, g) && Fresh(g.owner, p, n)
    ensures 512 * p !in g.live
    ensures Contents(MapMem(mem, p, n), g.live[512 * p := 4096 * n])
            == Contents(mem, g.live)[512 * p := Zeros(Room(4096 * n))]
  {
    hide Width, Align, Page, BlockOf, LiveBlock, FreeBlock, ListOk, Kept, Payload, MapMem, Pages, Classes, Grown, Fresh, Contents, Inv;
    var mem', g' := MapMem(mem, p, n), MapLedger(g, p, n);
    InvDomain(mem, small, g);
    FreshFirst(mem, g.owner, p, n);
    MapGrown(mem, g.owner, p, n);
    NewNotLive(mem, small, g, 512 * p);
    GrowKeeps(mem, small, g, p, n, Mapped(p), mem', g');
    MapPayload(mem, p, n);
    ContentsPut(mem, g.live, mem', 512 * p, 4096 * n);
  }

  lemma InvDomain(mem: Memory, small: seq<Addr>, g: Ledger)
    requires Inv(mem, small, g)
    ensures Domain(mem, g.owner) && |small| == |g.lists| == 8
  {
  }
}
