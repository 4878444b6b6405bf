/**
 The state of the heap allocator (lib/alloc.c) and what it keeps true.

 Memory is a finite map from the addresses of mapped 8-byte words to their values; addresses
 count words, so a page of 4096 bytes is 512 words.  Sizes are in bytes, as in the headers: the
 first word of a block is its `next` field, the second its `size`, and the payload follows.

 Every mapped page has an owner: it is carved into blocks of one class, or it belongs to a
 direct mapping.  The owners decide which block a word belongs to, so that blocks are disjoint
 by construction; what has to be proved is that the headers, the free lists and the owners
 always agree.
 */
module Heap {

  import opened Bits
  import opened Common

  type Addr = nat
  type Memory = map<Addr, nat>

  /** Class k has blocks of 16 << k bytes, that is 2 << k words. */
  function Width(k: nat): (w: nat)
    requires k < 8
    ensures 2 <= w <= 256
  {
    if k == 0 then 2 else if k == 1 then 4 else if k == 2 then 8 else if k == 3 then 16
    else if k == 4 then 32 else if k == 5 then 64 else if k == 6 then 128 else 256
  }

  /** The number of blocks in a page of class k. */
  function Count(k: nat): (n: nat)
    requires k < 8
    ensures Width(k) * Count(k) == 512 && n >= 2
  {
    if k == 0 then 256 else if k == 1 then 128 else if k == 2 then 64 else if k == 3 then 32
    else if k == 4 then 16 else if k == 5 then 8 else if k == 6 then 4 else 2
  }

  function Bytes(k: nat): (s: nat)
    requires k < 8
    ensures 16 <= s <= 2048
  {
    8 * Width(k)
  }

  function Page(w: Addr): nat {
    w / 512
  }

  datatype Owner = Carved(k: nat) | Mapped(first: nat)

  type Owners = imap<nat, Owner>

  /** The classes exist, and a direct mapping owns its first page. */
  ghost predicate Classes(owner: Owners) {
    forall n :: n in owner ==>
      match owner[n]
      case Carved(k) => k < 8
      case Mapped(p) => p in owner && owner[p] == Mapped(p)
  }

  /** The start of the block that a mapped word belongs to. */
  ghost function BlockOf(owner: Owners, w: Addr): (b: Addr)
    requires Classes(owner) && Page(w) in owner
  {
    match owner[Page(w)]
    case Carved(k) => Align(k, w)
    case Mapped(p) => 512 * p
  }

  function Align(k: nat, w: Addr): (b: Addr)
    requires k < 8
    ensures b <= w
  {
    w - w % Width(k)
  }

  // ----- arithmetic of blocks in pages -----

  lemma DivUnique(c: nat, q: nat, w: nat)
    requires c > 0 && c * q <= w < c * q + c
    ensures w / c == q && w % c == w - c * q
  {
    var p := w / c;
    if p < q {
      MulMono(p + 1, q, c);
    } else if p > q {
      MulMono(q + 1, p, c);
    }
  }

  /** Blocks of c words, d of which fill a page, do not cross page boundaries. */
  lemma Tile(c: nat, d: nat, w: nat)
    requires c > 0 && c * d == 512
    ensures (w - w % c) / 512 == w / 512 && (w - w % c) % c == 0
  {
    var q, p := w / c, w / 512;
    assert w - w % c == c * q;
    assert c * (d * p) == (c * d) * p == 512 * p;
    if q < d * p {
      MulMono(q + 1, d * p, c);
      assert false;
    }
    MulMono(d * p, q, c);
    DivUnique(c, q, c * q);
  }

  lemma AlignFacts(k: nat, w: Addr)
    requires k < 8
    ensures Align(k, w) <= w < Align(k, w) + Width(k)
    ensures Page(Align(k, w)) == Page(w) && Align(k, Align(k, w)) == Align(k, w)
  {
    hide Width, Count;
    Tile(Width(k), Count(k), w);
  }

  /** The block at b of class k is the words from b on, as many as the class is wide. */
  lemma AlignExtent(k: nat, b: Addr, w: Addr)
    requires k < 8 && Align(k, b) == b
    ensures Align(k, w) == b <==> b <= w < b + Width(k)
    ensures Align(k, w) == b ==> Page(w) == Page(b)
  {
    hide Width, Count;
    AlignFacts(k, w);
    if b <= w < b + Width(k) {
      assert b == Width(k) * (b / Width(k));
      DivUnique(Width(k), b / Width(k), w);
    }
  }

  // ----- what the allocator keeps true -----

  /** Who owns the mapped pages, the blocks on the free lists, and the blocks in use with their sizes. */
  datatype Ledger = Ledger(owner: Owners, lists: seq<seq<Addr>>, live: map<Addr, nat>)

  ghost predicate Domain(mem: Memory, owner: Owners) {
    Classes(owner) && 0 !in owner && forall w :: w in mem <==> Page(w) in owner
  }

  /** The words of block b from number `from` on are zero. */
  ghost predicate ZeroFrom(mem: Memory, owner: Owners, b: Addr, from: nat)
    requires Domain(mem, owner)
  {
    forall w :: w in mem && BlockOf(owner, w) == b && w >= b + from ==> mem[w] == 0
  }

  ghost function After(l: seq<Addr>, i: nat): Addr {
    if i + 1 < |l| then l[i + 1] else 0
  }

  /** The free list that starts at head runs through the blocks l. */
  ghost predicate Chain(mem: Memory, head: Addr, l: seq<Addr>) {
    && head == (if l == [] then 0 else l[0])
    && forall i {:trigger After(l, i)} :: 0 <= i < |l| ==> l[i] in mem && mem[l[i]] == After(l, i)
  }

  /** A block of class k that is not in use: everything but its link is zero, its size too. */
  ghost predicate FreeBlock(mem: Memory, g: Ledger, k: nat, b: Addr)
    requires Domain(mem, g.owner)
  {
    b in mem && g.owner[Page(b)] == Carved(k) && Align(k, b) == b && b !in g.live && ZeroFrom(mem, g.owner, b, 1)
  }

  /** The direct mapping that starts with page p has n pages. */
  ghost predicate Spans(owner: Owners, p: nat, n: nat) {
    n > 0 && forall q :: (q in owner && owner[q] == Mapped(p)) <==> p <= q < p + n
  }

  /** A block in use: its header holds its size, which says how it was made. */
  ghost predicate LiveBlock(mem: Memory, g: Ledger, b: Addr)
    requires Domain(mem, g.owner) && b in g.live
  {
    && b in mem && BlockOf(g.owner, b) == b
    && b + 1 in mem && BlockOf(g.owner, b + 1) == b && mem[b + 1] == g.live[b]
    && match g.owner[Page(b)]
       case Carved(k) => g.live[b] == Bytes(k)
       case Mapped(p) => g.live[b] > 2048 && g.live[b] % 4096 == 0 && Spans(g.owner, p, g.live[b] / 4096)
  }

  /** Every mapped word belongs to a block that is in use or on the free list of its class. */
  ghost predicate Kept(mem: Memory, g: Ledger)
    requires Domain(mem, g.owner) && |g.lists| == 8
  {
    forall w :: w in mem ==> KeptWord(g, w)
  }

  ghost predicate KeptWord(g: Ledger, w: Addr)
    requires Classes(g.owner) && Page(w) in g.owner && |g.lists| == 8
  {
    var b := BlockOf(g.owner, w);
    b in g.live || (g.owner[Page(w)].Carved? && b in g.lists[g.owner[Page(w)].k])
  }

  ghost predicate ListOk(mem: Memory, g: Ledger, k: nat, head: Addr, l: seq<Addr>)
    requires Domain(mem, g.owner)
  {
    Chain(mem, head, l) && Distinct(l) && forall b :: b in l ==> FreeBlock(mem, g, k, b)
  }

  ghost predicate Inv(mem: Memory, small: seq<Addr>, g: Ledger) {
    && Domain(mem, g.owner) && |small| == |g.lists| == 8
    && (forall k :: 0 <= k < 8 ==> ListOk(mem, g, k, small[k], g.lists[k]))
    && (forall b :: b in g.live ==> LiveBlock(mem, g, b))
    && Kept(mem, g)
  }

  // ----- what the invariant says about blocks -----

  lemma SameOwner(owner: Owners, w: Addr)
    requires Classes(owner) && Page(w) in owner
    ensures var b := BlockOf(owner, w);
            Page(b) in owner && owner[Page(b)] == owner[Page(w)] && BlockOf(owner, b) == b
  {
    if owner[Page(w)].Carved? {
      AlignFacts(owner[Page(w)].k, w);
    }
  }

  /** The words of a block of a carved page. */
  lemma CarvedExtent(owner: Owners, b: Addr, w: Addr)
    requires Classes(owner) && Page(b) in owner && owner[Page(b)].Carved? && BlockOf(owner, b) == b
    ensures Page(w) in owner && BlockOf(owner, w) == b <==> b <= w < b + Width(owner[Page(b)].k)
  {
    hide Width, Page, Align;
    AlignExtent(owner[Page(b)].k, b, w);
    if Page(w) in owner {
      SameOwner(owner, w);
    }
  }

  /** The words of a direct mapping. */
  lemma MappedExtent(owner: Owners, p: nat, n: nat, w: Addr)
    requires Classes(owner) && p in owner && owner[p] == Mapped(p) && Spans(owner, p, n)
    ensures Page(w) in owner && BlockOf(owner, w) == 512 * p <==> 512 * p <= w < 512 * (p + n)
  {
    if Page(w) in owner && BlockOf(owner, w) == 512 * p {
      SameOwner(owner, w);
    }
  }

  /** The words of a block in use are the ones its size covers. */
  lemma LiveExtent(mem: Memory, g: Ledger, b: Addr, w: Addr)
    requires Domain(mem, g.owner) && b in g.live && LiveBlock(mem, g, b)
    ensures w in mem && BlockOf(g.owner, w) == b <==> b <= w < b + g.live[b] / 8
    ensures g.live[b] >= 16 && g.live[b] % 8 == 0
  {
    match g.owner[Page(b)]
    case Carved(k) =>
      hide Width, Align;
      CarvedExtent(g.owner, b, w);
    case Mapped(p) =>
      EightfoldPages(p, g.live[b]);
      MappedExtent(g.owner, p, g.live[b] / 4096, w);
  }

  lemma EightfoldPages(p: nat, size: nat)
    requires size % 4096 == 0
    ensures 512 * p + size / 8 == 512 * (p + size / 4096) && size % 8 == 0
  {
  }

  // ----- blocks that a change leaves alone -----

  /** Block c consists of the same words before and after, with the same values. */
  ghost predicate Untouched(mem: Memory, owner: Owners, mem': Memory, owner': Owners, c: Addr)
    requires Domain(mem, owner) && Domain(mem', owner')
  {
    && c in mem && c in mem' && owner'[Page(c)] == owner[Page(c)]
    && (forall w :: w in mem' && BlockOf(owner', w) == c ==> w in mem && BlockOf(owner, w) == c && mem'[w] == mem[w])
    && (forall w :: w in mem && BlockOf(owner, w) == c ==> w in mem' && BlockOf(owner', w) == c)
    && (forall q :: (q in owner' && owner'[q] == Mapped(Page(c))) <==> (q in owner && owner[q] == Mapped(Page(c))))
  }

  lemma CarryFree(mem: Memory, g: Ledger, mem': Memory, g': Ledger, k: nat, c: Addr)
    requires Domain(mem, g.owner) && Domain(mem', g'.owner) && FreeBlock(mem, g, k, c)
    requires Untouched(mem, g.owner, mem', g'.owner, c) && c !in g'.live
    ensures FreeBlock(mem', g', k, c)
  {
    hide Width, Align, Page;
  }

  lemma CarryLive(mem: Memory, g: Ledger, mem': Memory, g': Ledger, c: Addr)
    requires Domain(mem, g.owner) && Domain(mem', g'.owner) && c in g.live && LiveBlock(mem, g, c)
    requires Untouched(mem, g.owner, mem', g'.owner, c) && c in g'.live && g'.live[c] == g.live[c]
    ensures LiveBlock(mem', g', c)
  {
    hide Width, Align;
  }

  lemma CarryPayload(mem: Memory, g: Ledger, mem': Memory, g': Ledger, c: Addr)
    requires Domain(mem, g.owner) && Domain(mem', g'.owner) && c in g.live && LiveBlock(mem, g, c)
    requires Untouched(mem, g.owner, mem', g'.owner, c)
    ensures Payload(mem', c, g.live[c]) == Payload(mem, c, g.live[c])
  {
    hide LiveBlock, Page, Align, BlockOf, Domain;
    forall w | c <= w < c + g.live[c] / 8
      ensures Word(mem', w) == Word(mem, w)
    {
      LiveExtent(mem, g, c, w);
    }
    LiveExtent(mem, g, c, c);
  }

  lemma CarryList(mem: Memory, g: Ledger, mem': Memory, g': Ledger, k: nat, head: Addr, l: seq<Addr>)
    requires Domain(mem, g.owner) && Domain(mem', g'.owner) && ListOk(mem, g, k, head, l)
    requires forall c :: c in l ==> Untouched(mem, g.owner, mem', g'.owner, c) && c !in g'.live
    ensures ListOk(mem', g', k, head, l)
  {
    hide Width, Align, Page;
    forall c | c in l
      ensures FreeBlock(mem', g', k, c)
    {
      CarryFree(mem, g, mem', g', k, c);
    }
    forall i | 0 <= i < |l|
      ensures l[i] in mem' && mem'[l[i]] == After(l, i)
    {
      assert FreeBlock(mem, g, k, l[i]);
      assert BlockOf(g.owner, l[i]) == l[i];
    }
  }

  // ----- what the callers see -----

  function Word(mem: Memory, w: Addr): nat {
    if w in mem then mem[w] else 0
  }

  /** The payload words of a block of so many bytes. */
  function Room(size: nat): nat {
    if size < 16 then 0 else size / 8 - 2
  }

  /** The payload of the block of so many bytes at b. */
  function Payload(mem: Memory, b: Addr, size: nat): (words: seq<nat>)
    ensures |words| == Room(size) && forall i :: 0 <= i < |words| ==> words[i] == Word(mem, b + 2 + i)
  {
    seq<nat>(Room(size), i requires 0 <= i < Room(size) => Word(mem, b + 2 + i))
  }

  function Zeros(n: nat): (words: seq<nat>)
    ensures |words| == n && forall i :: 0 <= i < n ==> words[i] == 0
  {
    seq(n, _ => 0)
  }

  /** The payloads of the blocks in use. */
  ghost function Contents(mem: Memory, live: map<Addr, nat>): (c: map<Addr, seq<nat>>)
  {
    map b | b in live :: Payload(mem, b, live[b])
  }

  // ----- changes within one block -----

  /** The same words are mapped, and only those of block b may differ. */
  ghost predicate Within(mem: Memory, owner: Owners, mem': Memory, b: Addr)
    requires Domain(mem, owner)
  {
    mem'.Keys == mem.Keys && forall w :: w in mem && BlockOf(owner, w) != b ==> mem'[w] == mem[w]
  }

  lemma WithinUntouched(mem: Memory, owner: Owners, mem': Memory, b: Addr, c: Addr)
    requires Domain(mem, owner) && Within(mem, owner, mem', b) && c in mem && c != b
    ensures Domain(mem', owner) && Untouched(mem, owner, mem', owner, c)
  {
    hide Page, Align, BlockOf;
  }

  /** What a change within block b keeps: every other block in use, with its payload, and the lists without b. */
  lemma WithinKeeps(mem: Memory, small: seq<Addr>, g: Ledger, mem': Memory, g': Ledger, b: Addr)
    requires Inv(mem, small, g) && Within(mem, g.owner, mem', b) && g'.owner == g.owner
    requires forall c :: c in g'.live && c != b ==> c in g.live && g'.live[c] == g.live[c]
    ensures Domain(mem', g.owner)
    ensures forall c :: c in g'.live && c != b ==> LiveBlock(mem', g', c)
    ensures forall c :: c in g'.live && c != b ==> Payload(mem', c, g.live[c]) == Payload(mem, c, g.live[c])
    ensures forall k :: 0 <= k < 8 && b !in g.lists[k] ==> ListOk(mem', g', k, small[k], g.lists[k])
  {
    hide Width, Align, Page, BlockOf, LiveBlock, FreeBlock;
    assert Domain(mem', g.owner);
    forall c | c in g'.live && c != b
      ensures LiveBlock(mem', g', c) && Payload(mem', c, g.live[c]) == Payload(mem, c, g.live[c])
    {
      assert LiveBlock(mem, g, c);
      assert c in mem by {
        LiveExtent(mem, g, c, c);
      }
      WithinUntouched(mem, g.owner, mem', b, c);
      CarryLive(mem, g, mem', g', c);
      CarryPayload(mem, g, mem', g', c);
    }
    forall k | 0 <= k < 8 && b !in g.lists[k]
      ensures ListOk(mem', g', k, small[k], g.lists[k])
    {
      KeepList(mem, small, g, mem', g', b, k, small[k], g.lists[k]);
    }
  }

  /** A list without b whose blocks stay free is kept by a change within b. */
  lemma KeepList(mem: Memory, small: seq<Addr>, g: Ledger, mem': Memory, g': Ledger, b: Addr, k: nat, head: Addr, l: seq<Addr>)
    requires Inv(mem, small, g) && Within(mem, g.owner, mem', b) && g'.owner == g.owner
    requires forall c :: c in g'.live && c != b ==> c in g.live
    requires k < 8 && ListOk(mem, g, k, head, l) && b !in l
    ensures Domain(mem', g.owner) && ListOk(mem', g', k, head, l)
  {
    hide Width, Align, Page, BlockOf;
    forall c | c in l
      ensures Domain(mem', g.owner) && Untouched(mem, g.owner, mem', g.owner, c) && c !in g'.live
    {
      assert FreeBlock(mem, g, k, c);
      WithinUntouched(mem, g.owner, mem', b, c);
    }
    assert Domain(mem', g.owner);
    CarryList(mem, g, mem', g', k, head, l);
  }
}
