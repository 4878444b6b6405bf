/**
 What the allocator's invariant (Heap.Inv) means for the blocks, and that it holds after every
 sequence of calls that respects ownership, whatever the kernel answers.
 */
module AllocatorRuns {

  import opened Common
  import opened Heap
  import opened HeapSteps
  import opened SizeClass
  import opened Allocator

  // ----- tiling and conservation -----

  /**
   A carved page is tiled by blocks of its class: each of its words lies in exactly one of
   them, and that block is either in use with the size of the class, or on the one free list
   of the class, and not both.
   */
  lemma CarvedPageTiled(mem: Memory, small: seq<Addr>, g: Ledger, k: nat, w: Addr)
    requires Inv(mem, small, g) && Page(w) in g.owner && g.owner[Page(w)] == Carved(k)
    ensures k < 8 && Align(k, w) <= w < Align(k, w) + Width(k) && Page(Align(k, w)) == Page(w)
    ensures (Align(k, w) in g.live) != (Align(k, w) in g.lists[k])
    ensures Align(k, w) in g.live ==> g.live[Align(k, w)] == Bytes(k)
    ensures forall j :: 0 <= j < 8 && j != k ==> Align(k, w) !in g.lists[j]
  {
    hide Inv, Page, Width, Align, LiveBlock, FreeBlock, Classes;
    InvDomain(mem, small, g);
    CarvedClass(g.owner, Page(w), k);
    AlignFacts(k, w);
    WordKept(mem, small, g, w, k);
    var b := Align(k, w);
    if b in g.live {
      LiveClass(mem, small, g, b, k);
    }
    forall j | 0 <= j < 8 && b in g.lists[j]
      ensures j == k && b !in g.live
    {
      FreeNotLive(mem, small, g, j, b);
      FreeClass(mem, g, j, b);
    }
  }

  lemma CarvedClass(owner: Owners, n: nat, k: nat)
    requires Classes(owner) && n in owner && owner[n] == Carved(k)
    ensures k < 8
  {
  }

  lemma WordKept(mem: Memory, small: seq<Addr>, g: Ledger, w: Addr, k: nat)
    requires Inv(mem, small, g) && Page(w) in g.owner && g.owner[Page(w)] == Carved(k) && k < 8
    ensures Align(k, w) in g.live || Align(k, w) in g.lists[k]
  {
    hide Page, Width, Align, LiveBlock, ListOk;
    assert w in mem;
    assert KeptWord(g, w);
  }

  lemma LiveClass(mem: Memory, small: seq<Addr>, g: Ledger, b: Addr, k: nat)
    requires Inv(mem, small, g) && b in g.live && Page(b) in g.owner && g.owner[Page(b)] == Carved(k) && k < 8
    ensures g.live[b] == Bytes(k)
  {
    hide Page, Width, Align, Bytes, ListOk, Kept;
    assert LiveBlock(mem, g, b);
  }

  lemma FreeClass(mem: Memory, g: Ledger, k: nat, b: Addr)
    requires Domain(mem, g.owner) && FreeBlock(mem, g, k, b)
    ensures Page(b) in g.owner && g.owner[Page(b)] == Carved(k)
  {
  }

  /** Every page of a direct mapping is covered by a block in use, which the mapping is. */
  lemma MappedPageHeld(mem: Memory, small: seq<Addr>, g: Ledger, q: nat, p: nat)
    requires Inv(mem, small, g) && q in g.owner && g.owner[q] == Mapped(p)
    ensures 512 * p in g.live && g.live[512 * p] > 2048 && p <= q < p + g.live[512 * p] / 4096
  {
    hide Page, Width, Align, ListOk, Bytes;
    FirstWords(q);
    FirstWords(p);
    assert 512 * q in mem;
    assert KeptWord(g, 512 * q);
    assert LiveBlock(mem, g, 512 * p);
  }

  /** The size in the header tells how a block was made, so that free takes the right path. */
  lemma SizeTells(mem: Memory, small: seq<Addr>, g: Ledger, b: Addr)
    requires Inv(mem, small, g) && b in g.live
    ensures b + 1 in mem && mem[b + 1] == g.live[b] && Page(b) in g.owner
    ensures g.live[b] <= 2048 <==> g.owner[Page(b)].Carved?
    ensures g.live[b] > 2048 ==> g.live[b] % 4096 == 0 && b % 512 == 0
  {
    hide Inv, Page, Width, Align, Bytes, LiveBlock;
    HeaderSays(mem, small, g, b);
    InvDomain(mem, small, g);
    if g.live[b] <= 2048 {
      var k := SmallKind(mem, small, g, b);
    } else {
      var p, n := LargeKind(mem, small, g, b);
      LargeOwner(g.owner, p, n);
    }
  }

  lemma LargeOwner(owner: Owners, p: nat, n: nat)
    requires Spans(owner, p, n)
    ensures Page(512 * p) in owner && owner[Page(512 * p)] == Mapped(p)
  {
    FirstWords(p);
    assert p <= p < p + n;
  }

  /** A block in use and a block on a free list do not overlap. */
  lemma FreeApart(mem: Memory, small: seq<Addr>, g: Ledger, b: Addr, k: nat, c: Addr)
    requires Inv(mem, small, g) && b in g.live && k < 8 && c in g.lists[k]
    ensures b + g.live[b] / 8 <= c || c + Width(k) <= b
  {
    hide Inv, Page, Width, Align, LiveBlock, BlockOf, FreeBlock, Classes;
    InvDomain(mem, small, g);
    LiveIsMapped(mem, small, g, b);
    FreeNotLive(mem, small, g, k, c);
    FreeIsBlock(mem, g, k, c);
    FreeClass(mem, g, k, c);
    if b <= c {
      LiveExtent(mem, g, b, c);
    } else {
      CarvedExtent(g.owner, c, b);
    }
  }

  /** The free lists hold only zeroed blocks: all but the link, the size included. */
  lemma FreeIsZero(mem: Memory, small: seq<Addr>, g: Ledger, k: nat, c: Addr, w: Addr)
    requires Inv(mem, small, g) && k < 8 && c in g.lists[k] && c < w < c + Width(k)
    ensures w in mem && mem[w] == 0
  {
    hide Inv, Width, Align, Page;
    InvDomain(mem, small, g);
    FreeNotLive(mem, small, g, k, c);
    FreeIsBlock(mem, g, k, c);
    CarvedExtent(g.owner, c, w);
  }

  // ----- calls that undo each other -----

  /** Freeing what malloc returned leaves every other block as it was. */
  method MallocThenFree(a: Allocator, size: nat, kernel: Option<nat>)
    requires a.Valid() && size < LIMIT
    modifies a, a.small
    ensures a.Valid() && a.Blocks() == old(a.Blocks()) && a.g.live == old(a.g.live)
  {
    hide Inv, Room, Contents, Need, Zeros, Served;
    NoEntry(a.mem, a.g.live);
    var r := a.Malloc(size, kernel);
    if r != 0 {
      DropNew(old(a.Blocks()), r - 2, Zeros(Room(Need(size))));
    }
    a.Free(r);
  }

  lemma NoEntry(mem: Memory, live: map<Addr, nat>)
    ensures forall b :: b in Contents(mem, live) ==> b in live
  {
  }

  lemma DropNew(m: map<Addr, seq<nat>>, b: Addr, words: seq<nat>)
    requires b !in m
    ensures m[b := words] - {b} == m
  {
  }

  /** A carved block can be freed again by mistake, and nothing happens. */
  method FreeTwice(a: Allocator, ptr: Addr)
    requires a.Valid() && ptr >= 2 && ptr - 2 in a.g.live && a.g.live[ptr - 2] <= 2048
    modifies a, a.small
    ensures a.Valid() && a.Blocks() == old(a.Blocks()) - {ptr - 2}
  {
    hide Inv, Contents;
    a.Free(ptr);
    a.Free(ptr);
  }

  // ----- all runs -----

  /** What a caller does; the kernel's answer to the call comes with it. */
  datatype Call =
    | Malloc(size: nat, kernel: Option<nat>)
    | Calloc(nmemb: nat, size: nat, kernel: Option<nat>)
    | Realloc(ptr: Addr, size: nat, kernel: Option<nat>)
    | Free(ptr: Addr)
    | Write(ptr: Addr, index: nat, value: nat)

  /** What a caller owns: the pointers it has got and not given back, and the words it asked for. */
  type Owned = map<Addr, nat>

  /** A caller passes sizes of 64 bits and pointers it owns, and writes only where it has room. */
  predicate Respects(owned: Owned, c: Call)
  {
    match c
    case Malloc(size, _) => size < LIMIT
    case Calloc(nmemb, size, _) => nmemb < LIMIT && size < LIMIT
    case Realloc(ptr, size, _) => size < LIMIT && (ptr == 0 || ptr in owned)
    case Free(ptr) => ptr == 0 || ptr in owned
    case Write(ptr, index, _) => ptr in owned && index < owned[ptr]
  }

  /** The blocks in use are exactly those the caller owns, and each has room for what was asked. */
  ghost predicate Matches(live: map<Addr, nat>, owned: Owned)
  {
    && (forall p :: p in owned ==> p >= 2 && p - 2 in live && owned[p] <= Room(live[p - 2]))
    && (forall b :: b in live ==> b + 2 in owned)
  }

  lemma MatchesMore(live: map<Addr, nat>, owned: Owned, p: Addr, words: nat, size: nat)
    requires Matches(live, owned) && p >= 2 && words <= Room(size)
    ensures Matches(live[p - 2 := size], owned[p := words])
  {
  }

  lemma MatchesLess(live: map<Addr, nat>, owned: Owned, p: Addr)
    requires Matches(live, owned) && p >= 2
    ensures Matches(live - {p - 2}, owned - {p})
  {
  }

  /** One call of a caller who respects ownership. */
  method Perform(a: Allocator, c: Call, owned: Owned) returns (now: Owned)
    requires a.Valid() && Matches(a.g.live, owned) && Respects(owned, c)
    modifies a, a.small
    ensures a.Valid() && Matches(a.g.live, now)
  {
    hide Inv, Room, Contents, Matches, Need, Served, ReallocServed, Zeros, Payload;
    now := owned;
    match c
    case Malloc(size, kernel) =>
      now := PerformMalloc(a, size, kernel, owned);
    case Calloc(nmemb, size, kernel) =>
      now := PerformCalloc(a, nmemb, size, kernel, owned);
    case Realloc(ptr, size, kernel) =>
      now := PerformRealloc(a, ptr, size, kernel, owned);
    case Free(ptr) =>
      OwnedLive(a.g.live, owned, ptr);
      a.Free(ptr);
      if ptr != 0 {
        MatchesLess(old(a.g.live), owned, ptr);
        now := owned - {ptr};
      }
    case Write(ptr, index, value) =>
      OwnedIn(a.g.live, owned, ptr);
      a.Write(ptr, index, value);
  }

  lemma OwnedLive(live: map<Addr, nat>, owned: Owned, ptr: Addr)
    requires Matches(live, owned) && (ptr == 0 || ptr in owned)
    ensures ptr != 0 ==> ptr >= 2 && ptr - 2 in live && owned[ptr] <= Room(live[ptr - 2])
  {
  }

  method PerformMalloc(a: Allocator, size: nat, kernel: Option<nat>, owned: Owned) returns (now: Owned)
    requires a.Valid() && Matches(a.g.live, owned) && size < LIMIT
    modifies a, a.small
    ensures a.Valid() && Matches(a.g.live, now)
  {
    hide Inv, Room, Contents, Matches, Need, Served, Zeros;
    now := owned;
    var r := a.Malloc(size, kernel);
    if r != 0 {
      NeedServed(old(a.mem), old(a.g), size, kernel);
      NeedFits(size);
      MatchesMore(old(a.g.live), owned, r, size / 8, Need(size));
      now := owned[r := size / 8];
    }
  }

  method PerformCalloc(a: Allocator, nmemb: nat, size: nat, kernel: Option<nat>, owned: Owned) returns (now: Owned)
    requires a.Valid() && Matches(a.g.live, owned) && nmemb < LIMIT && size < LIMIT
    modifies a, a.small
    ensures a.Valid() && Matches(a.g.live, now)
  {
    hide Inv, Room, Contents, Matches, Need, Served, Zeros, Product;
    now := owned;
    var r := a.Calloc(nmemb, size, kernel);
    if r != 0 {
      NeedServed(old(a.mem), old(a.g), Product(size, nmemb), kernel);
      NeedFits(Product(size, nmemb));
      MatchesMore(old(a.g.live), owned, r, Product(size, nmemb) / 8, Need(Product(size, nmemb)));
      now := owned[r := Product(size, nmemb) / 8];
    }
  }

  method PerformRealloc(a: Allocator, ptr: Addr, size: nat, kernel: Option<nat>, owned: Owned) returns (now: Owned)
    requires a.Valid() && Matches(a.g.live, owned) && size < LIMIT && (ptr == 0 || ptr in owned)
    modifies a, a.small
    ensures a.Valid() && Matches(a.g.live, now)
  {
    hide Inv, Room, Contents, Matches, Need, Served, ReallocServed, Zeros, Payload, NewSize;
    now := owned;
    OwnedLive(a.g.live, owned, ptr);
    if ptr != 0 {
      HeaderSays(a.mem, a.small[..], a.g, ptr - 2);
    }
    var r := a.Realloc(ptr, size, kernel);
    if size == 0 {
      if ptr != 0 {
        MatchesLess(old(a.g.live), owned, ptr);
        now := owned - {ptr};
      }
    } else if r != 0 && ptr == 0 {
      NeedServedFirst(old(a.mem), old(a.g), size, kernel);
      NeedFits(size);
      MatchesMore(old(a.g.live), owned, r, size / 8, Need(size));
      now := owned[r := size / 8];
    } else if r != 0 {
      ReallocFits(old(a.mem), old(a.g), ptr, size, kernel);
      MatchesLess(old(a.g.live), owned, ptr);
      MatchesMore(old(a.g.live) - {ptr - 2}, owned - {ptr}, r, size / 8, NewSize(old(a.g.live)[ptr - 2], size));
      now := (owned - {ptr})[r := size / 8];
    }
  }

  lemma NeedServedFirst(mem: Memory, g: Ledger, size: nat, kernel: Option<nat>)
    requires 0 < size < LIMIT && ReallocServed(mem, g, 0, size, kernel)
    ensures Need(size) > 0
  {
    hide Need, Served;
    NeedServed(mem, g, size, kernel);
  }

  /** A successful realloc leaves room for what was asked. */
  lemma ReallocFits(mem: Memory, g: Ledger, ptr: Addr, size: nat, kernel: Option<nat>)
    requires 0 < size < LIMIT && ptr >= 2 && ptr - 2 in g.live && ReallocServed(mem, g, ptr, size, kernel)
    requires g.live[ptr - 2] > 0
    ensures size / 8 <= Room(NewSize(g.live[ptr - 2], size))
  {
    hide Need, Served, PageAlign, Room, Placeable;
    var oldSize := g.live[ptr - 2];
    if oldSize != Need(size) && oldSize <= 2048 {
      NeedServed(mem, g, size, kernel);
    }
    assert NewSize(oldSize, size) > 0;
    NewSizeFits(oldSize, size);
  }

  /**
   Every sequence of calls from program start, in which those that do not respect ownership
   are left out, whatever the kernel answers: the invariant holds at the end, the blocks in use
   are exactly those the caller owns, and what it asked for in one never overlaps another block.
   */
  method Run(calls: seq<Call>) returns (a: Allocator, owned: Owned)
    ensures fresh(a) && a.Valid() && Matches(a.g.live, owned)
    ensures forall p, q :: p in owned && q in owned && p != q ==> p + owned[p] + 2 <= q || q + owned[q] + 2 <= p
  {
    hide Inv, Room, Contents, Matches, Respects;
    a := new Allocator();
    owned := map[];
    NothingOwned(a.mem, a.g.live);
    for i := 0 to |calls|
      invariant fresh(a) && fresh(a.small) && a.Valid() && Matches(a.g.live, owned)
    {
      if Respects(owned, calls[i]) {
        owned := Perform(a, calls[i], owned);
      }
    }
    OwnedApart(a.mem, a.small[..], a.g, owned);
  }

  lemma NothingOwned(mem: Memory, live: map<Addr, nat>)
    requires Contents(mem, live) == map[]
    ensures Matches(live, map[])
  {
    assert forall b :: b in live ==> b in Contents(mem, live);
  }

  lemma OwnedApart(mem: Memory, small: seq<Addr>, g: Ledger, owned: Owned)
    requires Inv(mem, small, g) && Matches(g.live, owned)
    ensures forall p, q :: p in owned && q in owned && p != q ==> p + owned[p] + 2 <= q || q + owned[q] + 2 <= p
  {
    hide Inv, Matches, Room;
    forall p, q | p in owned && q in owned && p != q
      ensures p + owned[p] + 2 <= q || q + owned[q] + 2 <= p
    {
      PairApart(mem, small, g, owned, p, q);
    }
  }

  lemma PairApart(mem: Memory, small: seq<Addr>, g: Ledger, owned: Owned, p: Addr, q: Addr)
    requires Inv(mem, small, g) && Matches(g.live, owned) && p in owned && q in owned && p != q
    ensures p + owned[p] + 2 <= q || q + owned[q] + 2 <= p
  {
    hide Inv, Matches;
    OwnedIn(g.live, owned, p);
    OwnedIn(g.live, owned, q);
    LiveSize(mem, small, g, p - 2);
    LiveSize(mem, small, g, q - 2);
    BlocksApart(mem, small, g, p - 2, q - 2);
  }

  lemma OwnedIn(live: map<Addr, nat>, owned: Owned, p: Addr)
    requires Matches(live, owned) && p in owned
    ensures p >= 2 && p - 2 in live && owned[p] <= Room(live[p - 2])
  {
  }
}
