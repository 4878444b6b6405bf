/**
 How realloc moves a payload (lib/alloc.c:214-238): by copying it into a new block, or by having
 the kernel move or resize the mapping.
 */
module HeapMove {

  import opened Heap
  import opened HeapSteps
  import opened HeapCarve

  /** The payload cut or filled up with zeros to n words. */
  function Fit(words: seq<nat>, n: nat): (r: seq<nat>)
    ensures |r| == n
    ensures forall i :: 0 <= i < n && i < |words| ==> r[i] == words[i]
    ensures forall i :: |words| <= i < n ==> r[i] == 0
  {
    if n <= |words| then words[..n] else words + Zeros(n - |words|)
  }

  lemma LivePayload(mem: Memory, g: Ledger, b: Addr, i: nat)
    requires Domain(mem, g.owner) && b in g.live && LiveBlock(mem, g, b) && i < Room(g.live[b])
    ensures b + 2 + i in mem && BlockOf(g.owner, b + 2 + i) == b
  {
    hide Page, Align, Width, BlockOf, LiveBlock;
    LiveExtent(mem, g, b, b + 2 + i);
  }

  function Updated(words: seq<nat>, i: nat, v: nat): (r: seq<nat>)
    requires i < |words|
  {
    words[i := v]
  }

  /** One word of a payload is set. */
  lemma SetWord(mem: Memory, small: seq<Addr>, g: Ledger, b: Addr, i: nat, v: nat)
    requires Inv(mem, small, g) && b in g.live && i < Room(g.live[b])
    ensures b + 2 + i in mem && Inv(mem[b + 2 + i := v], small, g)
    ensures Contents(mem[b + 2 + i := v], g.live)
            == Contents(mem, g.live)[b := Updated(Payload(mem, b, g.live[b]), i, v)]
  {
    hide Inv, Page, Align, Width, Domain, Contents, BlockOf;
    InvDomain(mem, small, g);
    LiveIsMapped(mem, small, g, b);
    LivePayload(mem, g, b, i);
    var mem' := mem[b + 2 + i := v];
    assert b + 1 in mem && mem'[b + 1] == mem[b + 1];
    WriteInv(mem, small, g, b, mem');
    assert Payload(mem', b, g.live[b]) == Payload(mem, b, g.live[b])[i := v];
  }

  /** n words are copied from src to dst. */
  ghost predicate Copied(mem: Memory, mem': Memory, dst: Addr, src: Addr, n: nat) {
    && mem'.Keys == mem.Keys
    && (forall w :: w in mem && !(dst <= w < dst + n) ==> mem'[w] == mem[w])
    && (forall w :: dst <= w < dst + n ==> Word(mem', w) == Word(mem, src + (w - dst)))
  }

  lemma CopyWithin(mem: Memory, g: Ledger, c: Addr, b: Addr, n: nat, mem': Memory)
    requires Domain(mem, g.owner) && c in g.live && LiveBlock(mem, g, c) && n <= Room(g.live[c])
    requires Copied(mem, mem', c + 2, b + 2, n)
    ensures Within(mem, g.owner, mem', c)
    ensures c + 1 in mem && c + 1 in mem' && mem'[c + 1] == mem[c + 1]
  {
    assert c + 1 in mem;
    hide Page, Align, Width, BlockOf, LiveBlock, Domain;
    forall w | w in mem && BlockOf(g.owner, w) != c
      ensures mem'[w] == mem[w]
    {
      if c + 2 <= w < c + 2 + n {
        LivePayload(mem, g, c, w - (c + 2));
      }
    }
  }

  /** As much of b's payload as fits is copied to the zero payload of c. */
  lemma CopyContents(mem: Memory, small: seq<Addr>, g: Ledger, c: Addr, b: Addr, n: nat, mem': Memory)
    requires Inv(mem, small, g) && b in g.live && c in g.live && b != c
    requires n == if Room(g.live[c]) <= Room(g.live[b]) then Room(g.live[c]) else Room(g.live[b])
    requires Copied(mem, mem', c + 2, b + 2, n) && Payload(mem, c, g.live[c]) == Zeros(Room(g.live[c]))
    ensures Inv(mem', small, g)
    ensures Contents(mem', g.live)
            == Contents(mem, g.live)[c := Fit(Payload(mem, b, g.live[b]), Room(g.live[c]))]
  {
    hide Inv, Page, Align, Width, Domain, Contents, LiveBlock, Within, Room;
    InvDomain(mem, small, g);
    LiveIsMapped(mem, small, g, c);
    CopyWithin(mem, g, c, b, n, mem');
    WriteInv(mem, small, g, c, mem');
    CopyPayload(mem, c, g.live[c], b, g.live[b], n, mem');
  }

  lemma CopyPayload(mem: Memory, c: Addr, size: nat, b: Addr, size0: nat, n: nat, mem': Memory)
    requires n == if Room(size) <= Room(size0) then Room(size) else Room(size0)
    requires Copied(mem, mem', c + 2, b + 2, n) && Payload(mem, c, size) == Zeros(Room(size))
    ensures Payload(mem', c, size) == Fit(Payload(mem, b, size0), Room(size))
  {
    hide Room;
    var got, want := Payload(mem', c, size), Fit(Payload(mem, b, size0), Room(size));
    forall i | 0 <= i < Room(size)
      ensures got[i] == want[i]
    {
      if i < n {
        assert Word(mem', c + 2 + i) == Word(mem, b + 2 + (c + 2 + i - (c + 2)));
        assert Payload(mem, b, size0)[i] == Word(mem, b + 2 + i);
      } else {
        assert Payload(mem, c, size)[i] == 0;
        assert Word(mem', c + 2 + i) == Word(mem, c + 2 + i);
      }
    }
  }

  // ----- mremap -----

  function Shifted(mem: Memory, b: Addr, words: nat, a: Addr, n: nat): (m: Memory)
    ensures forall w :: w in m <==> a <= w < a + n
    ensures forall w :: w in m ==> m[w] == if w - a < words then Word(mem, b + (w - a)) else 0
  {
    map w | w in ZeroRange(a, n) :: if w - a < words then Word(mem, b + (w - a)) else 0
  }

  /** The mapping of `words` words at b becomes one of n words at a, with as much as fits of its contents. */
  function Moved(mem: Memory, b: Addr, words: nat, a: Addr, n: nat): Memory {
    Without(mem, b, words) + Shifted(mem, b, words, a, n)
  }

  lemma MovedElsewhere(mem: Memory, mem1: Memory, b: Addr, p: nat, n0: nat, n: nat)
    requires mem1 == Without(mem, b, 512 * n0) && n > 0
    ensures var mem2, mem3 := MapMem(mem1, p, n), Moved(mem, b, 512 * n0, 512 * p, 512 * n)[512 * p + 1 := 4096 * n];
            mem3.Keys == mem2.Keys && 512 * p + 1 in mem2 && mem3[512 * p + 1] == mem2[512 * p + 1]
            && forall w :: w in mem2 && !(512 * p <= w < 512 * p + 512 * n) ==> mem3[w] == mem2[w]
  {
  }

  lemma MovedWithin(mem2: Memory, g2: Ledger, c: Addr, mem3: Memory)
    requires Domain(mem2, g2.owner) && c in g2.live && LiveBlock(mem2, g2, c) && mem3.Keys == mem2.Keys
    requires forall w :: w in mem2 && !(c <= w < c + g2.live[c] / 8) ==> mem3[w] == mem2[w]
    ensures Within(mem2, g2.owner, mem3, c)
  {
    hide Page, Align, Width, BlockOf, LiveBlock;
    forall w | w in mem2 && BlockOf(g2.owner, w) != c
      ensures mem3[w] == mem2[w]
    {
      LiveExtent(mem2, g2, c, w);
    }
  }

  lemma MovedPayload(mem: Memory, b: Addr, p: nat, n0: nat, n: nat)
    requires n0 > 0 && n > 0
    ensures var mem3 := Moved(mem, b, 512 * n0, 512 * p, 512 * n)[512 * p + 1 := 4096 * n];
            Payload(mem3, 512 * p, 4096 * n) == Fit(Payload(mem, b, 4096 * n0), Room(4096 * n))
  {
    var mem3 := Moved(mem, b, 512 * n0, 512 * p, 512 * n)[512 * p + 1 := 4096 * n];
    var got, want := Payload(mem3, 512 * p, 4096 * n), Fit(Payload(mem, b, 4096 * n0), Room(4096 * n));
    forall i | 0 <= i < Room(4096 * n)
      ensures got[i] == want[i]
    {
      var w := 512 * p + 2 + i;
      assert w in Shifted(mem, b, 512 * n0, 512 * p, 512 * n);
      assert Word(mem3, w) == if i + 2 < 512 * n0 then Word(mem, b + (i + 2)) else 0;
      if i < Room(4096 * n0) {
        assert Payload(mem, b, 4096 * n0)[i] == Word(mem, b + 2 + i);
      }
    }
  }

  ghost function MovedLedger(g: Ledger, p0: nat, n0: nat, p: nat, n: nat): Ledger {
    MapLedger(UnmapLedger(g, p0, n0), p, n)
  }

  /** A mapping unmapped, and mapped anew. */
  lemma Remapped(mem: Memory, small: seq<Addr>, g: Ledger, p0: nat, n0: nat, p: nat, n: nat)
    requires Inv(mem, small, g) && 512 * p0 in g.live && Spans(g.owner, p0, n0)
    requires Fresh(UnmapLedger(g, p0, n0).owner, p, n)
    ensures Inv(MapMem(Without(mem, 512 * p0, 512 * n0), p, n), small, MovedLedger(g, p0, n0, p, n))
    ensures Contents(MapMem(Without(mem, 512 * p0, 512 * n0), p, n), MovedLedger(g, p0, n0, p, n).live)
            == (Contents(mem, g.live) - {512 * p0})[512 * p := Zeros(Room(4096 * n))]
  {
    hide Inv, Contents, Room, MapMem, Without, Fresh, Spans, Zeros;
    UnmapInv(mem, small, g, p0, n0);
    MapInv(Without(mem, 512 * p0, 512 * n0), small, UnmapLedger(g, p0, n0), p, n);
    MapContents(Without(mem, 512 * p0, 512 * n0), small, UnmapLedger(g, p0, n0), p, n);
  }

  /** The new mapping is filled with what was in the old one. */
  lemma Refilled(mem: Memory, mem1: Memory, small: seq<Addr>, g2: Ledger, b: Addr, n0: nat, p: nat, n: nat)
    requires n0 > 0 && n > 0 && mem1 == Without(mem, b, 512 * n0) && Inv(MapMem(mem1, p, n), small, g2)
    requires 512 * p in g2.live && g2.live[512 * p] == 4096 * n
    ensures var mem3 := Moved(mem, b, 512 * n0, 512 * p, 512 * n)[512 * p + 1 := 4096 * n];
            && Inv(mem3, small, g2)
            && Contents(mem3, g2.live) == Contents(MapMem(mem1, p, n), g2.live)
                                          [512 * p := Fit(Payload(mem, b, 4096 * n0), Room(4096 * n))]
  {
    hide Inv, Page, Align, Width, Domain, Contents, LiveBlock, Within, Payload, Room, Fit, Moved, MapMem, Without;
    var mem2 := MapMem(mem1, p, n);
    var mem3 := Moved(mem, b, 512 * n0, 512 * p, 512 * n)[512 * p + 1 := 4096 * n];
    InvDomain(mem2, small, g2);
    LiveIsMapped(mem2, small, g2, 512 * p);
    MovedElsewhere(mem, mem1, b, p, n0, n);
    MovedWithin(mem2, g2, 512 * p, mem3);
    WriteInv(mem2, small, g2, 512 * p, mem3);
    MovedPayload(mem, b, p, n0, n);
  }

  lemma SomePages(owner: Owners, p0: nat, n0: nat, owner1: Owners, p: nat, n: nat)
    requires Spans(owner, p0, n0) && Fresh(owner1, p, n)
    ensures n0 > 0 && n > 0
  {
  }

  /** What mremap does with a mapping, once the new size is stored. */
  lemma MovedInv(mem: Memory, small: seq<Addr>, g: Ledger, p0: nat, n0: nat, p: nat, n: nat)
    requires Inv(mem, small, g) && 512 * p0 in g.live && Spans(g.owner, p0, n0)
    requires Fresh(UnmapLedger(g, p0, n0).owner, p, n)
    ensures var mem3 := Moved(mem, 512 * p0, 512 * n0, 512 * p, 512 * n)[512 * p + 1 := 4096 * n];
            && Inv(mem3, small, MovedLedger(g, p0, n0, p, n))
            && Contents(mem3, MovedLedger(g, p0, n0, p, n).live)
               == (Contents(mem, g.live) - {512 * p0})[512 * p := Fit(Payload(mem, 512 * p0, 4096 * n0), Room(4096 * n))]
  {
    hide Inv, Contents, Payload, Room, Fit, Moved, MapMem, Without, Fresh, Spans, Zeros;
    SomePages(g.owner, p0, n0, UnmapLedger(g, p0, n0).owner, p, n);
    Remapped(mem, small, g, p0, n0, p, n);
    Refilled(mem, Without(mem, 512 * p0, 512 * n0), small, MovedLedger(g, p0, n0, p, n), 512 * p0, n0, p, n);
  }
}
