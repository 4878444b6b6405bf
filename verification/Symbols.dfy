/**
 Symbol lookup of the dynamic linker (ldso.c): elf_hash and the walk of the bucket chains of
 each loaded object's hash section in dlsym_int.

 A hash section has one chain per bucket; the chains thread through the indices of the symbol
 table and end at index 0.  The linear scan of the symbol tables in load order is what the
 lookup has to agree with.
 */
module Symbols {

  import opened Common

  type Name = seq<bv8>

  // ----- elf_hash -----

  /** One step of the hash function in System V gABI chapter 5, which clears the top four bits with a mask. */
  function HashStep(h: bv32, c: bv8): (r: bv32) {
    FoldMasked(ShiftIn(h, c))
  }

  function ShiftIn(h: bv32, c: bv8): bv32 {
    (h << 4) + c as bv32
  }

  function Top(h: bv32): bv32 {
    h & 0xf000_0000
  }

  function FoldMasked(h: bv32): bv32 {
    (if h & 0xf000_0000 != 0 then h ^ ((h & 0xf000_0000) >> 24) else h) & !(h & 0xf000_0000)
  }

  function ElfHash(name: Name): (h: bv32) {
    if name == [] then 0 else HashStep(ElfHash(name[..|name| - 1]), name[|name| - 1])
  }

  lemma FoldBelow28(h: bv32)
    ensures Top(FoldMasked(h)) == 0
  {
  }

  /** Every hash value fits in 28 bits. */
  lemma {:induction false} HashBelow28(name: Name)
    ensures Top(ElfHash(name)) == 0
  {
    if name == [] {
      assert Top(0) == 0;
    } else {
      hide Top, FoldMasked, ShiftIn;
      FoldBelow28(ShiftIn(ElfHash(name[..|name| - 1]), name[|name| - 1]));
    }
  }

  /**
   The sum with its eighth hexadecimal digit taken away and folded into the second one; the
   other digits stay.
   */
  predicate Folded(r: bv32, sum: bv32) {
    r >> 28 == 0 && r & 0x0fff_ff0f == sum & 0x0fff_ff0f && (r >> 4) & 0xf == ((sum >> 4) & 0xf) ^ (sum >> 28)
  }

  lemma FoldByDigits(h: bv32)
    ensures Folded((if h & 0xf000_0000 != 0 then h ^ ((h & 0xf000_0000) >> 24) else h) & !(h & 0xf000_0000), h)
  {
  }

  lemma FoldMaskedFolds(h: bv32)
    ensures Folded(FoldMasked(h), h)
  {
    hide Folded;
    FoldByDigits(h);
  }

  /**
   The hash of a longer name, digit by digit: the hash value of the shorter one moves up by one
   hexadecimal digit, and the character is added; what that sum has in the eighth digit is
   folded into the second one.
   */
  lemma HashByDigits(name: Name, c: bv8)
    ensures ElfHash([]) == 0 && Folded(ElfHash(name + [c]), (ElfHash(name) << 4) + c as bv32)
  {
    hide FoldMasked, Folded;
    var longer := name + [c];
    assert longer[..|longer| - 1] == name && longer[|longer| - 1] == c;
    FoldMaskedFolds(ShiftIn(ElfHash(name), c));
  }

  /** The fold of ldso.c: it clears the top bits by exclusive or, for they survive the folding in. */
  method Fold(h0: bv32) returns (h: bv32)
    ensures h == FoldMasked(h0)
  {
    h := h0;
    var g := h & 0xf000_0000;
    if g != 0 {
      h := h ^ (g >> 24);
    }
    h := h ^ g;
  }

  method ElfHashLoop(name: Name) returns (h: bv32)
    ensures h == ElfHash(name)
  {
    hide FoldMasked, ShiftIn;
    h := 0;
    for i := 0 to |name|
      invariant h == ElfHash(name[..i])
    {
      assert name[..i + 1][..i] == name[..i];
      h := Fold(ShiftIn(h, name[i]));
    }
    assert name[..|name|] == name;
  }

  // ----- hash sections -----

  datatype Symbol = Symbol(name: Name, value: nat, shndx: nat)

  const SHN_UNDEF: nat := 0

  datatype Object = Object(codeplus: nat, buckets: seq<nat>, chain: seq<nat>, symbols: seq<Symbol>)

  /** The chain of bucket b runs through the indices w. */
  ghost predicate Walk(o: Object, first: nat, w: seq<nat>) {
    && first == (if w == [] then 0 else w[0])
    && (forall k :: 0 <= k < |w| ==> 0 < w[k] < |o.chain|)
    && (forall k :: 0 <= k < |w| ==> o.chain[w[k]] == Follow(w, k))
  }

  ghost function Follow(w: seq<nat>, k: nat): nat {
    if k + 1 < |w| then w[k + 1] else 0
  }

  predicate Defined(s: Symbol) {
    s.value != 0 && s.shndx != SHN_UNDEF
  }

  predicate Defines(s: Symbol, name: Name) {
    Defined(s) && s.name == name
  }

  function BucketOf(o: Object, name: Name): (b: nat)
    requires |o.buckets| > 0
    ensures b < |o.buckets|
  {
    BucketAt(ElfHash(name), |o.buckets|)
  }

  function BucketAt(h: bv32, count: nat): (b: nat)
    requires count > 0
    ensures b < count
  {
    Remainder(h as nat, count)
  }

  lemma BucketRule(o: Object, name: Name)
    requires |o.buckets| > 0
    ensures BucketOf(o, name) == ElfHash(name) as nat % |o.buckets|
  {
  }

  function Remainder(n: nat, count: nat): (b: nat)
    requires count > 0
    ensures b < count
  {
    n % count
  }

  /**
   A well-formed hash section: every chain ends, every defined symbol is on the chain its name
   hashes to, and index 0 is the undefined symbol.
   */
  ghost predicate WellFormed(o: Object) {
    && |o.buckets| > 0 && |o.chain| == |o.symbols| > 0 && !Defined(o.symbols[0])
    && (forall b :: 0 <= b < |o.buckets| ==> exists w :: Walk(o, o.buckets[b], w) && Complete(o, b, w))
  }

  ghost predicate Complete(o: Object, b: nat, w: seq<nat>)
    requires |o.buckets| > 0
  {
    forall i :: 0 <= i < |o.symbols| && Defined(o.symbols[i]) && BucketOf(o, o.symbols[i].name) == b ==> i in w
  }

  /** No name is defined twice in one object. */
  ghost predicate UniqueNames(o: Object) {
    forall i, j :: 0 <= i < j < |o.symbols| && Defined(o.symbols[i]) && Defined(o.symbols[j]) ==>
      o.symbols[i].name != o.symbols[j].name
  }

  // ----- the reference: a linear scan -----

  function ScanSymbols(symbols: seq<Symbol>, name: Name): (r: Option<nat>) {
    if symbols == [] then None
    else if Defines(symbols[0], name) then Some(symbols[0].value)
    else ScanSymbols(symbols[1..], name)
  }

  function ScanObjects(objects: seq<Object>, name: Name): (r: Option<nat>) {
    if objects == [] then None
    else match ScanSymbols(objects[0].symbols, name)
      case Some(v) => Some(objects[0].codeplus + v)
      case None => ScanObjects(objects[1..], name)
  }

  lemma {:induction false} ScanFinds(symbols: seq<Symbol>, name: Name, i: nat)
    requires i < |symbols| && Defines(symbols[i], name)
    requires forall j :: 0 <= j < |symbols| && Defines(symbols[j], name) ==> j == i
    ensures ScanSymbols(symbols, name) == Some(symbols[i].value)
  {
    if i > 0 {
      assert !Defines(symbols[0], name);
      assert forall j :: 0 <= j < |symbols[1..]| ==> symbols[1..][j] == symbols[j + 1];
      ScanFinds(symbols[1..], name, i - 1);
    }
  }

  lemma {:induction false} ScanMisses(symbols: seq<Symbol>, name: Name)
    requires forall j :: 0 <= j < |symbols| ==> !Defines(symbols[j], name)
    ensures ScanSymbols(symbols, name) == None
  {
    if symbols != [] {
      ScanMisses(symbols[1..], name);
    }
  }

  lemma FoundByScan(o: Object, name: Name, i: nat)
    requires UniqueNames(o) && i < |o.symbols| && Defines(o.symbols[i], name)
    ensures ScanSymbols(o.symbols, name) == Some(o.symbols[i].value)
  {
    ScanFinds(o.symbols, name, i);
  }

  lemma MissedByScan(o: Object, name: Name, w: seq<nat>)
    requires |o.buckets| > 0 && Complete(o, BucketOf(o, name), w)
    requires forall k :: 0 <= k < |w| ==> w[k] < |o.symbols| && !Defines(o.symbols[w[k]], name)
    ensures ScanSymbols(o.symbols, name) == None
  {
    ScanMisses(o.symbols, name);
  }

  // ----- dlsym_int -----

  /** One object: the walk of the one chain that the name hashes to finds what the scan finds. */
  method LookupObject(o: Object, name: Name) returns (r: Option<nat>)
    requires WellFormed(o) && UniqueNames(o)
    ensures r == ScanSymbols(o.symbols, name)
  {
    hide BucketAt, ElfHash, Defines, UniqueNames, Complete;
    var h := ElfHashLoop(name);
    var bhash := BucketAt(h, |o.buckets|);
    ghost var w :| Walk(o, o.buckets[bhash], w) && Complete(o, bhash, w);
    ghost var k := 0;
    var index := o.buckets[bhash];
    while index != 0
      invariant 0 <= k <= |w|
      invariant index == if k < |w| then w[k] else 0
      invariant forall k' :: 0 <= k' < k ==> !Defines(o.symbols[w[k']], name)
      decreases |w| - k
    {
      if Defines(o.symbols[index], name) {
        FoundByScan(o, name, index);
        return Some(o.symbols[index].value);
      }
      assert o.chain[w[k]] == Follow(w, k);
      index, k := o.chain[index], k + 1;
    }
    MissedByScan(o, name, w);
    r := None;
  }

  /** Symbol i of the object has the name, a value, and a section to which it belongs. */
  predicate DefinesAt(o: Object, name: Name, i: int) {
    0 <= i < |o.symbols| && o.symbols[i].name == name && o.symbols[i].value != 0 && o.symbols[i].shndx != 0
  }

  /** The address a is that of a definition in object x, and no object before x has one. */
  ghost predicate FirstDefinition(objects: seq<Object>, name: Name, x: int, a: int) {
    0 <= x < |objects|
    && (exists i :: DefinesAt(objects[x], name, i) && a == objects[x].codeplus + objects[x].symbols[i].value)
    && (forall x', i :: 0 <= x' < x ==> !DefinesAt(objects[x'], name, i))
  }

  lemma {:induction false} ScanSymbolsSound(symbols: seq<Symbol>, name: Name)
    ensures match ScanSymbols(symbols, name)
      case None => forall i :: 0 <= i < |symbols| ==> !Defines(symbols[i], name)
      case Some(v) => exists i :: 0 <= i < |symbols| && Defines(symbols[i], name) && v == symbols[i].value
  {
    if symbols != [] && !Defines(symbols[0], name) {
      ScanSymbolsSound(symbols[1..], name);
      assert symbols == [symbols[0]] + symbols[1..];
    }
  }

  lemma FirstDefinitionCons(objects: seq<Object>, name: Name, x: int, a: int)
    requires objects != [] && (forall i :: !DefinesAt(objects[0], name, i)) && FirstDefinition(objects[1..], name, x, a)
    ensures FirstDefinition(objects, name, x + 1, a)
  {
    forall x', i | 0 <= x' < x + 1
      ensures !DefinesAt(objects[x'], name, i)
    {
      assert x' > 0 ==> objects[x'] == objects[1..][x' - 1];
    }
  }

  /**
   What the scan stands for: the address of a definition in the first object that has one, and
   nothing exactly when no object has one.
   */
  lemma {:induction false} ScanIsFirstDefiner(objects: seq<Object>, name: Name)
    ensures ScanObjects(objects, name).None? ==> forall x, i :: 0 <= x < |objects| ==> !DefinesAt(objects[x], name, i)
    ensures ScanObjects(objects, name).Some? ==>
              exists x :: FirstDefinition(objects, name, x, ScanObjects(objects, name).value)
  {
    if objects != [] {
      ScanSymbolsSound(objects[0].symbols, name);
      if ScanSymbols(objects[0].symbols, name).Some? {
        var i :| 0 <= i < |objects[0].symbols| && Defines(objects[0].symbols[i], name)
                 && ScanSymbols(objects[0].symbols, name) == Some(objects[0].symbols[i].value);
        assert DefinesAt(objects[0], name, i);
        assert FirstDefinition(objects, name, 0, ScanObjects(objects, name).value);
      } else {
        ScanIsFirstDefiner(objects[1..], name);
        var rest := ScanObjects(objects[1..], name);
        assert ScanObjects(objects, name) == rest;
        if rest.Some? {
          var x :| FirstDefinition(objects[1..], name, x, rest.value);
          FirstDefinitionCons(objects, name, x, rest.value);
        }
      }
    }
  }

  /** dlsym_int: the first defining object in load order decides. */
  method DlsymInt(objects: seq<Object>, name: Name) returns (r: Option<nat>)
    requires forall x :: 0 <= x < |objects| ==> WellFormed(objects[x]) && UniqueNames(objects[x])
    ensures r == ScanObjects(objects, name)
    ensures r.None? ==> forall x, i :: 0 <= x < |objects| ==> !DefinesAt(objects[x], name, i)
    ensures r.Some? ==> exists x :: FirstDefinition(objects, name, x, r.value)
  {
    ScanIsFirstDefiner(objects, name);
    var x := 0;
    while x < |objects|
      invariant 0 <= x <= |objects| && ScanObjects(objects, name) == ScanObjects(objects[x..], name)
    {
      var found := LookupObject(objects[x], name);
      if found.Some? {
        return Some(objects[x].codeplus + found.value);
      }
      x := x + 1;
    }
    r := None;
  }
}
