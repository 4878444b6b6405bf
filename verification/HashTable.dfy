/**
 hsearch_r (lib/hsearch_r.c): a chained hash table that resizes itself by relinking its
 buckets in place.

 A bucket is an object; its key and hash value are set when it is made, while its link and
 the user's data can change.  siphash24 is any function of the key, and keys are compared
 as strings.  Allocation failures are inputs of the call.
 */
module HashTable {

  import opened Common

  type Key = seq<Byte>
  type Data = int

  datatype Action = FIND | ENTER

  class Bucket {
    var next: Bucket?
    var data: Data
    const key: Key
    const hv: nat

    constructor (key: Key, data: Data, hv: nat)
      ensures this.key == key && this.data == data && this.hv == hv && next == null
    {
      this.key, this.data, this.hv := key, data, hv;
      next := null;
    }
  }

  const PRIMES: seq<nat> := [67, 127, 257, 521, 1031, 2053, 4099, 8191, 16381, 32771, 65537,
                             131071, 262147, 524287, 1048583, 2097143]

  /** The first size in the table above n. */
  function NextSize(n: nat): (p: nat)
    requires n < 2097143
    ensures p > n && p in PRIMES && forall q :: q in PRIMES && q > n ==> p <= q
  {
    FirstAbove(n, 0)
  }

  function FirstAbove(n: nat, i: nat): (p: nat)
    requires n < 2097143 && i < 16 && (i > 0 ==> PRIMES[i - 1] <= n)
    ensures p > n && p in PRIMES && forall q :: q in PRIMES && q > n ==> p <= q
    decreases 16 - i
  {
    if n < PRIMES[i] then (Increasing(i); PRIMES[i]) else FirstAbove(n, i + 1)
  }

  lemma Increasing(i: nat)
    requires i < 16
    ensures forall k :: 0 <= k < i ==> PRIMES[k] < PRIMES[i]
    ensures forall k :: i < k < 16 ==> PRIMES[i] < PRIMES[k]
    ensures |PRIMES| == 16 && PRIMES[15] == 2097143
  {
  }

  // ----- chains -----

  /** The list that starts at b runs through exactly the buckets c. */
  ghost predicate Links(b: Bucket?, c: seq<Bucket>)
    reads (set x | x in c)`next
  {
    if c == [] then b == null else b == c[0] && Links(c[0].next, c[1..])
  }

  /** The lists that start at the heads run through the chains, whose buckets are all in `all`. */
  ghost predicate Linked(heads: seq<Bucket?>, chains: seq<seq<Bucket>>, all: set<Bucket>)
    reads all`next
  {
    |heads| == |chains|
    && forall j :: 0 <= j < |chains| ==> Elements(chains[j]) <= all && Links(heads[j], chains[j])
  }

  /** The bucket after number k of a chain. */
  ghost function After(c: seq<Bucket>, k: nat): Bucket? {
    if k + 1 < |c| then c[k + 1] else null
  }

  lemma {:induction false} LinksNext(b: Bucket?, c: seq<Bucket>, k: nat)
    requires Links(b, c) && k < |c|
    ensures c[k].next == After(c, k)
  {
    if k > 0 {
      LinksNext(c[0].next, c[1..], k - 1);
    }
  }

  lemma {:induction false} NextLinks(c: seq<Bucket>)
    requires c != [] && forall k :: 0 <= k < |c| ==> c[k].next == After(c, k)
    ensures Links(c[0], c)
  {
    assert c[0].next == After(c, 0);
    if |c| == 1 {
      assert c[1..] == [];
    } else {
      forall k | 0 <= k < |c[1..]|
        ensures c[1..][k].next == After(c[1..], k)
      {
        assert c[1..][k] == c[k + 1];
      }
      NextLinks(c[1..]);
    }
  }

  /**
   The chains hold the buckets of `moved`, each once, in the one chain its hash value
   selects, and no others.
   */
  ghost predicate Chained(chains: seq<seq<Bucket>>, moved: set<Bucket>)
  {
    && |chains| > 0
    && (forall b :: b in moved ==> b in chains[b.hv % |chains|])
    && (forall j, i :: 0 <= j < |chains| && 0 <= i < |chains[j]| ==>
          chains[j][i].hv % |chains| == j && chains[j][i] in moved)
    && (forall j, i, i' :: 0 <= j < |chains| && 0 <= i < i' < |chains[j]| ==> chains[j][i] != chains[j][i'])
  }

  ghost predicate Keyed(all: map<Key, Bucket>, hash: Key -> nat)
  {
    forall k :: k in all ==> all[k].key == k && all[k].hv == hash(k)
  }

  /** One more bucket at the front of its chain. */
  lemma ChainedPush(chains: seq<seq<Bucket>>, moved: set<Bucket>, x: Bucket)
    requires Chained(chains, moved) && x !in moved
    ensures var m := x.hv % |chains|; Chained(chains[m := [x] + chains[m]], moved + {x})
  {
    var m := x.hv % |chains|;
    var longer := [x] + chains[m];
    var chains' := chains[m := longer];
    forall b | b in moved + {x}
      ensures b in chains'[b.hv % |chains|]
    {
      if b == x {
        assert longer[0] == x;
      } else if b.hv % |chains| == m {
        var i :| 0 <= i < |chains[m]| && chains[m][i] == b;
        assert longer[i + 1] == b;
      }
    }
    forall j, i, i' | 0 <= j < |chains| && 0 <= i < i' < |chains'[j]|
      ensures chains'[j][i] != chains'[j][i']
    {
      if j == m {
        assert chains'[j][i'] == chains[j][i' - 1];
        assert i > 0 ==> chains'[j][i] == chains[j][i - 1];
      }
    }
  }

  /** One more bucket at the end of its chain. */
  lemma ChainedAppend(chains: seq<seq<Bucket>>, moved: set<Bucket>, x: Bucket)
    requires Chained(chains, moved) && x !in moved
    ensures var m := x.hv % |chains|; Chained(chains[m := chains[m] + [x]], moved + {x})
  {
    var m := x.hv % |chains|;
    var longer := chains[m] + [x];
    var chains' := chains[m := longer];
    forall b | b in moved + {x}
      ensures b in chains'[b.hv % |chains|]
    {
      if b == x {
        assert longer[|longer| - 1] == x;
      } else if b.hv % |chains| == m {
        assert b in chains[m];
      }
    }
  }

  ghost function Elements(c: seq<Bucket>): (s: set<Bucket>) {
    set x | x in c
  }

  /** The buckets of the first j chains. */
  ghost function Before(chains: seq<seq<Bucket>>, j: nat): (s: set<Bucket>)
    requires j <= |chains|
  {
    if j == 0 then {} else Before(chains, j - 1) + Elements(chains[j - 1])
  }

  lemma {:induction false} BeforeIff(chains: seq<seq<Bucket>>, moved: set<Bucket>, j: nat, b: Bucket)
    requires Chained(chains, moved) && j <= |chains|
    ensures b in Before(chains, j) <==> b in moved && b.hv % |chains| < j
  {
    if j > 0 {
      BeforeIff(chains, moved, j - 1, b);
    }
  }

  lemma BeforeAll(chains: seq<seq<Bucket>>, moved: set<Bucket>)
    requires Chained(chains, moved)
    ensures Before(chains, |chains|) == moved
  {
    forall b | b in moved + Before(chains, |chains|)
      ensures b in Before(chains, |chains|) && b in moved
    {
      BeforeIff(chains, moved, |chains|, b);
    }
  }

  /** The chains from j on hold no bucket of an earlier chain. */
  lemma BeforeApart(chains: seq<seq<Bucket>>, moved: set<Bucket>, j: nat)
    requires Chained(chains, moved) && j <= |chains|
    ensures forall j' :: j <= j' < |chains| ==> Elements(chains[j']) <= moved - Before(chains, j)
  {
    forall j', b | j <= j' < |chains| && b in chains[j']
      ensures b in moved - Before(chains, j)
    {
      BeforeIff(chains, moved, j, b);
    }
  }

  ghost function Final(c: seq<Bucket>): Bucket? {
    if c == [] then null else c[|c| - 1]
  }

  /** A chain whose final link leads to a new bucket ends with that bucket. */
  lemma AppendLinks(b: Bucket?, c: seq<Bucket>, x: Bucket)
    requires x.next == null && b == (c + [x])[0]
    requires forall k :: 0 <= k < |c| - 1 ==> c[k].next == After(c, k)
    requires c != [] ==> c[|c| - 1].next == x
    ensures Links(b, c + [x])
  {
    forall k | 0 <= k < |c| + 1
      ensures (c + [x])[k].next == After(c + [x], k)
    {
      assert k < |c| - 1 ==> c[k].next == After(c, k);
    }
    NextLinks(c + [x]);
  }

  /** The search loop: the first bucket with the key, or else the last one of the chain. */
  method Find(b: Bucket?, key: Key, hv: nat, ghost c: seq<Bucket>) returns (found: Bucket?, last: Bucket?)
    requires Links(b, c)
    ensures found != null ==> found in c && found.key == key && found.hv == hv
    ensures found == null ==> forall x :: x in c ==> x.key != key || x.hv != hv
    ensures found == null ==> last == Final(c)
  {
    ghost var i := 0;
    found, last := b, null;
    while found != null
      invariant 0 <= i <= |c| && Links(found, c[i..])
      invariant last == if i == 0 then null else c[i - 1]
      invariant forall k :: 0 <= k < i ==> c[k].key != key || c[k].hv != hv
      decreases |c| - i
    {
      if found.hv == hv && found.key == key {
        return;
      }
      last, found, i := found, found.next, i + 1;
    }
  }

  /** The last bucket of a chain. */
  method Last(b: Bucket?, ghost c: seq<Bucket>) returns (last: Bucket?)
    requires Links(b, c)
    ensures last == Final(c)
  {
    ghost var i := 0;
    var rest := b;
    last := null;
    while rest != null
      invariant 0 <= i <= |c| && Links(rest, c[i..])
      invariant last == if i == 0 then null else c[i - 1]
      decreases |c| - i
    {
      last, rest, i := rest, rest.next, i + 1;
    }
  }

  /** The move of one bucket to the front of its new chain. */
  method MoveOne(x: Bucket, n: array<Bucket?>, ghost newChains: seq<seq<Bucket>>, ghost moved: set<Bucket>)
    requires n.Length > 0 && x !in moved && Linked(n[..], newChains, moved)
    modifies n, x`next
    ensures Linked(n[..], newChains[x.hv % n.Length := [x] + newChains[x.hv % n.Length]], moved + {x})
  {
    var m := x.hv % n.Length;
    ghost var c := newChains[m];
    assert Links(n[m], c);
    ghost var heads := n[..];
    x.next := n[m];
    n[m] := x;
    assert Linked(heads, newChains, moved);
    assert ([x] + c)[1..] == c;
  }

  lemma Uncons(c: seq<Bucket>)
    requires c != [] && Distinct(c)
    ensures Elements(c) == {c[0]} + Elements(c[1..]) && c[0] !in Elements(c[1..]) && Distinct(c[1..])
  {
    assert c == [c[0]] + c[1..];
  }

  /** The inner loop of the relinking: one old chain is moved, bucket by bucket. */
  method MoveChain(b: Bucket?, ghost c: seq<Bucket>, n: array<Bucket?>, ghost chains: seq<seq<Bucket>>,
                   ghost moved: set<Bucket>)
    returns (ghost chains': seq<seq<Bucket>>)
    requires n.Length > 0 && Links(b, c) && Distinct(c) && Elements(c) !! moved
    requires Linked(n[..], chains, moved) && Chained(chains, moved)
    modifies n, Elements(c)`next
    ensures Linked(n[..], chains', moved + Elements(c)) && Chained(chains', moved + Elements(c))
  {
    var rest := b;
    ghost var r, done := c, moved;
    chains' := chains;
    while rest != null
      invariant Links(rest, r) && Distinct(r) && Elements(r) !! done
      invariant Elements(r) <= Elements(c) && done + Elements(r) == moved + Elements(c)
      invariant Linked(n[..], chains', done) && Chained(chains', done)
      decreases |r|
    {
      var x := rest;
      rest := rest.next;
      Uncons(r);
      ghost var m := x.hv % n.Length;
      ChainedPush(chains', done, x);
      MoveOne(x, n, chains', done);
      chains' := chains'[m := [x] + chains'[m]];
      r, done := r[1..], done + {x};
    }
  }

  /** The lists not yet moved, without the first of them. */
  lemma LinkedTail(heads: seq<Bucket?>, chains: seq<seq<Bucket>>, all: set<Bucket>, j: nat)
    requires Chained(chains, all) && j < |chains| && Linked(heads, chains[j..], all - Before(chains, j))
    ensures Linked(heads[1..], chains[j + 1..], all - Before(chains, j + 1))
    ensures Links(heads[0], chains[j]) && Distinct(chains[j]) && Elements(chains[j]) <= all - Before(chains, j)
    ensures Elements(chains[j]) !! all - Before(chains, j + 1)
  {
    BeforeApart(chains, all, j + 1);
    assert chains[j..][0] == chains[j];
    forall k {:trigger chains[j + 1..][k]} | 0 <= k < |chains| - j - 1
      ensures Links(heads[1..][k], chains[j + 1..][k])
      ensures Elements(chains[j + 1..][k]) <= all - Before(chains, j + 1)
    {
      assert heads[1..][k] == heads[k + 1] && chains[j + 1..][k] == chains[j..][k + 1];
      assert chains[j + 1..][k] == chains[j + 1 + k];
    }
  }

  /**
   The relinking loops: every bucket goes to the front of the chain its hash value selects
   among the chains of n.  Only links change.
   */
  method Relink(table: array<Bucket?>, n: array<Bucket?>, ghost chains: seq<seq<Bucket>>, ghost all: set<Bucket>)
    returns (ghost chains': seq<seq<Bucket>>)
    requires Holds(table[..], chains, all)
    requires n.Length > 0 && n != table && forall m :: 0 <= m < n.Length ==> n[m] == null
    modifies n, all`next
    ensures |chains'| == n.Length && Holds(n[..], chains', all)
  {
    chains' := seq(n.Length, _ => []);
    BeforeApart(chains, all, 0);
    for j := 0 to table.Length
      invariant Linked(n[..], chains', Before(chains, j)) && Chained(chains', Before(chains, j))
      invariant Linked(table[j..], chains[j..], all - Before(chains, j))
    {
      LinkedTail(table[j..], chains, all, j);
      assert table[j..][0] == table[j] && table[j..][1..] == table[j + 1..];
      chains' := MoveChain(table[j], chains[j], n, chains', Before(chains, j));
    }
    BeforeAll(chains, all);
  }

  ghost predicate Holds(heads: seq<Bucket?>, chains: seq<seq<Bucket>>, all: set<Bucket>)
    reads all`next
  {
    Chained(chains, all) && Linked(heads, chains, all)
  }

  lemma FinalApart(chains: seq<seq<Bucket>>, all: set<Bucket>, m: nat, j: nat)
    requires Chained(chains, all) && m < |chains| && j < |chains| && j != m && chains[m] != []
    ensures Final(chains[m]) !in chains[j]
  {
  }

  /** The links of one chain before and after its end is extended. */
  lemma LinksAll(b: Bucket?, c: seq<Bucket>)
    requires Links(b, c)
    ensures forall k :: 0 <= k < |c| ==> c[k].next == After(c, k)
  {
    forall k | 0 <= k < |c|
      ensures c[k].next == After(c, k)
    {
      LinksNext(b, c, k);
    }
  }

  /** A new bucket is linked behind the last one of its chain. */
  method Append(table: array<Bucket?>, last: Bucket?, x: Bucket, ghost chains: seq<seq<Bucket>>, ghost all: set<Bucket>)
    requires Holds(table[..], chains, all) && x !in all && x.next == null
    requires last == Final(chains[x.hv % table.Length])
    modifies table, all`next
    ensures var m := x.hv % table.Length;
            Holds(table[..], chains[m := chains[m] + [x]], all + {x})
  {
    var m := x.hv % table.Length;
    ghost var c := chains[m];
    ChainedAppend(chains, all, x);
    forall j | 0 <= j < |chains| && j != m && c != []
      ensures last !in chains[j]
    {
      FinalApart(chains, all, m, j);
    }
    Link(table, m, last, x, chains, all);
  }

  method Link(table: array<Bucket?>, m: nat, last: Bucket?, x: Bucket, ghost chains: seq<seq<Bucket>>, ghost all: set<Bucket>)
    requires m < table.Length == |chains| && Linked(table[..], chains, all) && Distinct(chains[m])
    requires x !in all && x.next == null && last == Final(chains[m])
    requires forall j :: 0 <= j < |chains| && j != m && last != null ==> last !in chains[j]
    modifies table, all`next
    ensures Linked(table[..], chains[m := chains[m] + [x]], all + {x})
  {
    ghost var c := chains[m];
    ghost var heads := table[..];
    LinksAll(heads[m], c);
    if last == null {
      table[m] := x;
    } else {
      last.next := x;
    }
    AppendLinks(table[m], c, x);
    forall j | 0 <= j < |chains| && j != m
      ensures Links(table[j], chains[j])
    {
      assert old(Links(heads[j], chains[j]));
    }
  }

  lemma MoreValues(all: map<Key, Bucket>, key: Key, x: Bucket)
    requires key !in all
    ensures all[key := x].Values == all.Values + {x}
  {
    var more := all[key := x];
    assert key in more && forall k :: k in all ==> more[k] == all[k];
    forall b | b in all.Values + {x}
      ensures b in more.Values
    {
      if b != x {
        var k :| k in all && all[k] == b;
        assert more[k] == b;
      }
    }
  }

  lemma MoreEntries(all: map<Key, Bucket>, hash: Key -> nat, key: Key, x: Bucket)
    requires key !in all && Keyed(all, hash) && x.key == key && x.hv == hash(key)
    ensures all[key := x].Values == all.Values + {x} && |all[key := x]| == |all| + 1
    ensures Keyed(all[key := x], hash)
  {
    MoreValues(all, key, x);
  }

  class HTable {
    const hash: Key -> nat
    var table: array<Bucket?>
    var size: nat
    var filled: nat
    ghost var chains: seq<seq<Bucket>>
    /** The finite map the table stands for: from keys to the buckets that hold their entries. */
    ghost var contents: map<Key, Bucket>

    ghost predicate Valid()
      reads this, table, contents.Values
    {
      && table.Length == size == |chains| > 0 && filled == |contents|
      && Keyed(contents, hash) && Holds(table[..], chains, contents.Values)
    }

    /** hcreate_r, when the allocation succeeds. */
    constructor (count: nat, hash: Key -> nat)
      requires count > 0
      ensures Valid() && contents == map[] && size == count && this.hash == hash && fresh(table)
    {
      this.hash := hash;
      size, filled := count, 0;
      table := new Bucket?[count](_ => null);
      chains := seq(count, _ => []);
      contents := map[];
    }

    /** What the search loop finds in the chain a key hashes to is the key's entry. */
    lemma FoundIsEntry(key: Key, found: Bucket?)
      requires Valid()
      requires var c := chains[hash(key) % size];
               if found == null then forall x :: x in c ==> x.key != key || x.hv != hash(key)
               else found in c && found.key == key
      ensures found == if key in contents then contents[key] else null
    {
      if key in contents {
        assert contents[key] in contents.Values;
      }
    }

    /** The fields are set to a list structure that is already in place. */
    method Install(t: array<Bucket?>, count: nat, ghost newChains: seq<seq<Bucket>>, ghost entries: map<Key, Bucket>)
      requires t.Length == |newChains| > 0 && count == |entries| && Keyed(entries, hash) && Holds(t[..], newChains, entries.Values)
      modifies this
      ensures Valid() && table == t && chains == newChains && contents == entries
    {
      hide Chained, Linked;
      table, size, filled, chains, contents := t, t.Length, count, newChains, entries;
    }

    /** The attempt to resize a full table that can still grow: every entry stays in its bucket, whatever becomes of the allocation. */
    method Resize(callocOk: bool) returns (resized: bool)
      requires Valid()
      modifies this, contents.Values`next
      ensures Valid() && contents == old(contents) && filled == old(filled)
      ensures resized == (callocOk && old(size < 2097143 && filled + 1 > size))
      ensures if resized then size == NextSize(old(size)) && fresh(table) else table == old(table) && size == old(size)
      ensures !resized ==> unchanged(this) && unchanged(contents.Values)
    {
      hide Chained, Linked;
      resized := callocOk && size < 2097143 && filled + 1 > size;
      if resized {
        var i := NextSize(size);
        var n: array<Bucket?> := new Bucket?[i](_ => null);
        ghost var newChains := Relink(table, n, chains, contents.Values);
        Install(n, filled, newChains, contents);
      }
    }

    /** The new bucket goes to the end of its chain. */
    method Add(key: Key, data: Data, last: Bucket?) returns (x: Bucket)
      requires Valid() && key !in contents && last == Final(chains[hash(key) % size])
      modifies this, table, contents.Values`next
      ensures Valid() && fresh(x) && x.key == key && x.data == data
      ensures contents == old(contents)[key := x] && table == old(table) && size == old(size)
    {
      hide Chained, Linked, Keyed;
      x := new Bucket(key, data, hash(key));
      ghost var m := x.hv % size;
      Append(table, last, x, chains, contents.Values);
      MoreEntries(contents, hash, key, x);
      Install(table, filled + 1, chains[m := chains[m] + [x]], contents[key := x]);
    }

    /**
     hsearch_r.  A key in the table leads to its one bucket, for both actions, and nothing
     changes.  Otherwise ENTER adds a new bucket with the caller's item and keeps the bucket of
     every other key, also when the table is resized on the way or an allocation fails.
     */
    method HSearchR(key: Key, data: Data, action: Action, callocOk: bool, mallocOk: bool)
      returns (ok: bool, retval: Bucket?, notFound: bool)
      requires Valid()
      modifies this, table, contents.Values`next
      ensures Valid()
      ensures ok == (retval != null) == (key in old(contents) || (action.ENTER? && mallocOk))
      ensures notFound == (key !in old(contents) && action.FIND?)
      ensures key in old(contents) ==> retval == old(contents)[key]
      ensures key !in old(contents) && ok ==> fresh(retval) && retval.key == key && retval.data == data
      ensures contents == if key !in old(contents) && ok then old(contents)[key := retval] else old(contents)
      ensures key in old(contents) || action.FIND? ==>
                unchanged(this) && unchanged(old(table)) && unchanged(old(contents).Values)
      ensures size == if key !in old(contents) && action.ENTER? && callocOk && old(size < 2097143 && filled + 1 > size)
                      then NextSize(old(size)) else old(size)
      ensures callocOk && old(filled <= size) && old(size) < 2097143 ==> filled <= size
    {
      var hv := hash(key);
      ghost var c := chains[hv % size];
      assert Links(table[..][hv % size], c);
      var found, last := Find(table[hv % size], key, hv, c);
      FoundIsEntry(key, found);
      notFound := false;
      if found != null {
        return true, found, false;
      }
      if action == FIND {
        return false, null, true;
      }
      var resized := Resize(callocOk);
      if resized {
        c := chains[hv % size];
        assert Links(table[..][hv % size], c);
        last := Last(table[hv % size], c);
      }
      if !mallocOk {
        return false, null, false;
      }
      retval := Add(key, data, last);
      ok := true;
    }
  }

  /** hcreate_r: no table without its allocation, and calloc never gives memory for 0 entries. */
  method HCreateR(count: nat, hash: Key -> nat, callocOk: bool) returns (ok: bool, table: HTable?)
    ensures ok == (table != null) == (count > 0 && callocOk)
    ensures table != null ==>
              fresh(table) && fresh(table.table) && table.Valid() && table.hash == hash && table.contents == map[] && table.size == count
  {
    if count == 0 || !callocOk {
      return false, null;
    }
    table := new HTable(count, hash);
    ok := true;
  }
}
