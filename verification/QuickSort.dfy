/**
 qsort (lib/qsort.c): Sedgewick's quicksort with three-way partitioning on an array of
 elements of `size` bytes each, and bsearch (lib/bsearch.c), its consumer.

 The code works on bytes; `Elems` is the same memory seen as a sequence of elements.
 */
module QuickSort {
  import opened Bits
  import opened Common
  type Elem = seq<Byte>
  type Comparison = (Elem, Elem) -> int

  // ----- comparison functions and ranges of elements -----

  /** Exchanging the arguments turns the result round. */
  ghost predicate Flips(cmp: Comparison)
  {
    forall x, y :: cmp(x, y) < 0 <==> cmp(y, x) > 0
  }

  ghost predicate TotalPreorder(cmp: Comparison)
  {
    && Flips(cmp)
    && (forall x, y, z :: cmp(x, y) <= 0 && cmp(y, z) <= 0 ==> cmp(x, z) <= 0)
  }

  /** The elements from lo up to but not including hi are less than, equal to, or greater than p. */
  ghost predicate AllLt(v: seq<Elem>, lo: int, hi: int, p: Elem, cmp: Comparison)
  {
    0 <= lo && hi <= |v| && forall k :: lo <= k < hi ==> cmp(v[k], p) < 0
  }

  ghost predicate AllEq(v: seq<Elem>, lo: int, hi: int, p: Elem, cmp: Comparison)
  {
    0 <= lo && hi <= |v| && forall k :: lo <= k < hi ==> cmp(v[k], p) == 0
  }

  ghost predicate AllGt(v: seq<Elem>, lo: int, hi: int, p: Elem, cmp: Comparison)
  {
    0 <= lo && hi <= |v| && forall k :: lo <= k < hi ==> cmp(v[k], p) > 0
  }

  ghost predicate AllLe(v: seq<Elem>, lo: int, hi: int, p: Elem, cmp: Comparison)
  {
    0 <= lo && hi <= |v| && forall k :: lo <= k < hi ==> cmp(v[k], p) <= 0
  }

  ghost predicate AllGe(v: seq<Elem>, lo: int, hi: int, p: Elem, cmp: Comparison)
  {
    0 <= lo && hi <= |v| && forall k :: lo <= k < hi ==> cmp(v[k], p) >= 0
  }

  ghost predicate Sorted(v: seq<Elem>, lo: int, hi: int, cmp: Comparison)
  {
    0 <= lo && hi <= |v| && forall i, j :: lo <= i < j < hi ==> cmp(v[i], v[j]) <= 0
  }

  function Swap(v: seq<Elem>, x: nat, y: nat): (w: seq<Elem>)
    requires x < |v| && y < |v|
    ensures |w| == |v| && w[x] == v[y] && w[y] == v[x]
    ensures forall k :: 0 <= k < |v| && k != x && k != y ==> w[k] == v[k]
  {
    v[x := v[y]][y := v[x]]
  }

  /** The result of exchanging pairs of elements, one pair after the other. */
  function Swaps(v: seq<Elem>, pairs: seq<(nat, nat)>): (w: seq<Elem>)
    ensures |w| == |v|
  {
    if pairs == [] then v
    else
      var (x, y) := pairs[|pairs| - 1];
      var u := Swaps(v, pairs[..|pairs| - 1]);
      if x < |v| && y < |v| then Swap(u, x, y) else u
  }

  ghost predicate Within(pairs: seq<(nat, nat)>, lo: int, hi: int)
  {
    forall i :: 0 <= i < |pairs| ==> lo <= pairs[i].0 < hi && lo <= pairs[i].1 < hi
  }

  /** w is v after exchanges among the elements from lo up to hi. */
  ghost predicate Rearranged(v: seq<Elem>, w: seq<Elem>, lo: int, hi: int)
  {
    0 <= lo && hi <= |v| == |w| && exists pairs :: Within(pairs, lo, hi) && w == Swaps(v, pairs)
  }

  lemma RearrangedSame(v: seq<Elem>, lo: int, hi: int)
    requires 0 <= lo && hi <= |v|
    ensures Rearranged(v, v, lo, hi)
  {
    assert Within([], lo, hi) && v == Swaps(v, []);
  }

  lemma SwapMore(u: seq<Elem>, v: seq<Elem>, lo: int, hi: int, x: int, y: int)
    requires Rearranged(u, v, lo, hi) && lo <= x < hi && lo <= y < hi
    ensures Rearranged(u, Swap(v, x, y), lo, hi)
  {
    var pairs :| Within(pairs, lo, hi) && v == Swaps(u, pairs);
    var more := pairs + [(x, y)];
    assert more[..|more| - 1] == pairs;
    assert Within(more, lo, hi) && Swap(v, x, y) == Swaps(u, more);
  }

  lemma {:induction false} SwapsAppend(v: seq<Elem>, a: seq<(nat, nat)>, b: seq<(nat, nat)>)
    ensures Swaps(v, a + b) == Swaps(Swaps(v, a), b)
    decreases |b|
  {
    if b == [] {
      assert a + b == a;
    } else {
      SwapsAppend(v, a, b[..|b| - 1]);
      assert (a + b)[..|a + b| - 1] == a + b[..|b| - 1];
    }
  }

  lemma RearrangedTrans(u: seq<Elem>, v: seq<Elem>, w: seq<Elem>, lo: int, hi: int)
    requires Rearranged(u, v, lo, hi) && Rearranged(v, w, lo, hi)
    ensures Rearranged(u, w, lo, hi)
  {
    var a :| Within(a, lo, hi) && v == Swaps(u, a);
    var b :| Within(b, lo, hi) && w == Swaps(v, b);
    SwapsAppend(u, a, b);
    assert Within(a + b, lo, hi);
  }

  /** A rearrangement of a part is one of the whole. */
  lemma RearrangedWiden(v: seq<Elem>, w: seq<Elem>, lo: int, hi: int, lo': int, hi': int)
    requires Rearranged(v, w, lo, hi) && 0 <= lo' <= lo && hi <= hi' <= |v|
    ensures Rearranged(v, w, lo', hi')
  {
    var pairs :| Within(pairs, lo, hi) && w == Swaps(v, pairs);
    assert Within(pairs, lo', hi');
  }

  /** Exchanges keep the elements and, outside their range, the places. */
  lemma {:induction false} SwapsPermute(v: seq<Elem>, pairs: seq<(nat, nat)>, lo: int, hi: int)
    requires 0 <= lo && hi <= |v| && Within(pairs, lo, hi)
    ensures multiset(Swaps(v, pairs)) == multiset(v)
    ensures forall k :: 0 <= k < |v| && !(lo <= k < hi) ==> Swaps(v, pairs)[k] == v[k]
    decreases |pairs|
  {
    if pairs != [] {
      var rest := pairs[..|pairs| - 1];
      SwapsPermute(v, rest, lo, hi);
      assert lo <= pairs[|pairs| - 1].0 < hi && lo <= pairs[|pairs| - 1].1 < hi;
    }
  }

  lemma RearrangedPermutes(v: seq<Elem>, w: seq<Elem>, lo: int, hi: int)
    requires Rearranged(v, w, lo, hi)
    ensures multiset(w) == multiset(v) && forall k :: 0 <= k < |v| && !(lo <= k < hi) ==> w[k] == v[k]
  {
    var pairs :| Within(pairs, lo, hi) && w == Swaps(v, pairs);
    SwapsPermute(v, pairs, lo, hi);
  }

  /** Every element of a rearranged range was somewhere in that range before. */
  lemma {:induction false} SwapsOrigin(v: seq<Elem>, pairs: seq<(nat, nat)>, lo: int, hi: int, k: int) returns (k': int)
    requires 0 <= lo <= k < hi <= |v| && Within(pairs, lo, hi)
    ensures lo <= k' < hi && v[k'] == Swaps(v, pairs)[k]
    decreases |pairs|
  {
    if pairs == [] {
      k' := k;
    } else {
      var (x, y) := pairs[|pairs| - 1];
      assert lo <= x < hi && lo <= y < hi;
      k' := SwapsOrigin(v, pairs[..|pairs| - 1], lo, hi, if k == x then y else if k == y then x else k);
    }
  }

  lemma RearrangedOrigin(v: seq<Elem>, w: seq<Elem>, lo: int, hi: int, k: int) returns (k': int)
    requires Rearranged(v, w, lo, hi) && lo <= k < hi
    ensures lo <= k' < hi && v[k'] == w[k]
  {
    var pairs :| Within(pairs, lo, hi) && w == Swaps(v, pairs);
    k' := SwapsOrigin(v, pairs, lo, hi, k);
  }

  lemma RearrangedKeepsLe(v: seq<Elem>, w: seq<Elem>, lo: int, hi: int, p: Elem, cmp: Comparison)
    requires Rearranged(v, w, lo, hi) && AllLe(v, lo, hi, p, cmp)
    ensures AllLe(w, lo, hi, p, cmp)
  {
    forall k | lo <= k < hi
      ensures cmp(w[k], p) <= 0
    {
      var k' := RearrangedOrigin(v, w, lo, hi, k);
    }
  }

  lemma RearrangedKeepsGe(v: seq<Elem>, w: seq<Elem>, lo: int, hi: int, p: Elem, cmp: Comparison)
    requires Rearranged(v, w, lo, hi) && AllGe(v, lo, hi, p, cmp)
    ensures AllGe(w, lo, hi, p, cmp)
  {
    forall k | lo <= k < hi
      ensures cmp(w[k], p) >= 0
    {
      var k' := RearrangedOrigin(v, w, lo, hi, k);
    }
  }

  /** Sorting both ends of a three-way partition sorts the whole. */
  lemma SortedParts(v: seq<Elem>, l: int, j: int, i: int, r: int, p: Elem, cmp: Comparison)
    requires TotalPreorder(cmp) && 0 <= l <= j + 1 <= i <= r + 1 <= |v|
    requires Sorted(v, l, j + 1, cmp) && Sorted(v, i, r + 1, cmp)
    requires AllLe(v, l, j + 1, p, cmp) && AllEq(v, j + 1, i, p, cmp) && AllGe(v, i, r + 1, p, cmp)
    ensures Sorted(v, l, r + 1, cmp)
  {
    forall a, b | l <= a < b < r + 1
      ensures cmp(v[a], v[b]) <= 0
    {
      if b < j + 1 {
      } else if i <= a {
      } else {
        assert cmp(v[a], p) <= 0;
        assert cmp(v[b], p) >= 0;
        assert cmp(p, v[b]) <= 0;
      }
    }
  }

  // ----- the partition loop, on elements -----

  /**
   The state at the head of the loop: [l..p] and [q..r] are equal to the pivot, (p..i] less
   and [j..q) greater; what lies between i and j has not been looked at.
   */
  ghost predicate Scanning(v: seq<Elem>, l: int, r: int, p: int, q: int, i: int, j: int, pv: Elem, cmp: Comparison)
  {
    && 0 <= l < r < |v| && l - 1 <= p <= i < j <= q <= r && (i >= l || j == r)
    && AllEq(v, l, p + 1, pv, cmp) && AllLt(v, p + 1, i + 1, pv, cmp)
    && AllGt(v, j, q, pv, cmp) && AllEq(v, q, r + 1, pv, cmp)
  }

  /** Both scans have stopped. */
  ghost predicate Stopped(v: seq<Elem>, l: int, r: int, p: int, q: int, i: int, j: int, pv: Elem, cmp: Comparison)
  {
    && 0 <= l < r < |v| && l - 1 <= p < i <= q <= r && l <= j < q
    && AllEq(v, l, p + 1, pv, cmp) && AllLt(v, p + 1, i, pv, cmp) && cmp(v[i], pv) >= 0
    && AllGt(v, j + 1, q, pv, cmp) && AllEq(v, q, r + 1, pv, cmp) && (cmp(v[j], pv) <= 0 || j == l)
  }

  /** After the exchange of i and j: neither is on the wrong side any more. */
  ghost predicate Crossed(v: seq<Elem>, l: int, r: int, p: int, q: int, i: int, j: int, pv: Elem, cmp: Comparison)
  {
    && 0 <= l < r < |v| && l - 1 <= p < i < j < q <= r
    && AllEq(v, l, p + 1, pv, cmp) && AllLt(v, p + 1, i, pv, cmp) && cmp(v[i], pv) <= 0
    && AllGt(v, j + 1, q, pv, cmp) && AllEq(v, q, r + 1, pv, cmp) && cmp(v[j], pv) >= 0
  }

  /** After an equal element at i has joined the left end. */
  ghost predicate LeftPlaced(v: seq<Elem>, l: int, r: int, p: int, q: int, i: int, j: int, pv: Elem, cmp: Comparison)
  {
    && 0 <= l < r < |v| && l - 1 <= p <= i < j < q <= r && l <= i
    && AllEq(v, l, p + 1, pv, cmp) && AllLt(v, p + 1, i + 1, pv, cmp)
    && AllGt(v, j + 1, q, pv, cmp) && AllEq(v, q, r + 1, pv, cmp) && cmp(v[j], pv) >= 0
  }

  lemma CrossExchange(v: seq<Elem>, l: int, r: int, p: int, q: int, i: int, j: int, pv: Elem, cmp: Comparison)
    requires Stopped(v, l, r, p, q, i, j, pv, cmp) && i < j
    ensures Crossed(Swap(v, i, j), l, r, p, q, i, j, pv, cmp)
  {
  }

  lemma LeftExchange(v: seq<Elem>, l: int, r: int, p: int, q: int, i: int, j: int, pv: Elem, cmp: Comparison)
    requires Crossed(v, l, r, p, q, i, j, pv, cmp) && cmp(v[i], pv) == 0
    ensures LeftPlaced(Swap(v, p + 1, i), l, r, p + 1, q, i, j, pv, cmp)
  {
  }

  lemma RightExchange(v: seq<Elem>, l: int, r: int, p: int, q: int, i: int, j: int, pv: Elem, cmp: Comparison)
    requires LeftPlaced(v, l, r, p, q, i, j, pv, cmp) && cmp(v[j], pv) == 0
    ensures Scanning(Swap(v, j, q - 1), l, r, p, q - 1, i, j, pv, cmp)
  {
  }

  /** The end p of the equal elements on the left, and the elements, after looking at i. */
  function LeftEnd(v: seq<Elem>, p: int, i: nat, pv: Elem, cmp: Comparison): int
    requires i < |v|
  {
    if cmp(v[i], pv) == 0 then p + 1 else p
  }

  function LeftDone(v: seq<Elem>, p: int, i: nat, pv: Elem, cmp: Comparison): (w: seq<Elem>)
    requires -1 <= p < i < |v|
    ensures |w| == |v|
  {
    if cmp(v[i], pv) == 0 then Swap(v, p + 1, i) else v
  }

  /** The same on the right, after looking at j. */
  function RightEnd(v: seq<Elem>, q: int, j: nat, pv: Elem, cmp: Comparison): int
    requires j < |v|
  {
    if cmp(pv, v[j]) == 0 then q - 1 else q
  }

  function RightDone(v: seq<Elem>, q: int, j: nat, pv: Elem, cmp: Comparison): (w: seq<Elem>)
    requires j < q <= |v|
    ensures |w| == |v|
  {
    if cmp(pv, v[j]) == 0 then Swap(v, j, q - 1) else v
  }

  lemma LeftRound(u: seq<Elem>, v: seq<Elem>, l: int, r: int, p: int, q: int, i: int, j: int, pv: Elem, cmp: Comparison)
    requires Stopped(v, l, r, p, q, i, j, pv, cmp) && i < j && Rearranged(u, v, l, r + 1)
    ensures var v1 := Swap(v, i, j); var w := LeftDone(v1, p, i, pv, cmp);
            LeftPlaced(w, l, r, LeftEnd(v1, p, i, pv, cmp), q, i, j, pv, cmp) && w[r] == v[r]
            && Rearranged(u, w, l, r + 1)
  {
    var v1 := Swap(v, i, j);
    CrossExchange(v, l, r, p, q, i, j, pv, cmp);
    SwapMore(u, v, l, r + 1, i, j);
    if cmp(v1[i], pv) == 0 {
      LeftExchange(v1, l, r, p, q, i, j, pv, cmp);
      SwapMore(u, v1, l, r + 1, p + 1, i);
    }
  }

  lemma RightRound(u: seq<Elem>, v: seq<Elem>, l: int, r: int, p: int, q: int, i: int, j: int, pv: Elem, cmp: Comparison)
    requires Flips(cmp) && LeftPlaced(v, l, r, p, q, i, j, pv, cmp) && Rearranged(u, v, l, r + 1)
    ensures var w := RightDone(v, q, j, pv, cmp);
            Scanning(w, l, r, p, RightEnd(v, q, j, pv, cmp), i, j, pv, cmp) && w[r] == v[r]
            && Rearranged(u, w, l, r + 1)
  {
    if cmp(pv, v[j]) == 0 {
      RightExchange(v, l, r, p, q, i, j, pv, cmp);
      SwapMore(u, v, l, r + 1, j, q - 1);
    }
  }

  // ----- putting the pivot and the equal elements into the middle -----

  /** After the pivot has been exchanged to i, where the scans have met. */
  ghost predicate Centred(v: seq<Elem>, l: int, r: int, p: int, q: int, i: int, pv: Elem, cmp: Comparison)
  {
    && 0 <= l < r < |v| && l - 1 <= p < i <= q <= r
    && AllEq(v, l, p + 1, pv, cmp) && AllLt(v, p + 1, i, pv, cmp) && cmp(v[i], pv) == 0
    && AllGt(v, i + 1, q, pv, cmp) && AllEq(v, q, r, pv, cmp) && cmp(v[r], pv) >= 0
  }

  lemma PivotCentred(v: seq<Elem>, l: int, r: int, p: int, q: int, i: int, j: int, pv: Elem, cmp: Comparison)
    requires Flips(cmp) && Stopped(v, l, r, p, q, i, j, pv, cmp) && i >= j && v[r] == pv
    ensures Centred(Swap(v, i, r), l, r, p, q, i, pv, cmp)
  {
    assert cmp(pv, pv) == 0;
  }

  /**
   The loop that swaps the equal elements [l..p) from the left end to the middle, at k and
   j == i-1-(k-l).  It never moves the one at p, and k may run past j; the fourth line is
   what makes the swaps after that harmless.
   */
  ghost predicate LeftBack(v: seq<Elem>, l: int, p: int, i: int, k: int, j: int, pv: Elem, cmp: Comparison)
  {
    && 0 <= l <= k && l - 1 <= p < i <= |v| && (k == l || k <= p) && j == i - 1 - (k - l)
    && AllLe(v, l, i, pv, cmp) && AllEq(v, j + 1, i, pv, cmp)
    && AllEq(v, k, p + 1, pv, cmp)
    && AllEq(v, l + (i - 1 - p), p + 1, pv, cmp)
  }

  lemma LeftBackStep(v: seq<Elem>, l: int, p: int, i: int, k: int, j: int, pv: Elem, cmp: Comparison)
    requires LeftBack(v, l, p, i, k, j, pv, cmp) && k < p
    ensures l < j < i && LeftBack(Swap(v, k, j), l, p, i, k + 1, j - 1, pv, cmp)
  {
    var w := Swap(v, k, j);
    assert cmp(v[k], pv) == 0;
    if k >= l + (i - 1 - p) {
      assert l + (i - 1 - p) <= j <= p;
      assert cmp(v[j], pv) == 0;
    }
  }

  /** The mirror image on the right: [q+1..r-1] goes to the middle, from i on. */
  ghost predicate RightBack(v: seq<Elem>, r: int, q: int, i: int, k: int, i': int, pv: Elem, cmp: Comparison)
  {
    && 0 <= i <= q <= r < |v| && k <= r - 1 && (k == r - 1 || q <= k) && i' == i + 1 + (r - 1 - k)
    && AllGe(v, i + 1, r + 1, pv, cmp) && AllEq(v, i + 1, i', pv, cmp)
    && AllEq(v, q, k + 1, pv, cmp)
    && AllEq(v, q, (if q == i then r else r - (q - i - 1)), pv, cmp)
  }

  lemma RightBackStep(v: seq<Elem>, r: int, q: int, i: int, k: int, i': int, pv: Elem, cmp: Comparison)
    requires RightBack(v, r, q, i, k, i', pv, cmp) && k > q
    ensures i < i' < r && RightBack(Swap(v, i', k), r, q, i, k - 1, i' + 1, pv, cmp)
  {
    var w := Swap(v, i', k);
    assert cmp(v[k], pv) == 0;
    if k < (if q == i then r else r - (q - i - 1)) {
      assert q <= i';
      assert cmp(v[i'], pv) == 0;
    }
  }

  // ----- bytes seen as elements -----

  /** Element i of a byte sequence, if it lies inside. */
  function ElemAt(s: seq<Byte>, size: nat, i: nat): Elem
  {
    var at := i * size;
    if 0 <= at && at + size <= |s| then s[at..at + size] else []
  }

  /** The first n elements. */
  function Elems(s: seq<Byte>, size: nat, n: nat): (v: seq<Elem>)
    ensures |v| == n
  {
    if n == 0 then [] else Elems(s, size, n - 1) + [ElemAt(s, size, n - 1)]
  }

  lemma {:induction false} ElemsIndex(s: seq<Byte>, size: nat, n: nat, i: nat)
    requires i < n
    ensures Elems(s, size, n)[i] == ElemAt(s, size, i)
  {
    if i < n - 1 {
      ElemsIndex(s, size, n - 1, i);
    }
  }

  ghost function View(a: array<Byte>, size: nat, n: nat): (v: seq<Elem>)
    reads a
    ensures |v| == n
  {
    Elems(a[..], size, n)
  }

  lemma ElemInside(size: nat, n: nat, i: nat)
    requires i < n
    ensures 0 <= i * size && i * size + size <= n * size
  {
    MulMono(i + 1, n, size);
    MulMono(0, i, size);
  }

  /** Different elements do not overlap. */
  lemma ElemsApart(size: nat, i: nat, j: nat)
    ensures i < j ==> i * size + size <= j * size
    ensures j < i ==> j * size + size <= i * size
  {
    if i < j { MulMono(i + 1, j, size); }
    if j < i { MulMono(j + 1, i, size); }
  }

  /** Byte k after the first d bytes of the elements at x and y have been exchanged. */
  function ExchangedByte(s: seq<Byte>, x: nat, y: nat, d: nat, k: nat): Byte
    requires k < |s| && x + d <= |s| && y + d <= |s|
  {
    if x <= k < x + d then s[y + (k - x)] else if y <= k < y + d then s[x + (k - y)] else s[k]
  }

  lemma BytesToElems(s: seq<Byte>, t: seq<Byte>, size: nat, n: nat, x: nat, y: nat, atX: nat, atY: nat)
    requires |s| == |t| && n * size <= |s| && x < n && y < n && atX == x * size && atY == y * size
    requires atX + size <= |s| && atY + size <= |s|
    requires forall k :: 0 <= k < |t| ==> t[k] == ExchangedByte(s, atX, atY, size, k)
    ensures Elems(t, size, n) == Swap(Elems(s, size, n), x, y)
  {
    var v, w := Elems(s, size, n), Elems(t, size, n);
    forall i | 0 <= i < n
      ensures w[i] == Swap(v, x, y)[i]
    {
      ElemSwapped(s, t, size, n, x, y, atX, atY, i);
      ElemsIndex(t, size, n, i);
      ElemsIndex(s, size, n, if i == x then y else if i == y then x else i);
    }
  }

  lemma ElemSwapped(s: seq<Byte>, t: seq<Byte>, size: nat, n: nat, x: nat, y: nat, atX: nat, atY: nat, i: nat)
    requires |s| == |t| && n * size <= |s| && x < n && y < n && atX == x * size && atY == y * size
    requires atX + size <= |s| && atY + size <= |s|
    requires forall k :: 0 <= k < |t| ==> t[k] == ExchangedByte(s, atX, atY, size, k)
    requires i < n
    ensures ElemAt(t, size, i) == ElemAt(s, size, if i == x then y else if i == y then x else i)
  {
    var at := i * size;
    ElemInside(size, n, i);
    ElemsApart(size, x, y);
    ElemsApart(size, i, x);
    ElemsApart(size, i, y);
    ElemMoved(s, t, size, atX, atY, at);
  }

  /** The elements at x and y have changed places; one that overlaps neither has not moved. */
  lemma ElemMoved(s: seq<Byte>, t: seq<Byte>, size: nat, x: nat, y: nat, at: nat)
    requires |s| == |t| && x + size <= |s| && y + size <= |s| && at + size <= |s|
    requires x == y || x + size <= y || y + size <= x
    requires forall k :: 0 <= k < |t| ==> t[k] == ExchangedByte(s, x, y, size, k)
    ensures t[x..x + size] == s[y..y + size] && t[y..y + size] == s[x..x + size]
    ensures (at + size <= x || x + size <= at) && (at + size <= y || y + size <= at) ==>
            t[at..at + size] == s[at..at + size]
  {
  }

  /** exch: swaps two elements byte by byte. */
  method Exch(a: array<Byte>, size0: nat, ghost n: nat, x: nat, y: nat)
    requires n * size0 == a.Length && x < n && y < n
    modifies a
    ensures View(a, size0, n) == Swap(old(View(a, size0, n)), x, y)
  {
    ElemInside(size0, n, x);
    ElemInside(size0, n, y);
    ElemsApart(size0, x, y);
    var p, q := x * size0, y * size0;
    ghost var was := a[..];
    SwapBytes(a, p, q, size0);
    BytesToElems(was, a[..], size0, n, x, y, p, q);
  }

  method SwapBytes(a: array<Byte>, x0: nat, y0: nat, size0: nat)
    requires x0 + size0 <= a.Length && y0 + size0 <= a.Length
    requires x0 == y0 || x0 + size0 <= y0 || y0 + size0 <= x0
    modifies a
    ensures forall k :: 0 <= k < a.Length ==> a[k] == ExchangedByte(old(a[..]), x0, y0, size0, k)
  {
    var x, y, size := x0, y0, size0;
    ghost var was := a[..];
    while size != 0
      invariant 0 <= size <= size0 && x == x0 + (size0 - size) && y == y0 + (size0 - size)
      invariant forall k :: 0 <= k < a.Length ==> a[k] == ExchangedByte(was, x0, y0, size0 - size, k)
      decreases size
    {
      var z := a[x];
      a[x] := a[y];
      a[y] := z;
      size, x, y := size - 1, x + 1, y + 1;
    }
  }

  // ----- quicksort -----

  /** A call of compar on the elements at i and j. */
  method Compare(a: array<Byte>, size: nat, ghost n: nat, i: nat, j: nat, cmp: Comparison) returns (c: int)
    requires n * size == a.Length && i < n && j < n
    ensures c == cmp(View(a, size, n)[i], View(a, size, n)[j])
  {
    ElemInside(size, n, i);
    ElemInside(size, n, j);
    var p, q := i * size, j * size;
    ElemsIndex(a[..], size, n, i);
    ElemsIndex(a[..], size, n, j);
    c := cmp(a[p..p + size], a[q..q + size]);
  }

  /** The first inner loop: i goes up past everything less than the pivot. */
  method ScanUp(a: array<Byte>, size: nat, ghost n: nat, r: nat, ghost p: int, ghost q: int, i0: int, cmp: Comparison)
    returns (i: int)
    requires n * size == a.Length && -1 <= p <= i0 < q <= r < n
    requires var v := View(a, size, n);
             AllLt(v, p + 1, i0 + 1, v[r], cmp) && cmp(v[q], v[r]) == 0 && cmp(v[r], v[r]) == 0
    ensures i0 < i <= q
    ensures var v := View(a, size, n); AllLt(v, p + 1, i, v[r], cmp) && cmp(v[i], v[r]) >= 0
  {
    ghost var v := View(a, size, n);
    i := i0 + 1;
    var c := 0;
    if i != r { c := Compare(a, size, n, i, r, cmp); }
    while i != r && c < 0
      invariant i0 < i <= q && AllLt(v, p + 1, i, v[r], cmp)
      invariant i != r ==> c == cmp(v[i], v[r])
      decreases r - i
    {
      i := i + 1;
      if i != r { c := Compare(a, size, n, i, r, cmp); }
    }
  }

  /** The second inner loop: j goes down past everything greater than the pivot, but not below l. */
  method ScanDown(a: array<Byte>, size: nat, ghost n: nat, l: nat, r: nat, ghost q: int, j0: int, cmp: Comparison)
    returns (j: int)
    requires n * size == a.Length && l < j0 <= q <= r < n && Flips(cmp)
    requires var v := View(a, size, n); AllGt(v, j0, q, v[r], cmp)
    ensures l <= j < j0
    ensures var v := View(a, size, n); AllGt(v, j + 1, q, v[r], cmp) && (cmp(v[j], v[r]) <= 0 || j == l)
  {
    ghost var v := View(a, size, n);
    j := j0 - 1;
    var c := Compare(a, size, n, r, j, cmp);
    while c < 0
      invariant l <= j < j0 && AllGt(v, j + 1, q, v[r], cmp)
      invariant c == cmp(v[r], v[j])
      decreases j
    {
      if j == l { break; }
      j := j - 1;
      c := Compare(a, size, n, r, j, cmp);
    }
  }

  /** The exchange of i and j, and of i with the left end if it holds an equal element. */
  method ExchangeLeft(a: array<Byte>, size: nat, ghost n: nat, r: nat, p0: int, i: int, j: int, cmp: Comparison)
    returns (p: int)
    requires n * size == a.Length && -1 <= p0 < i < j < r < n
    modifies a
    ensures var v1 := Swap(old(View(a, size, n)), i, j); var pv := old(View(a, size, n))[r];
            View(a, size, n) == LeftDone(v1, p0, i, pv, cmp) && p == LeftEnd(v1, p0, i, pv, cmp)
  {
    p := p0;
    Exch(a, size, n, i, j);
    var c := Compare(a, size, n, i, r, cmp);
    if c == 0 {
      p := p + 1;
      Exch(a, size, n, p, i);
    }
  }

  /** The exchange of j with the right end if it holds an equal element. */
  method ExchangeRight(a: array<Byte>, size: nat, ghost n: nat, r: nat, q0: int, j: int, cmp: Comparison)
    returns (q: int)
    requires n * size == a.Length && 0 <= j < q0 <= r < n
    modifies a
    ensures var v := old(View(a, size, n));
            View(a, size, n) == RightDone(v, q0, j, v[r], cmp) && q == RightEnd(v, q0, j, v[r], cmp)
  {
    q := q0;
    var c := Compare(a, size, n, r, j, cmp);
    if c == 0 {
      q := q - 1;
      Exch(a, size, n, j, q);
    }
  }

  /** The for (;;) loop, up to where the scans have met. */
  method Scan(a: array<Byte>, size: nat, ghost n: nat, l: nat, r: nat, cmp: Comparison)
    returns (p: int, q: int, i: int, ghost j: int)
    requires Flips(cmp) && n * size == a.Length && l < r < n
    modifies a
    ensures i >= j && Stopped(View(a, size, n), l, r, p, q, i, j, old(View(a, size, n))[r], cmp)
    ensures View(a, size, n)[r] == old(View(a, size, n))[r]
    ensures Rearranged(old(View(a, size, n)), View(a, size, n), l, r + 1)
  {
    ghost var was := View(a, size, n);
    ghost var pv := was[r];
    assert cmp(pv, pv) == 0;
    RearrangedSame(was, l, r + 1);
    var jj := r;
    i, p, q := l - 1, l - 1, r;
    while true
      invariant Scanning(View(a, size, n), l, r, p, q, i, jj, pv, cmp)
      invariant View(a, size, n)[r] == pv && Rearranged(was, View(a, size, n), l, r + 1)
      decreases jj - i
    {
      i := ScanUp(a, size, n, r, p, q, i, cmp);
      jj := ScanDown(a, size, n, l, r, q, jj, cmp);
      if i >= jj { j := jj; return; }
      LeftRound(was, View(a, size, n), l, r, p, q, i, jj, pv, cmp);
      p := ExchangeLeft(a, size, n, r, p, i, jj, cmp);
      RightRound(was, View(a, size, n), l, r, p, q, i, jj, pv, cmp);
      q := ExchangeRight(a, size, n, r, q, jj, cmp);
    }
  }

  /** for (k=l; k<p; k++, j--) exch(k,j) */
  method SwapBackLeft(a: array<Byte>, size: nat, ghost n: nat, l: nat, p: int, i: int, ghost pv: Elem, cmp: Comparison)
    returns (j: int)
    requires n * size == a.Length && LeftBack(View(a, size, n), l, p, i, l, i - 1, pv, cmp)
    modifies a
    ensures l - 1 <= j < i
    ensures var v := View(a, size, n); AllLe(v, l, j + 1, pv, cmp) && AllEq(v, j + 1, i, pv, cmp)
    ensures Rearranged(old(View(a, size, n)), View(a, size, n), l, i)
  {
    ghost var was := View(a, size, n);
    RearrangedSame(was, l, i);
    j := i - 1;
    var k: int := l;
    while k < p
      invariant LeftBack(View(a, size, n), l, p, i, k, j, pv, cmp)
      invariant Rearranged(was, View(a, size, n), l, i)
      decreases p - k
    {
      ghost var v := View(a, size, n);
      LeftBackStep(v, l, p, i, k, j, pv, cmp);
      SwapMore(was, v, l, i, k, j);
      Exch(a, size, n, k, j);
      k, j := k + 1, j - 1;
    }
  }

  /** for (k=r-1; k>q; k--, i++) exch(i,k) */
  method SwapBackRight(a: array<Byte>, size: nat, ghost n: nat, r: nat, q: int, i0: int, ghost pv: Elem, cmp: Comparison)
    returns (i: int)
    requires n * size == a.Length && RightBack(View(a, size, n), r, q, i0, r - 1, i0 + 1, pv, cmp)
    modifies a
    ensures i0 < i <= r + 1
    ensures var v := View(a, size, n); AllEq(v, i0 + 1, i, pv, cmp) && AllGe(v, i, r + 1, pv, cmp)
    ensures Rearranged(old(View(a, size, n)), View(a, size, n), i0 + 1, r + 1)
  {
    ghost var was := View(a, size, n);
    RearrangedSame(was, i0 + 1, r + 1);
    i := i0 + 1;
    var k: int := r - 1;
    while k > q
      invariant RightBack(View(a, size, n), r, q, i0, k, i, pv, cmp)
      invariant Rearranged(was, View(a, size, n), i0 + 1, r + 1)
      decreases k
    {
      ghost var v := View(a, size, n);
      RightBackStep(v, r, q, i0, k, i, pv, cmp);
      SwapMore(was, v, i0 + 1, r + 1, i, k);
      Exch(a, size, n, i, k);
      k, i := k - 1, i + 1;
    }
  }

  /** What the partition phase leaves behind: both parts to recurse into are shorter. */
  ghost predicate Partitioned(v: seq<Elem>, l: int, r: int, j: int, i: int, pv: Elem, cmp: Comparison)
  {
    && 0 <= l <= j + 1 < i <= r + 1 <= |v|
    && AllLe(v, l, j + 1, pv, cmp) && AllEq(v, j + 1, i, pv, cmp) && AllGe(v, i, r + 1, pv, cmp)
  }

  lemma CentredBack(v: seq<Elem>, l: int, r: int, p: int, q: int, i: int, pv: Elem, cmp: Comparison)
    requires Centred(v, l, r, p, q, i, pv, cmp)
    ensures LeftBack(v, l, p, i, l, i - 1, pv, cmp) && RightBack(v, r, q, i, r - 1, i + 1, pv, cmp)
  {
    forall k | i + 1 <= k < r + 1
      ensures cmp(v[k], pv) >= 0
    {
      if k < q {
        assert cmp(v[k], pv) > 0;
      } else if k < r {
        assert cmp(v[k], pv) == 0;
      }
    }
    forall k | l <= k < i
      ensures cmp(v[k], pv) <= 0
    {
      if k <= p {
        assert cmp(v[k], pv) == 0;
      } else {
        assert cmp(v[k], pv) < 0;
      }
    }
  }

  /** Moves on the left of i do not disturb what is at i and to its right. */
  lemma RightUndisturbed(v: seq<Elem>, w: seq<Elem>, l: int, r: int, q: int, i: int, pv: Elem, cmp: Comparison)
    requires RightBack(v, r, q, i, r - 1, i + 1, pv, cmp) && cmp(v[i], pv) == 0 && Rearranged(v, w, l, i)
    ensures RightBack(w, r, q, i, r - 1, i + 1, pv, cmp) && cmp(w[i], pv) == 0
  {
    RearrangedPermutes(v, w, l, i);
  }

  lemma LeftUndisturbed(v: seq<Elem>, w: seq<Elem>, l: int, r: int, j: int, i0: int, i: int, pv: Elem, cmp: Comparison)
    requires 0 <= l <= j + 1 <= i0 < i <= r + 1 <= |v| && Rearranged(v, w, i0 + 1, r + 1)
    requires AllLe(v, l, j + 1, pv, cmp) && AllEq(v, j + 1, i0, pv, cmp) && cmp(v[i0], pv) == 0
    requires AllEq(w, i0 + 1, i, pv, cmp) && AllGe(w, i, r + 1, pv, cmp)
    ensures Partitioned(w, l, r, j, i, pv, cmp)
  {
    RearrangedPermutes(v, w, i0 + 1, r + 1);
  }

  /** The whole partition phase, for whatever rand() returns. */
  method Partition(a: array<Byte>, size: nat, ghost n: nat, l: nat, r: nat, cmp: Comparison)
    returns (j: int, i: int, ghost pv: Elem)
    requires Flips(cmp) && n * size == a.Length && l < r < n
    modifies a
    ensures Partitioned(View(a, size, n), l, r, j, i, pv, cmp)
    ensures Rearranged(old(View(a, size, n)), View(a, size, n), l, r + 1)
  {
    ghost var was := View(a, size, n);
    var rand: nat := *;
    var pick := l + rand % (r - l);
    RearrangedSame(was, l, r + 1);
    SwapMore(was, was, l, r + 1, pick, r);
    Exch(a, size, n, pick, r);
    ghost var v1 := View(a, size, n);
    pv := v1[r];
    var p, q, i0;
    ghost var j0;
    p, q, i0, j0 := Scan(a, size, n, l, r, cmp);
    ghost var v2 := View(a, size, n);
    RearrangedTrans(was, v1, v2, l, r + 1);
    PivotCentred(v2, l, r, p, q, i0, j0, pv, cmp);
    SwapMore(was, v2, l, r + 1, i0, r);
    Exch(a, size, n, i0, r);
    ghost var v3 := View(a, size, n);
    j, i := SwapBack(a, size, n, l, r, p, q, i0, pv, cmp);
    RearrangedTrans(was, v3, View(a, size, n), l, r + 1);
  }

  /** Both loops that move the equal elements from the ends to the middle. */
  method SwapBack(a: array<Byte>, size: nat, ghost n: nat, l: nat, r: nat, p: int, q: int, i0: int, ghost pv: Elem,
                  cmp: Comparison) returns (j: int, i: int)
    requires n * size == a.Length && Centred(View(a, size, n), l, r, p, q, i0, pv, cmp)
    modifies a
    ensures Partitioned(View(a, size, n), l, r, j, i, pv, cmp)
    ensures Rearranged(old(View(a, size, n)), View(a, size, n), l, r + 1)
  {
    ghost var v3 := View(a, size, n);
    CentredBack(v3, l, r, p, q, i0, pv, cmp);
    j := SwapBackLeft(a, size, n, l, p, i0, pv, cmp);
    ghost var v4 := View(a, size, n);
    RightUndisturbed(v3, v4, l, r, q, i0, pv, cmp);
    i := SwapBackRight(a, size, n, r, q, i0, pv, cmp);
    ghost var v5 := View(a, size, n);
    LeftUndisturbed(v4, v5, l, r, j, i0, i, pv, cmp);
    RearrangedWiden(v3, v4, l, i0, l, r + 1);
    RearrangedWiden(v4, v5, i0 + 1, r + 1, l, r + 1);
    RearrangedTrans(v3, v4, v5, l, r + 1);
  }

  /** Sorting the two parts of a partition sorts the range. */
  lemma PartsSorted(v1: seq<Elem>, v2: seq<Elem>, v3: seq<Elem>, l: int, r: int, j: int, i: int, pv: Elem, cmp: Comparison)
    requires TotalPreorder(cmp) && Partitioned(v1, l, r, j, i, pv, cmp)
    requires Rearranged(v1, v2, l, j + 1) && Sorted(v2, l, j + 1, cmp)
    requires Rearranged(v2, v3, i, r + 1) && Sorted(v3, i, r + 1, cmp)
    ensures Sorted(v3, l, r + 1, cmp)
  {
    PartsOrdered(v1, v2, v3, l, r, j, i, pv, cmp);
    SortedParts(v3, l, j, i, r, pv, cmp);
  }

  lemma PartsOrdered(v1: seq<Elem>, v2: seq<Elem>, v3: seq<Elem>, l: int, r: int, j: int, i: int, pv: Elem, cmp: Comparison)
    requires Partitioned(v1, l, r, j, i, pv, cmp)
    requires Rearranged(v1, v2, l, j + 1) && Sorted(v2, l, j + 1, cmp)
    requires Rearranged(v2, v3, i, r + 1)
    ensures Partitioned(v3, l, r, j, i, pv, cmp) && Sorted(v3, l, j + 1, cmp)
  {
    RearrangedPermutes(v1, v2, l, j + 1);
    RearrangedPermutes(v2, v3, i, r + 1);
    RearrangedKeepsLe(v1, v2, l, j + 1, pv, cmp);
    RearrangedKeepsGe(v2, v3, i, r + 1, pv, cmp);
  }

  method Quicksort(a: array<Byte>, size: nat, ghost n: nat, l: nat, r: int, cmp: Comparison)
    requires TotalPreorder(cmp) && n * size == a.Length && l <= n && r < n
    modifies a
    ensures Sorted(View(a, size, n), l, r + 1, cmp)
    ensures Rearranged(old(View(a, size, n)), View(a, size, n), l, r + 1)
    decreases if r < l then 0 else r - l + 1
  {
    ghost var was := View(a, size, n);
    if r <= l {
      RearrangedSame(was, l, r + 1);
      return;
    }
    var j, i;
    ghost var pv;
    j, i, pv := Partition(a, size, n, l, r, cmp);
    ghost var v1 := View(a, size, n);
    Quicksort(a, size, n, l, j, cmp);
    ghost var v2 := View(a, size, n);
    Quicksort(a, size, n, i, r, cmp);
    ghost var v3 := View(a, size, n);
    PartsSorted(v1, v2, v3, l, r, j, i, pv, cmp);
    RearrangedWiden(v1, v2, l, j + 1, l, r + 1);
    RearrangedWiden(v2, v3, i, r + 1, l, r + 1);
    RearrangedTrans(was, v1, v2, l, r + 1);
    RearrangedTrans(was, v2, v3, l, r + 1);
  }

  const HALF_SIZE_MAX: int := 0x7FFF_FFFF_FFFF_FFFF

  /** The array is sorted, and holds the elements it held before. */
  method QSort(a: array<Byte>, nmemb: nat, size: nat, cmp: Comparison)
    requires TotalPreorder(cmp) && nmemb * size == a.Length
    modifies a
    ensures nmemb < 0x7FFF_FFFF_FFFF_FFFF && size < 0x7FFF_FFFF_FFFF_FFFF ==>
              Sorted(View(a, size, nmemb), 0, nmemb, cmp)
              && multiset(View(a, size, nmemb)) == multiset(old(View(a, size, nmemb)))
    ensures nmemb >= 0x7FFF_FFFF_FFFF_FFFF || size >= 0x7FFF_FFFF_FFFF_FFFF ==> a[..] == old(a[..])
  {
    if nmemb >= HALF_SIZE_MAX || size >= HALF_SIZE_MAX { return; }
    if nmemb > 1 {
      Quicksort(a, size, nmemb, 0, nmemb - 1, cmp);
      RearrangedPermutes(old(View(a, size, nmemb)), View(a, size, nmemb), 0, nmemb);
    }
  }

  // ----- bsearch -----

  /** The elements before the ones that match the key, those that match, and those after are in this order. */
  ghost predicate Ordered<K>(v: seq<Elem>, key: K, probe: (K, Elem) -> int)
  {
    && (forall i, j :: 0 <= i < j < |v| && probe(key, v[i]) < 0 ==> probe(key, v[j]) < 0)
    && (forall i, j :: 0 <= i < j < |v| && probe(key, v[j]) > 0 ==> probe(key, v[i]) > 0)
  }

  /** The index is that of an element that matches, and in an ordered array none is missed. */
  method BSearch<K>(key: K, a: array<Byte>, nmemb0: nat, size: nat, probe: (K, Elem) -> int)
    returns (found: bool, p: nat, ghost at: nat)
    requires nmemb0 * size == a.Length
    ensures found ==> at < nmemb0 && p == at * size && probe(key, View(a, size, nmemb0)[at]) == 0
    ensures Ordered(View(a, size, nmemb0), key, probe) ==>
              (found <==> exists i :: 0 <= i < nmemb0 && probe(key, View(a, size, nmemb0)[i]) == 0)
  {
    ghost var v := View(a, size, nmemb0);
    var base, nmemb := 0, nmemb0;
    at := 0;
    while nmemb != 0
      invariant 0 <= nmemb && at + nmemb <= nmemb0 && base == at * size
      invariant Ordered(v, key, probe) ==> forall i :: 0 <= i < at ==> probe(key, v[i]) > 0
      invariant Ordered(v, key, probe) ==> forall i :: at + nmemb <= i < nmemb0 ==> probe(key, v[i]) < 0
      decreases nmemb
    {
      var m := nmemb / 2;
      var tmp;
      p, tmp := ProbeAt(key, a, nmemb0, size, base, at, m, probe);
      if tmp < 0 {
        nmemb := m;
      } else if tmp > 0 {
        base := p + size;
        nmemb := nmemb - (m + 1);
        at := at + m + 1;
      } else {
        at := at + m;
        return true, p, at;
      }
    }
    return false, 0, at;
  }

  /** A call of compar on the element m places after base. */
  method ProbeAt<K>(key: K, a: array<Byte>, ghost n: nat, size: nat, base: nat, ghost at: nat, m: nat,
                    probe: (K, Elem) -> int) returns (p: nat, c: int)
    requires n * size == a.Length && at + m < n && base == at * size
    ensures p == (at + m) * size && p + size == (at + m + 1) * size
    ensures c == probe(key, View(a, size, n)[at + m])
  {
    NextElem(size, n, at, m);
    p := base + m * size;
    ElemsIndex(a[..], size, n, at + m);
    c := probe(key, a[p..p + size]);
  }

  lemma NextElem(size: nat, n: nat, at: nat, m: nat)
    requires at + m < n
    ensures 0 <= m * size && 0 <= at * size && (at + m) * size == at * size + m * size
    ensures (at + m) * size + size <= n * size && (at + m + 1) * size == (at + m) * size + size
  {
    MulMono(at + m + 1, n, size);
    MulMono(0, m, size);
    MulMono(0, at, size);
  }

  /** An array sorted by cmp is ordered for every key that is compared by cmp. */
  lemma SortedIsOrdered(v: seq<Elem>, key: Elem, cmp: Comparison)
    requires TotalPreorder(cmp) && Sorted(v, 0, |v|, cmp)
    ensures Ordered(v, key, cmp)
  {
    forall i, j | 0 <= i < j < |v|
      ensures cmp(key, v[i]) < 0 ==> cmp(key, v[j]) < 0
      ensures cmp(key, v[j]) > 0 ==> cmp(key, v[i]) > 0
    {
      assert cmp(v[i], v[j]) <= 0;
      assert cmp(key, v[j]) > 0 <==> cmp(v[j], key) < 0;
      assert cmp(key, v[i]) > 0 <==> cmp(v[i], key) < 0;
      assert cmp(v[j], key) <= 0 ==> cmp(v[i], key) <= 0;
      assert cmp(key, v[i]) <= 0 ==> cmp(key, v[j]) <= 0;
    }
  }

  /** Sorting and then searching finds a match exactly if there was one before. */
  method SortThenSearch(a: array<Byte>, nmemb: nat, size: nat, key: Elem, cmp: Comparison) returns (found: bool)
    requires TotalPreorder(cmp) && nmemb * size == a.Length && nmemb < HALF_SIZE_MAX && size < HALF_SIZE_MAX
    modifies a
    ensures found <==> exists x :: x in old(View(a, size, nmemb)) && cmp(key, x) == 0
  {
    ghost var was := View(a, size, nmemb);
    QSort(a, nmemb, size, cmp);
    ghost var v := View(a, size, nmemb);
    SortedIsOrdered(v, key, cmp);
    var p;
    ghost var at;
    found, p, at := BSearch(key, a, nmemb, size, cmp);
    SameMembers(was, v);
  }

  lemma SameMembers(v: seq<Elem>, w: seq<Elem>)
    requires multiset(v) == multiset(w)
    ensures forall x :: x in v <==> x in w
  {
    forall x
      ensures x in v <==> x in w
    {
      assert x in v <==> x in multiset(v);
      assert x in w <==> x in multiset(w);
    }
  }
}
