/** The free list of umalloc.c as a value: a ring of headers in address order,
    base lowest, laid over the flat memory.  Addresses count headers (8 bytes). */
module FreeList {
  import opened Params

  const NULL: nat := 0
  const BASE: nat := 1

  datatype Header = Header(ptr: nat, size: nat)

  /** fl: the free blocks from base up; alloc: the headers handed out; own: for
      every unit got from sbrk, the block it lies in. */
  datatype H = H(mem: seq<Header>, fl: seq<nat>, alloc: set<nat>, own: map<nat, nat>)

  predicate InMem(h: H) {
    && |h.fl| > 0 && h.fl[0] == BASE
    && (forall i :: 0 <= i < |h.fl| ==> BASE <= h.fl[i] < |h.mem|)
    && (forall a :: a in h.alloc ==> BASE < a < |h.mem|)
  }

  function SizeAt(h: H, i: nat): nat
    requires InMem(h) && i < |h.fl|
  {
    h.mem[h.fl[i]].size
  }

  function Succ(i: nat, n: nat): nat {
    if i + 1 < n then i + 1 else 0
  }

  /** Steps forward from index i to index t in a ring of n. */
  function Dist(i: nat, t: nat, n: nat): nat
    requires i < n
  {
    if i <= t then t - i else n - i + t
  }

  /** One cycle in address order, blocks disjoint, and no two adjacent except
      perhaps the pairs starting at index lo up to hi. */
  ghost predicate Ring(h: H, lo: nat, hi: nat) {
    && InMem(h) && h.mem[BASE].size == 0
    && (forall i :: 0 <= i < |h.fl| ==> Links(h, i))
    && Sorted(h)
    && (forall i :: 0 <= i < |h.fl| - 1 && !(lo <= i < hi) ==> !Adjacent(h, i))
  }

  ghost predicate Sorted(h: H)
    requires InMem(h)
  {
    forall i, j :: 0 <= i < j < |h.fl| ==> h.fl[i] < h.fl[j] && h.fl[i] + SizeAt(h, i) <= h.fl[j]
  }

  predicate Links(h: H, i: nat)
    requires InMem(h) && i < |h.fl|
  {
    h.mem[h.fl[i]].ptr == h.fl[Succ(i, |h.fl|)]
  }

  predicate Adjacent(h: H, i: nat)
    requires InMem(h) && i < |h.fl| - 1
  {
    h.fl[i] + SizeAt(h, i) == h.fl[i + 1]
  }

  ghost predicate IsBlock(h: H, a: nat) {
    a in h.alloc || (a != BASE && a in h.fl)
  }

  ghost predicate Covers(h: H, a: nat)
    requires a < |h.mem|
  {
    && h.mem[a].size >= 1 && a + h.mem[a].size <= |h.mem|
    && forall u: nat :: a <= u < a + h.mem[a].size ==> u in h.own && h.own[u] == a
  }

  ghost predicate Inside(h: H, u: nat)
    requires u in h.own
  {
    && IsBlock(h, h.own[u]) && BASE < h.own[u] < |h.mem|
    && h.own[u] <= u < h.own[u] + h.mem[h.own[u]].size
  }

  /** Conservation: the units got from sbrk are partitioned into the allocated and
      the free blocks. */
  ghost predicate Partition(h: H)
    requires InMem(h)
  {
    && (forall a :: a in h.alloc ==> a !in h.fl)
    && (forall a: nat :: IsBlock(h, a) && a < |h.mem| ==> Covers(h, a))
    && (forall u :: u in h.own ==> Inside(h, u))
  }

  ghost predicate Inv(h: H, lo: nat, hi: nat)
    ensures Inv(h, lo, hi) ==> InMem(h)
  {
    Ring(h, lo, hi) && Partition(h)
  }

  /** Two different blocks share no unit. */
  lemma BlocksApart(h: H, a: nat, b: nat)
    requires InMem(h) && Partition(h) && IsBlock(h, a) && IsBlock(h, b) && a < b
    ensures b < |h.mem| && a + h.mem[a].size <= b
  {
    assert Covers(h, a) && Covers(h, b);
    assert h.own[b] == b;
  }

  ghost predicate Holds(h: H, a: nat, u: nat) {
    IsBlock(h, a) && a < |h.mem| && a <= u < a + h.mem[a].size
  }

  /** Conservation: every unit got from sbrk lies in exactly one block, free or
      allocated, and blocks hold no other units. */
  lemma UnitsConserved(h: H, u: nat)
    requires InMem(h) && Partition(h)
    ensures u in h.own <==> exists a: nat :: Holds(h, a, u)
    ensures forall a: nat, b: nat :: Holds(h, a, u) && Holds(h, b, u) ==> a == b
    ensures forall a: nat :: Holds(h, a, u) ==> !(a in h.alloc && a in h.fl)
  {
    if u in h.own {
      assert Inside(h, u);
      assert Holds(h, h.own[u], u);
    }
    forall a: nat | Holds(h, a, u) ensures u in h.own && h.own[u] == a {
      assert Covers(h, a);
    }
  }

  // ---------- free ----------

  /** The place for bp: after index t, before the next. */
  predicate Place(h: H, bp: nat, t: nat) {
    t < |h.fl| && h.fl[t] < bp && (t + 1 < |h.fl| ==> bp < h.fl[t + 1])
  }

  /** bp->ptr = p->ptr; p->ptr = bp. */
  function Linked(h: H, bp: nat, t: nat): H
    requires InMem(h) && t < |h.fl| && bp < |h.mem|
  {
    var p := h.fl[t];
    var mem := h.mem[bp := Header(h.mem[p].ptr, h.mem[bp].size)];
    H(mem[p := Header(bp, mem[p].size)], h.fl[..t + 1] + [bp] + h.fl[t + 1..], h.alloc - {bp}, h.own)
  }

  lemma LinkKeepsInv(h: H, bp: nat, t: nat)
    requires Inv(h, 0, 0) && bp in h.alloc && Place(h, bp, t)
    ensures Inv(Linked(h, bp, t), t, t + 2)
  {
    var h' := Linked(h, bp, t);
    LinkRing(h, bp, t);
    forall a: nat | IsBlock(h', a) && a < |h'.mem| ensures Covers(h', a) {
      assert IsBlock(h, a) && Covers(h, a);
    }
    forall u | u in h'.own ensures Inside(h', u) {
      assert Inside(h, u);
      LinkedHas(h, bp, t, h.own[u]);
    }
    forall a | a in h'.alloc ensures a !in h'.fl {
      LinkedHas(h, bp, t, a);
    }
  }

  lemma LinkedHas(h: H, bp: nat, t: nat, a: nat)
    requires InMem(h) && t < |h.fl| && bp < |h.mem|
    ensures a in Linked(h, bp, t).fl <==> a == bp || a in h.fl
  {
    var fl := h.fl[..t + 1] + [bp] + h.fl[t + 1..];
    assert fl[t + 1] == bp;
    if a in h.fl {
      var i :| 0 <= i < |h.fl| && h.fl[i] == a;
      assert fl[if i <= t then i else i + 1] == a;
    }
  }

  /** The blocks up to t end at or before bp, those after t start at or after its end. */
  lemma LinkSplit(h: H, bp: nat, t: nat)
    requires Inv(h, 0, 0) && bp in h.alloc && Place(h, bp, t)
    ensures forall i: nat :: i < |h.fl| ==>
              if i <= t then h.fl[i] < bp && h.fl[i] + SizeAt(h, i) <= bp else bp + h.mem[bp].size <= h.fl[i]
  {
    hide Links, Adjacent, Covers, Inside;
    forall i: nat | i < |h.fl|
        ensures if i <= t then h.fl[i] < bp && h.fl[i] + SizeAt(h, i) <= bp else bp + h.mem[bp].size <= h.fl[i] {
      Distinct(h, i, t);
      if i > t {
        Distinct(h, i, t + 1);
        BlocksApart(h, bp, h.fl[i]);
      } else if i > 0 {
        BlocksApart(h, h.fl[i], bp);
      }
    }
  }

  lemma LinkedAt(h: H, bp: nat, t: nat, i: nat)
    requires InMem(h) && t < |h.fl| && bp < |h.mem| && InMem(Linked(h, bp, t)) && i <= |h.fl|
    ensures Linked(h, bp, t).fl[i] == (if i <= t then h.fl[i] else if i == t + 1 then bp else h.fl[i - 1])
    ensures SizeAt(Linked(h, bp, t), i) ==
            (if i <= t then SizeAt(h, i) else if i == t + 1 then h.mem[bp].size else SizeAt(h, i - 1))
  {
  }

  lemma LinkSorted(h: H, bp: nat, t: nat)
    requires Inv(h, 0, 0) && bp in h.alloc && Place(h, bp, t) && h.mem[bp].size >= 1
    ensures InMem(Linked(h, bp, t)) && Sorted(Linked(h, bp, t))
  {
    hide Links, Adjacent, Partition, Linked;
    LinkSplit(h, bp, t);
    var h' := Linked(h, bp, t);
    assert InMem(h') && |h'.fl| == |h.fl| + 1 by { LinkedInMem(h, bp, t); }
    forall i, j | 0 <= i < j < |h'.fl| ensures h'.fl[i] < h'.fl[j] && h'.fl[i] + SizeAt(h', i) <= h'.fl[j] {
      LinkedAt(h, bp, t, i);
      LinkedAt(h, bp, t, j);
    }
  }

  lemma LinkedInMem(h: H, bp: nat, t: nat)
    requires InMem(h) && t < |h.fl| && bp in h.alloc
    ensures InMem(Linked(h, bp, t)) && |Linked(h, bp, t).fl| == |h.fl| + 1
  {
  }

  lemma BlockSize(h: H, a: nat)
    requires InMem(h) && Partition(h) && IsBlock(h, a)
    ensures a < |h.mem| && h.mem[a].size >= 1 && a + h.mem[a].size <= |h.mem|
    ensures forall u: nat :: a <= u < a + h.mem[a].size ==> u in h.own && h.own[u] == a
  {
    assert Covers(h, a);
  }

  lemma LinkedPtr(h: H, bp: nat, t: nat, i: nat)
    requires InMem(h) && t < |h.fl| && bp in h.alloc && InMem(Linked(h, bp, t)) && i <= |h.fl|
    requires Sorted(h) && bp !in h.fl
    ensures var h' := Linked(h, bp, t);
            h'.mem[h'.fl[i]].ptr == if i == t then bp else if i <= t then h.mem[h.fl[i]].ptr else h.mem[h.fl[i - 1]].ptr
  {
    Distinct(h, if i <= t then i else i - 1, t);
  }

  lemma LinkRing(h: H, bp: nat, t: nat)
    requires Inv(h, 0, 0) && bp in h.alloc && Place(h, bp, t)
    ensures Ring(Linked(h, bp, t), t, t + 2)
  {
    hide Sorted, Covers, Inside, Linked;
    var h' := Linked(h, bp, t);
    var n := |h.fl|;
    assert h.mem[bp].size >= 1 by { BlockSize(h, bp); }
    LinkSorted(h, bp, t);
    LinkedInMem(h, bp, t);
    forall i: nat | i <= n ensures Links(h', i) {
      LinkedPtr(h, bp, t, i);
      LinkedAt(h, bp, t, i);
      LinkedAt(h, bp, t, Succ(i, n + 1));
      assert i <= t ==> Links(h, i);
      assert i > t ==> Links(h, i - 1);
    }
    forall i: nat | i < n && !(t <= i < t + 2) ensures !Adjacent(h', i) {
      LinkedAt(h, bp, t, i);
      LinkedAt(h, bp, t, i + 1);
      assert !Adjacent(h, if i < t then i else i - 1);
    }
    LinkedAt(h, bp, t, 0);
  }

  lemma Distinct(h: H, i: nat, j: nat)
    requires InMem(h) && Sorted(h) && i < |h.fl| && j < |h.fl|
    ensures (i < j <==> h.fl[i] < h.fl[j]) && (i == j <==> h.fl[i] == h.fl[j])
  {
  }

  /** p->size += next->size; p->ptr = next->ptr, for adjacent blocks i and i + 1. */
  function Merged(h: H, i: nat): H
    requires InMem(h) && i < |h.fl| - 1
  {
    var p, q := h.fl[i], h.fl[i + 1];
    H(h.mem[p := Header(h.mem[q].ptr, h.mem[p].size + h.mem[q].size)], h.fl[..i + 1] + h.fl[i + 2..], h.alloc,
      map u | u in h.own :: if h.own[u] == q then p else h.own[u])
  }

  lemma MergeKeepsInv(h: H, i: nat, lo: nat)
    requires Inv(h, lo, i + 1) && i < |h.fl| - 1 && Adjacent(h, i) && lo <= i
    ensures Inv(Merged(h, i), lo, i)
  {
    var h' := Merged(h, i);
    MergeRing(h, i, lo);
    forall a ensures IsBlock(h', a) <==> IsBlock(h, a) && a != h.fl[i + 1] {
      MergedHas(h, i, a);
    }
    forall a: nat | IsBlock(h', a) && a < |h'.mem| ensures Covers(h', a) {
      assert Covers(h, a);
      if a == h.fl[i] { assert Covers(h, h.fl[i + 1]); }
    }
    forall u | u in h'.own ensures Inside(h', u) {
      assert Inside(h, u) && IsBlock(h, h.fl[i]);
    }
  }

  lemma MergedHas(h: H, i: nat, a: nat)
    requires Ring(h, 0, |h.fl|) && i < |h.fl| - 1
    ensures a in Merged(h, i).fl <==> a in h.fl && a != h.fl[i + 1]
  {
    var fl := h.fl[..i + 1] + h.fl[i + 2..];
    if a in h.fl && a != h.fl[i + 1] {
      var k :| 0 <= k < |h.fl| && h.fl[k] == a;
      assert fl[if k <= i then k else k - 1] == a;
    }
  }

  lemma MergeSorted(h: H, i: nat)
    requires Ring(h, 0, |h.fl|) && i < |h.fl| - 1 && Adjacent(h, i)
    ensures InMem(Merged(h, i)) && Sorted(Merged(h, i)) && i > 0
    ensures forall k: nat :: k < |h.fl| - 1 ==> SizeAt(Merged(h, i), k) == MergedSize(h, i, k)
  {
    hide Links;
    var h' := Merged(h, i);
    forall k: nat | k < |h.fl| - 1
        ensures h'.fl[k] == h.fl[if k <= i then k else k + 1] && SizeAt(h', k) == MergedSize(h, i, k) {
      Distinct(h, i, if k <= i then k else k + 1);
    }
  }

  function MergedSize(h: H, i: nat, k: nat): nat
    requires InMem(h) && i < |h.fl| - 1 && k < |h.fl| - 1
  {
    if k < i then SizeAt(h, k) else if k == i then SizeAt(h, i) + SizeAt(h, i + 1) else SizeAt(h, k + 1)
  }

  lemma MergeRing(h: H, i: nat, lo: nat)
    requires Ring(h, lo, i + 1) && i < |h.fl| - 1 && Adjacent(h, i) && lo <= i
    ensures Ring(Merged(h, i), lo, i) && i > 0
  {
    hide Sorted;
    var h' := Merged(h, i);
    MergeSorted(h, i);
    forall k: nat | k < |h.fl| && k != i ensures h.fl[i] != h.fl[k] {
      Distinct(h, i, k);
    }
    forall k | 0 <= k < |h'.fl| ensures Links(h', k) {
      assert k < i ==> Links(h, k);
      assert k >= i ==> Links(h, k + 1);
    }
    forall k | 0 <= k < |h'.fl| - 1 && !(lo <= k < i) ensures !Adjacent(h', k) {
      if k < i { assert !Adjacent(h, k); } else { assert !Adjacent(h, k + 1); }
    }
  }

  // ---------- malloc ----------

  /** The whole block c leaves the list. */
  function Unlinked(h: H, c: nat): H
    requires InMem(h) && 0 < c < |h.fl|
  {
    var prev, p := h.fl[c - 1], h.fl[c];
    H(h.mem[prev := Header(h.mem[p].ptr, h.mem[prev].size)], h.fl[..c] + h.fl[c + 1..], h.alloc + {p}, h.own)
  }

  lemma UnlinkSorted(h: H, c: nat)
    requires Ring(h, 0, 0) && 0 < c < |h.fl|
    ensures InMem(Unlinked(h, c)) && Sorted(Unlinked(h, c))
    ensures forall k: nat :: k < |h.fl| - 1 ==> SizeAt(Unlinked(h, c), k) == SizeAt(h, if k < c then k else k + 1)
  {
    hide Links, Adjacent;
    var h' := Unlinked(h, c);
    forall k: nat | k < |h.fl| - 1 ensures h'.fl[k] == h.fl[if k < c then k else k + 1]
                              ensures SizeAt(h', k) == SizeAt(h, if k < c then k else k + 1)
    {
      Distinct(h, c - 1, if k < c then k else k + 1);
    }
  }

  lemma UnlinkRing(h: H, c: nat)
    requires Ring(h, 0, 0) && 0 < c < |h.fl|
    ensures Ring(Unlinked(h, c), 0, 0)
  {
    hide Sorted;
    var h' := Unlinked(h, c);
    UnlinkSorted(h, c);
    forall k: nat | k < |h.fl| && k != c - 1 ensures h.fl[c - 1] != h.fl[k] {
      Distinct(h, c - 1, k);
    }
    forall k | 0 <= k < |h'.fl| ensures Links(h', k) {
      assert k < c - 1 ==> Links(h, k);
      assert k >= c - 1 ==> Links(h, k + 1);
    }
    forall k | 0 <= k < |h'.fl| - 1 ensures !Adjacent(h', k) {
      if k < c - 1 { assert !Adjacent(h, k); } else {
        assert !Adjacent(h, k + 1);
        assert k == c - 1 ==> h.fl[c - 1] + SizeAt(h, c - 1) <= h.fl[c] < h.fl[c + 1] by {
          Ordered(h, c - 1, c);
          Distinct(h, c, if c + 1 < |h.fl| then c + 1 else c);
        }
      }
    }
  }

  lemma Ordered(h: H, i: nat, j: nat)
    requires InMem(h) && Sorted(h) && i < j < |h.fl|
    ensures h.fl[i] + SizeAt(h, i) <= h.fl[j]
  {
  }

  lemma UnlinkKeepsInv(h: H, c: nat)
    requires Inv(h, 0, 0) && 0 < c < |h.fl|
    ensures Inv(Unlinked(h, c), 0, 0)
  {
    hide Links, Adjacent;
    var h' := Unlinked(h, c);
    var fl := h'.fl;
    UnlinkRing(h, c);
    forall a ensures a in fl <==> a in h.fl && a != h.fl[c] {
      if a in h.fl && a != h.fl[c] {
        var k :| 0 <= k < |h.fl| && h.fl[k] == a;
        assert fl[if k < c then k else k - 1] == a;
      }
    }
    forall a: nat | IsBlock(h', a) && a < |h'.mem| ensures Covers(h', a) {
      assert IsBlock(h, a) && Covers(h, a);
    }
    forall u | u in h'.own ensures Inside(h', u) {
      assert Inside(h, u);
    }
  }

  /** The last n units of block c become an allocated block. */
  function Carved(h: H, c: nat, n: nat): H
    requires InMem(h) && c < |h.fl| && n < SizeAt(h, c) && h.fl[c] + SizeAt(h, c) <= |h.mem|
  {
    var p := h.fl[c];
    var q := p + h.mem[p].size - n;
    var mem := h.mem[p := Header(h.mem[p].ptr, h.mem[p].size - n)];
    H(if n > 0 then mem[q := Header(mem[q].ptr, n)] else mem, h.fl, h.alloc + {q},
      map u | u in h.own :: if q <= u < q + n then q else h.own[u])
  }

  lemma CarveRing(h: H, c: nat, n: nat)
    requires Inv(h, 0, 0) && 0 < c < |h.fl| && 0 < n < SizeAt(h, c)
    ensures h.fl[c] + SizeAt(h, c) <= |h.mem| && Ring(Carved(h, c, n), 0, 0)
    ensures var q := h.fl[c] + SizeAt(h, c) - n;
            !IsBlock(h, q) && q !in h.fl && h.fl[c] < q && q in h.own && h.own[q] == h.fl[c]
  {
    var p := h.fl[c];
    assert IsBlock(h, p) && Covers(h, p);
    var q := p + h.mem[p].size - n;
    var h' := Carved(h, c, n);
    assert h.own[q] == p && q != p;
    forall a: nat | IsBlock(h, a) ensures a != q {
      assert Covers(h, a);
    }
    forall i: nat | i < |h.fl|
        ensures h.fl[i] != q && SizeAt(h', i) == (if i == c then SizeAt(h, c) - n else SizeAt(h, i)) {
      assert h.fl[i] == BASE || IsBlock(h, h.fl[i]);
      Distinct(h, i, c);
    }
    forall k | 0 <= k < |h.fl| ensures Links(h', k) {
      assert Links(h, k);
    }
    forall k | 0 <= k < |h.fl| - 1 ensures !Adjacent(h', k) {
      assert !Adjacent(h, k);
    }
  }

  lemma CarveCovers(h: H, c: nat, n: nat, a: nat)
    requires InMem(h) && c < |h.fl| && 0 < n < SizeAt(h, c) && a < |h.mem|
    requires var p := h.fl[c]; var q := p + SizeAt(h, c) - n;
             p != BASE && q + n <= |h.mem| && Partition(h) && (a == q || (IsBlock(h, a) && a != q))
    ensures Covers(Carved(h, c, n), a)
  {
    var p := h.fl[c];
    var q := p + SizeAt(h, c) - n;
    assert IsBlock(h, p) && Covers(h, p);
    if a != q {
      assert Covers(h, a);
    }
  }

  lemma CarveKeepsInv(h: H, c: nat, n: nat)
    requires Inv(h, 0, 0) && 0 < c < |h.fl| && 0 < n < SizeAt(h, c)
    ensures h.fl[c] + SizeAt(h, c) <= |h.mem| && Inv(Carved(h, c, n), 0, 0)
  {
    hide Links, Adjacent, Sorted, Covers;
    CarveRing(h, c, n);
    var p := h.fl[c];
    var q := p + h.mem[p].size - n;
    var h' := Carved(h, c, n);
    forall a: nat | IsBlock(h', a) && a < |h'.mem| ensures Covers(h', a) {
      CarveCovers(h, c, n, a);
    }
    forall u | u in h'.own ensures Inside(h', u) {
      assert Inside(h, u);
    }
  }

  // ---------- morecore ----------

  /** n units at the end of memory, given to the allocator as one block. */
  function Added(h: H, n: nat): H
    requires n > 0
  {
    H(h.mem + [Header(0, n)] + seq(n - 1, _ => Header(0, 0)), h.fl, h.alloc + {|h.mem|},
      map u | u in h.own.Keys + Range(|h.mem|, |h.mem| + n) :: if u >= |h.mem| then |h.mem| else h.own[u])
  }

  /** Every unit handed to the allocator is in memory. */
  lemma OwnInMem(h: H, u: nat)
    requires InMem(h) && Partition(h) && u in h.own
    ensures u < |h.mem|
  {
    assert Inside(h, u);
    BlockSize(h, h.own[u]);
  }

  lemma AddKeepsInv(h: H, n: nat)
    requires Inv(h, 0, 0) && n > 0
    ensures Inv(Added(h, n), 0, 0)
  {
    var h' := Added(h, n);
    assert forall a: nat :: a < |h.mem| ==> h'.mem[a] == h.mem[a];
    forall i | 0 <= i < |h.fl| ensures Links(h', i) && SizeAt(h', i) == SizeAt(h, i) {
      assert Links(h, i);
    }
    forall i | 0 <= i < |h.fl| - 1 ensures !Adjacent(h', i) {
      assert !Adjacent(h, i);
    }
    forall a: nat | IsBlock(h', a) && a < |h'.mem| ensures Covers(h', a) {
      if a != |h.mem| {
        BlockSize(h, a);
      }
    }
    forall u | u in h'.own ensures Inside(h', u) {
      if u < |h.mem| {
        assert Inside(h, u);
      }
    }
  }

  // ---------- the whole of free ----------

  /** The units of the blocks in s keep their owner and their contents. */
  ghost predicate Kept(h: H, h': H, s: set<nat>) {
    forall u :: u in h.own && h.own[u] in s && u < |h.mem| ==>
      u < |h'.mem| && u in h'.own && h'.own[u] == h.own[u] && h'.mem[u] == h.mem[u]
  }

  function NextMerged(h: H, bp: nat, t: nat): H
    requires InMem(h) && t < |h.fl| && bp < |h.mem| && InMem(Linked(h, bp, t))
  {
    var h1 := Linked(h, bp, t);
    if t + 1 < |h.fl| && Adjacent(h1, t + 1) then Merged(h1, t + 1) else h1
  }

  function Freed(h: H, bp: nat, t: nat): H
    requires InMem(h) && t < |h.fl| && bp < |h.mem| && InMem(Linked(h, bp, t))
    requires InMem(NextMerged(h, bp, t)) && t + 1 < |NextMerged(h, bp, t).fl|
  {
    var h2 := NextMerged(h, bp, t);
    if Adjacent(h2, t) then Merged(h2, t) else h2
  }

  lemma NotAdjacent(h: H, lo: nat, i: nat)
    requires Inv(h, lo, i + 1) && (i < |h.fl| - 1 ==> !Adjacent(h, i))
    ensures Inv(h, lo, i)
  {
  }

  lemma NextMergedKeepsInv(h: H, bp: nat, t: nat)
    requires Inv(h, 0, 0) && bp in h.alloc && Place(h, bp, t)
    ensures InMem(Linked(h, bp, t))
    ensures var h2 := NextMerged(h, bp, t);
            && Inv(h2, t, t + 1) && t + 1 < |h2.fl| && h2.fl[t] == h.fl[t] && h2.fl[t + 1] == bp
            && h2.alloc == h.alloc - {bp} && h2.own.Keys == h.own.Keys && |h2.mem| == |h.mem|
            && Kept(h, h2, h2.alloc) && bp in h2.own && h2.own[bp] == bp && h2.mem[bp].size >= h.mem[bp].size
  {
    hide Sorted, Covers, Inside;
    LinkKeepsInv(h, bp, t);
    var h1 := Linked(h, bp, t);
    BlockSize(h, bp);
    if t + 1 < |h.fl| && Adjacent(h1, t + 1) {
      MergeKeepsInv(h1, t + 1, t);
    } else {
      NotAdjacent(h1, t, t + 1);
    }
    forall u | u in h.own && h.own[u] in h1.alloc && u < |h.mem|
        ensures h1.mem[u] == h.mem[u] && u !in h1.fl && (u == h.own[u] || u !in h.alloc) {
      UnitOwner(h, u);
    }
  }

  lemma UnitOwner(h: H, u: nat)
    requires InMem(h) && Partition(h) && u in h.own
    ensures (u in h.fl && u != BASE) || u in h.alloc ==> h.own[u] == u
    ensures u != BASE
  {
    assert Inside(h, u);
    if IsBlock(h, u) {
      BlockSize(h, u);
    }
  }

  lemma FreedKeepsInv(h: H, bp: nat, t: nat)
    requires Inv(h, 0, 0) && bp in h.alloc && Place(h, bp, t)
    ensures InMem(Linked(h, bp, t)) && InMem(NextMerged(h, bp, t)) && t + 1 < |NextMerged(h, bp, t).fl|
    ensures var h' := Freed(h, bp, t);
            && Inv(h', 0, 0) && h'.alloc == h.alloc - {bp} && h'.own.Keys == h.own.Keys && |h'.mem| == |h.mem|
            && Kept(h, h', h'.alloc)
            && t < |h'.fl| && h'.fl[t] == h.fl[t] && bp in h'.own
            && (h'.own[bp] == h'.fl[t] || (t + 1 < |h'.fl| && h'.own[bp] == h'.fl[t + 1]))
            && h'.own[bp] < |h'.mem| && h'.mem[h'.own[bp]].size >= h.mem[bp].size
  {
    hide Sorted, Covers, Inside;
    NextMergedKeepsInv(h, bp, t);
    var h2 := NextMerged(h, bp, t);
    if Adjacent(h2, t) {
      MergeKeepsInv(h2, t, t);
    } else {
      NotAdjacent(h2, t, t);
    }
    forall u | u in h2.own && h2.own[u] in h2.alloc && u < |h.mem| ensures u !in h2.fl {
      UnitOwner(h2, u);
    }
    EmptyRange(Freed(h, bp, t), t);
  }

  lemma EmptyRange(h: H, t: nat)
    requires Inv(h, t, t)
    ensures Inv(h, 0, 0)
  {
  }

  /** What free's assignments make of the memory, once p has been found. */
  function FreeCode(mem: seq<Header>, p: nat, bp: nat): seq<Header>
    requires p < |mem| && bp < |mem| && mem[p].ptr < |mem|
  {
    var next := mem[p].ptr;
    var mem1 := if bp + mem[bp].size == next
                then mem[bp := Header(mem[next].ptr, mem[bp].size + mem[next].size)]
                else mem[bp := Header(next, mem[bp].size)];
    if p + mem1[p].size == bp
    then mem1[p := Header(mem1[bp].ptr, mem1[p].size + mem1[bp].size)]
    else mem1[p := Header(bp, mem1[p].size)]
  }

  lemma FreeCodeIsFreed(h: H, bp: nat, t: nat)
    requires Inv(h, 0, 0) && bp in h.alloc && Place(h, bp, t)
    ensures InMem(Linked(h, bp, t)) && InMem(NextMerged(h, bp, t)) && t + 1 < |NextMerged(h, bp, t).fl|
    ensures InMem(h) && h.mem[h.fl[t]].ptr < |h.mem|
    ensures FreeCode(h.mem, h.fl[t], bp) == Freed(h, bp, t).mem
  {
    hide Sorted, Covers, Inside;
    NextMergedKeepsInv(h, bp, t);
    assert Links(h, t);
    var h1 := Linked(h, bp, t);
    assert h1.fl[t] == h.fl[t] && h1.fl[t + 1] == bp;
    if t + 1 < |h.fl| {
      assert h1.fl[t + 2] == h.fl[t + 1];
      Distinct(h, t, t + 1);
    }
  }

  // ---------- searching ----------

  /** free's search always has a place to find. */
  lemma {:induction false} PlaceExists(h: H, bp: nat, i: nat) returns (t: nat)
    requires InMem(h) && Sorted(h) && bp !in h.fl && i < |h.fl| && h.fl[i] < bp
    ensures Place(h, bp, t)
    decreases |h.fl| - i
  {
    t := i;
    if i + 1 < |h.fl| && h.fl[i + 1] < bp {
      t := PlaceExists(h, bp, i + 1);
    }
  }
}
