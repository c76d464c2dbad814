/** malloc, free and morecore (umalloc.c).

    Addresses count headers of 8 bytes; memory grows with sbrk.  `base` is the
    lowest of the addresses the allocator ever sees. */
module Umalloc {
  import opened FreeList
  import opened Params

  const TWO31 := 0x8000_0000

  /** nunits, computed in 32 bits. */
  function Nunits(nbytes: nat): nat {
    ((nbytes + 7) % TWO32) / 8 + 1
  }

  /** The header and the payload cover nbytes exactly when the rounding up does not
      wrap: for the last 7 sizes malloc hands out a block with no payload. */
  lemma EnoughUnitsIff(nbytes: nat)
    requires nbytes < TWO32
    ensures (Nunits(nbytes) - 1) * 8 >= nbytes <==> nbytes + 7 < TWO32
    ensures nbytes + 7 < TWO32 ==> (Nunits(nbytes) - 1) * 8 < nbytes + 8
    ensures nbytes + 7 >= TWO32 ==> Nunits(nbytes) == 1
  {
    if nbytes + 7 < TWO32 {
      assert (nbytes + 7) % TWO32 == nbytes + 7;
    } else {
      assert (nbytes + 7) % TWO32 == nbytes + 7 - TWO32;
    }
  }

  lemma WrappedRequest()
    ensures Nunits(TWO32 - 1) == 1
  {
  }

  /** The units morecore asks for. */
  function More(nu: nat): nat {
    if nu < 4096 then 4096 else nu
  }

  lemma MoreIs(nu: nat)
    ensures More(nu) == if nu < 4096 then 4096 else nu
  {
  }

  /** A 32-bit word read as a signed int. */
  function Signed(x: nat): int
    requires x < TWO32
  {
    if x < TWO31 then x else x - TWO32
  }

  /** The argument sbrk receives: nu * sizeof(Header) in 32 bits, as an int. */
  function SbrkArg(nu: nat): int {
    Signed(More(nu) * 8 % TWO32)
  }

  /** morecore asks for what it wants, a positive amount, except for the requests
      from 2^31 - 15 to 2^32 - 8. */
  lemma SbrkArgIff(nbytes: nat)
    requires nbytes < TWO32
    ensures SbrkArg(Nunits(nbytes)) > 0 <==> nbytes <= TWO31 - 16 || nbytes + 7 >= TWO32
    ensures SbrkArg(Nunits(nbytes)) > 0 <==> SbrkArg(Nunits(nbytes)) == 8 * More(Nunits(nbytes))
  {
    var nu := Nunits(nbytes);
    UnitsRange(nbytes);
    if nu * 8 < TWO31 {
      assert More(nu) * 8 % TWO32 == More(nu) * 8;
    } else if nu * 8 < TWO32 {
      assert More(nu) * 8 % TWO32 == nu * 8;
    } else {
      assert More(nu) * 8 == TWO32;
    }
  }

  lemma UnitsRange(nbytes: nat)
    requires nbytes < TWO32
    ensures 0 < Nunits(nbytes) && Nunits(nbytes) * 8 <= TWO32
    ensures Nunits(nbytes) * 8 < TWO31 <==> nbytes <= TWO31 - 16 || nbytes + 7 >= TWO32
  {
    if nbytes + 7 < TWO32 {
      assert (nbytes + 7) % TWO32 == nbytes + 7;
    } else {
      assert (nbytes + 7) % TWO32 == nbytes + 7 - TWO32 < 7;
    }
  }

  /** The two ends of the bad stretch: the most negative argument, and zero. */
  lemma BadRequests()
    ensures SbrkArg(Nunits(TWO31 - 15)) == -TWO31
    ensures SbrkArg(Nunits(TWO32 - 8)) == 0
  {
    assert Nunits(TWO31 - 15) == 0x1000_0000;
    assert Nunits(TWO32 - 8) == 0x2000_0000;
  }

  class Heap {
    const limit: nat            // units of address space
    var mem: seq<Header>
    var freep: nat
    ghost var fl: seq<nat>
    ghost var alloc: set<nat>
    ghost var own: map<nat, nat>
    ghost var asked: nat        // calls of sbrk so far

    ghost function HOf(): H
      reads this
    {
      H(mem, fl, alloc, own)
    }

    ghost predicate Valid()
      reads this
      ensures Valid() && freep != NULL ==> Inv(HOf(), 0, 0) && freep in fl
    {
      && BASE < |mem| <= limit
      && if freep == NULL then fl == [] && alloc == {} && own == map[]
         else Inv(HOf(), 0, 0) && freep in fl
    }

    constructor (limit: nat, start: nat)
      requires BASE < start <= limit
      ensures Valid() && freep == NULL && this.limit == limit
    {
      this.limit := limit;
      mem := seq(start, _ => Header(0, 0));
      freep := NULL;
      fl, alloc, own, asked := [], {}, map[], 0;
    }

    /** sbrk.  A positive amount gives the old end of memory, or -1.  Otherwise not a
        unit is obtained: memory shrinks, or stays as it is when the amount is zero
        or reaches below address 0, where sz + n wraps.  The old end is returned even
        then, unless nothing is left. */
    method Sbrk(n: int) returns (p: int)
      requires -TWO31 <= n < TWO31 && n % 8 == 0 && BASE < |mem| <= limit
      modifies this`mem, this`asked
      ensures asked == old(asked) + 1 && (p == -1 || p == |old(mem)|)
      ensures n > 0 && p == -1 ==> mem == old(mem)
      ensures n > 0 && p != -1 ==> mem == old(mem) + seq(n / 8, _ => Header(0, 0)) && |mem| <= limit
      ensures n <= 0 ==> mem == old(mem)[..if |old(mem)| + n / 8 >= 0 then |old(mem)| + n / 8 else |old(mem)|]
      ensures n <= 0 ==> (p == -1 <==> mem == [])
    {
      asked := asked + 1;
      p := |mem|;
      if n > 0 {
        var nomem: bool := *;
        if nomem || |mem| + n / 8 > limit {
          return -1;
        }
        mem := mem + seq(n / 8, _ => Header(0, 0));
      } else if |mem| + n / 8 >= 0 {
        mem := mem[..|mem| + n / 8];
        if mem == [] {
          return -1;
        }
      }
    }

    /** The program moves the break itself: the new units never reach the allocator. */
    method ProgramSbrk(n: int) returns (p: int)
      requires Valid() && 0 < n < TWO31 && n % 8 == 0
      modifies this`mem, this`asked
      ensures Valid() && (p != -1 ==> p == |old(mem)|)
    {
      p := Sbrk(n);
      if p != -1 && freep != NULL {
        GrowKeepsInv(old(HOf()), n / 8);
      }
    }

    /** The program writes inside a block it was given. */
    method Scribble(a: nat, u: nat, v: Header)
      requires Valid() && a in alloc && a < u < a + mem[a].size
      modifies this`mem
      ensures Valid() && u < |old(mem)| && mem == old(mem)[u := v]
    {
      ScribbleKeepsInv(HOf(), a, u, v);
      mem := mem[u := v];
    }

    /** free's search loop ends, at the place for bp. */
    method FindPlace(bp: nat) returns (p: nat, ghost t: nat)
      requires Valid() && bp in alloc
      ensures t < |fl| && fl[t] == p && Place(HOf(), bp, t)
    {
      ghost var h := HOf();
      ghost var n := |fl|;
      ghost var goal := PlaceExists(h, bp, 0);
      p := freep;
      t :| 0 <= t < n && fl[t] == freep;
      while !(bp > p && bp < mem[p].ptr)
        invariant t < n && fl[t] == p
        decreases Dist(t, goal, n)
      {
        assert Links(h, t);
        if p >= mem[p].ptr && (bp > p || bp < mem[p].ptr) {
          break;
        }
        p, t := mem[p].ptr, Succ(t, n);
      }
      assert Links(h, t);
    }

    /** The assignments of free, once p has been found. */
    method Relink(p: nat, bp: nat)
      requires p < |mem| && bp < |mem| && mem[p].ptr < |mem|
      modifies this`mem
      ensures mem == FreeCode(old(mem), p, bp)
    {
      if bp + mem[bp].size == mem[p].ptr {
        mem := mem[bp := Header(mem[mem[p].ptr].ptr, mem[bp].size + mem[mem[p].ptr].size)];
      } else {
        mem := mem[bp := Header(mem[p].ptr, mem[bp].size)];
      }
      if p + mem[p].size == bp {
        mem := mem[p := Header(mem[bp].ptr, mem[p].size + mem[bp].size)];
      } else {
        mem := mem[p := Header(bp, mem[p].size)];
      }
    }

    /** free: the block leaves the allocated set; the ring stays ordered and
        coalesced; no other allocated block is moved or written. */
    method Free(ap: nat)
      requires Valid() && ap > 0 && ap - 1 in alloc
      modifies this`mem, this`freep, this`fl, this`alloc, this`own
      ensures Valid() && alloc == old(alloc) - {ap - 1} && own.Keys == old(own).Keys && |mem| == |old(mem)|
      ensures Kept(old(HOf()), HOf(), alloc)
      ensures freep != NULL && Reaches(HOf(), freep, old(mem)[ap - 1].size, ap - 1)
    {
      hide Inv, Place, Sorted, Partition, Freed, NextMerged, Linked, Merged, Kept, FreeCode;
      var bp := ap - 1;
      var p;
      ghost var t;
      p, t := FindPlace(bp);
      ghost var h := HOf();
      FreeCodeIsFreed(h, bp, t);
      FreedKeepsInv(h, bp, t);
      Relink(p, bp);
      freep := p;
      ghost var h' := Freed(h, bp, t);
      fl, alloc, own := h'.fl, h'.alloc, h'.own;
      assert HOf() == h';
      NextInRing(h', t);
    }

    /** Nothing was obtained from sbrk, and what memory there was may have shrunk. */
    twostate predicate Lost()
      reads this
    {
      |mem| <= |old(mem)| && mem == old(mem)[..|mem|] && fl == old(fl) && alloc == old(alloc) && own == old(own) &&
          freep == old(freep)
    }

    /** morecore: one call of sbrk; More(nu) units entered into the free list, or 0
        with nothing changed.  When sbrk's argument is not positive no unit has been
        obtained (ok is false): the source goes on to write a header there. */
    method Morecore(nu0: nat) returns (ok: bool, r: nat)
      requires Valid() && freep != NULL && 0 < nu0 && nu0 * 8 <= TWO32
      modifies this`mem, this`freep, this`fl, this`alloc, this`own, this`asked
      ensures asked == old(asked) + 1 && (ok <==> SbrkArg(nu0) > 0)
      ensures !ok ==> Lost()
      ensures ok ==> Valid() && freep != NULL && alloc == old(alloc) && r in {0, freep} && Later(old(HOf()), HOf())
      ensures ok && r == 0 ==> HOf() == old(HOf()) && freep == old(freep)
      ensures ok && r != 0 ==> |mem| == |old(mem)| + More(nu0) && Reaches(HOf(), freep, nu0, |old(mem)|)
      ensures More(nu0) == if nu0 < 4096 then 4096 else nu0
    {
      hide Inv, InMem, Kept, Later, Range, Added;
      var nu := nu0;
      if nu < 4096 {
        nu := 4096;
      }
      var n := Signed(nu * 8 % TWO32);
      var p := Sbrk(n);
      if n <= 0 {
        return false, 0;      // hp, if not 0, is not in memory
      }
      if p == -1 {
        LaterSelf(HOf());
        return true, 0;
      }
      WholeArg(nu);
      var hp := p;
      mem := mem[hp := Header(mem[hp].ptr, nu)];
      ghost var h := old(HOf());
      AddKeepsInv(h, nu);
      AddedKept(h, nu);
      ghost var h' := Added(h, nu);
      alloc, own := h'.alloc, h'.own;
      assert HOf() == h';
      Free(hp + 1);
      LaterFree(h, h', HOf());
      ok, r := true, freep;
    }

    /** malloc's last step, for a block that fits: the whole of it, or its tail. */
    method Take(prevp: nat, p0: nat, nunits: nat, ghost c: nat) returns (r: nat)
      requires Valid() && freep != NULL && 0 < c < |fl| && prevp == fl[c - 1] && p0 == fl[c]
      requires 0 < nunits <= SizeAt(HOf(), c)
      modifies this`mem, this`freep, this`fl, this`alloc, this`own
      ensures Valid() && freep == prevp != NULL && own.Keys == old(own).Keys && |mem| == |old(mem)|
      ensures r > 0 && r - 1 !in old(alloc) && alloc == old(alloc) + {r - 1} && mem[r - 1].size == nunits
      ensures r - 1 + nunits == p0 + old(mem)[p0].size
      ensures Kept(old(HOf()), HOf(), old(alloc))
    {
      hide Inv, Sorted, Partition;
      var p := p0;
      ghost var h := HOf();
      TakeKeepsInv(h, c, nunits);
      if mem[p].size == nunits {
        mem := mem[prevp := Header(mem[p].ptr, mem[prevp].size)];
      } else {
        mem := mem[p := Header(mem[p].ptr, mem[p].size - nunits)];
        p := p + mem[p].size;
        mem := mem[p := Header(mem[p].ptr, nunits)];
      }
      freep := prevp;
      ghost var h' := Taken(h, c, nunits);
      fl, alloc, own := h'.fl, h'.alloc, h'.own;
      assert HOf() == h';
      r := p + 1;
    }

    /** The first call finds freep null and makes base a ring of one. */
    method Start() returns (prevp: nat)
      requires Valid()
      modifies this`mem, this`freep, this`fl
      ensures Valid() && freep != NULL && prevp == freep && alloc == old(alloc) && own == old(own) &&
              |mem| == |old(mem)|
      ensures old(freep) != NULL ==> HOf() == old(HOf()) && freep == old(freep)
      ensures old(freep) == NULL ==> fl == [BASE] && mem[BASE].size == 0
      ensures Kept(old(HOf()), HOf(), alloc) && asked == old(asked)
    {
      prevp := freep;
      if prevp == NULL {
        mem := mem[BASE := Header(BASE, 0)];
        freep, prevp := BASE, BASE;
        fl := [BASE];
      }
    }

    /** morecore, called from malloc's loop: the walk goes on from the new freep,
        with enough room at freep or just after it. */
    method Refill(nunits: nat) returns (ok: bool, p: nat, ghost f: nat)
      requires Valid() && freep != NULL && 0 < nunits && nunits * 8 <= TWO32
      modifies this`mem, this`freep, this`fl, this`alloc, this`own, this`asked
      ensures asked == old(asked) + 1 && (ok <==> SbrkArg(nunits) > 0)
      ensures !ok ==> Lost()
      ensures ok ==> Valid() && freep != NULL && alloc == old(alloc) && Later(old(HOf()), HOf())
      ensures ok && p == 0 ==> HOf() == old(HOf()) && freep == old(freep)
      ensures ok && p != 0 ==> |mem| == |old(mem)| + More(nunits) && f < |fl| && p == freep == fl[f] < |mem|
      ensures ok && p != 0 ==> mem[p].ptr == fl[Succ(f, |fl|)] && Ahead(HOf(), f, Succ(f, |fl|), nunits)
    {
      hide Inv, InMem, Later, Reaches, Ahead, SbrkArg;
      f := 0;
      ok, p := Morecore(nunits);
      if ok && p != 0 {
        f :| f < |fl| && fl[f] == freep;
        ReachedAhead(HOf(), f, nunits, |old(mem)|);
      }
    }

    /** How far malloc's loop has got at the c-th listed block: nothing has changed and
        every block passed is too small; or memory has been added once and a block
        that fits lies just ahead. */
    ghost predicate Looking(h: H, freep0: nat, asked0: nat, f: nat, c: nat, n: nat, grown: bool)
      reads this
    {
      && Valid() && freep != NULL && c < |fl| && f < |fl| && freep == fl[f] && Later(h, HOf()) && alloc == h.alloc
      && if grown then
           && asked == asked0 + 1 && SbrkArg(n) > 0 && |mem| == |h.mem| + More(n)
           && NoneFits(h, n) && Ahead(HOf(), f, c, n)
         else HOf() == h && freep == freep0 && asked == asked0 && Passed(h, f, c, n)
    }

    /** The listed block p fits. */
    method SearchTake(prevp: nat, p: nat, nunits: nat, ghost h: H, ghost freep0: nat, ghost asked0: nat, ghost f: nat,
                      ghost c: nat, ghost grown: bool)
      returns (r: nat)
      requires Looking(h, freep0, asked0, f, c, nunits, grown) && p == fl[c] && BeforeIn(c, prevp)
      requires 0 < nunits && p < |mem| && mem[p].size >= nunits
      modifies this`mem, this`freep, this`fl, this`alloc, this`own
      ensures Valid() && freep != NULL && Later(h, HOf()) && grown == NoneFits(h, nunits)
      ensures r > 0 && r - 1 !in h.alloc && alloc == h.alloc + {r - 1} && mem[r - 1].size == nunits
      ensures |mem| == |h.mem| + (if grown then More(nunits) else 0)
      ensures grown || FromFit(h, freep0, f, c, nunits, r - 1)
    {
      hide Valid, Inv, InMem, Passed, NoneFits, Later, FromFit, Dist, Ahead, SbrkArg, More;
      NextInRing(HOf(), c);
      ghost var now := HOf();
      r := Take(prevp, p, nunits, c);
      LaterTake(h, now, HOf());
      if !grown { FitFound(h, freep0, f, c, nunits, r - 1); }
    }

    /** malloc's loop, from the block after freep on.  sbrk is asked once if no listed
        block fits, else not at all; ok is false when it was asked and its argument
        was not positive. */
    method Search(nunits: nat) returns (ok: bool, r: nat, ghost f: nat, ghost c: nat)
      requires Valid() && freep != NULL && 0 < nunits && nunits * 8 <= TWO32
      modifies this`mem, this`freep, this`fl, this`alloc, this`own, this`asked
      ensures asked == old(asked) + if NoneFits(old(HOf()), nunits) then 1 else 0
      ensures ok <==> !NoneFits(old(HOf()), nunits) || SbrkArg(nunits) > 0
      ensures !ok ==> Lost()
      ensures ok ==> Valid() && freep != NULL && Later(old(HOf()), HOf())
      ensures ok && r == 0 ==> NoneFits(old(HOf()), nunits) && HOf() == old(HOf()) && freep == old(freep)
      ensures ok && r > 0 ==> r - 1 !in old(alloc) && alloc == old(alloc) + {r - 1} && mem[r - 1].size == nunits
      ensures ok && r > 0 ==> |mem| == |old(mem)| + if NoneFits(old(HOf()), nunits) then More(nunits) else 0
      ensures NoneFits(old(HOf()), nunits) || FromFit(old(HOf()), old(freep), f, c, nunits, r - 1)
    {
      hide Valid, Inv, InMem, Passed, NoneFits, Later, FromFit, Dist, Ahead, SbrkArg, More;
      var prevp := freep;
      ghost var h := HOf();
      ghost var grown := false;
      ok := true;
      f :| f < |fl| && fl[f] == freep;
      NextInRing(h, f);
      var p := mem[prevp].ptr;
      c := Succ(f, |fl|);
      PassedNone(h, f, nunits);
      LaterSelf(h);
      while true
        invariant Looking(h, old(freep), old(asked), f, c, nunits, grown) && p == fl[c] && BeforeIn(c, prevp) && ok
        decreases if grown then 0 else 1, Dist(c, f, |fl|)
      {
        NextInRing(HOf(), c);
        if mem[p].size >= nunits {
          r := SearchTake(prevp, p, nunits, h, old(freep), old(asked), f, c, grown);
          return;
        }
        StepOn(HOf(), f, c, nunits);
        if p == freep {
          ghost var g;
          ok, p, g := Refill(nunits);
          if !ok || p == 0 {
            return ok, 0, f, c;
          }
          grown, f, c := true, g, g;
        }
        prevp, p := p, mem[p].ptr;
        c := Succ(c, |fl|);
      }
    }

    /** malloc, for every size.  It stays sound exactly when a listed block fits or
        sbrk's argument is positive; then it returns 0 only when nothing fits and
        sbrk fails, and otherwise a block of exactly Nunits(nbytes) units that was
        not allocated before, cut from the first fitting free block if there is one.
        sbrk is asked at most once, for More(Nunits(nbytes)) units, and nothing
        allocated earlier is moved or written.  When it does not stay sound, not one
        unit has been obtained. */
    method Malloc(nbytes: nat) returns (ok: bool, r: nat, ghost f: nat, ghost c: nat)
      requires Valid() && nbytes < TWO32
      modifies this`mem, this`freep, this`fl, this`alloc, this`own, this`asked
      ensures asked == old(asked) + if Fits(old(HOf()), old(freep), Nunits(nbytes)) then 0 else 1
      ensures ok <==> Fits(old(HOf()), old(freep), Nunits(nbytes)) || nbytes <= TWO31 - 16 || nbytes + 7 >= TWO32
      ensures !ok ==> |mem| <= |old(mem)| && alloc == old(alloc) && own == old(own)
      ensures ok ==> Valid() && freep != NULL && Later(old(HOf()), HOf())
      ensures ok && r == 0 ==> |mem| == |old(mem)| && alloc == old(alloc) && NoneFits(HOf(), Nunits(nbytes))
      ensures ok && r > 0 ==> r - 1 !in old(alloc) && alloc == old(alloc) + {r - 1} && mem[r - 1].size == Nunits(nbytes)
      ensures ok && r > 0 && Fits(old(HOf()), old(freep), Nunits(nbytes)) ==> |mem| == |old(mem)|
      ensures ok && r > 0 && !Fits(old(HOf()), old(freep), Nunits(nbytes)) ==>
                |mem| == |old(mem)| + if Nunits(nbytes) < 4096 then 4096 else Nunits(nbytes)
      ensures Fits(old(HOf()), old(freep), Nunits(nbytes)) ==>
                ok && FromFit(old(HOf()), old(freep), f, c, Nunits(nbytes), r - 1)
    {
      hide Inv, NoneFits, Kept, Later, FromFit, SbrkArg, More, Nunits;
      SbrkArgIff(nbytes);
      UnitsRange(nbytes);
      MoreIs(Nunits(nbytes));
      var prevp := Start();
      ghost var h := HOf();
      StartFits(old(HOf()), h, old(freep), Nunits(nbytes));
      ok, r, f, c := Search(Nunits(nbytes));
      if ok {
        LaterStart(old(HOf()), h, HOf());
      }
    }

    ghost predicate BeforeIn(c: nat, prevp: nat)
      reads this
    {
      c < |fl| && prevp == fl[if c > 0 then c - 1 else |fl| - 1]
    }
  }

  /** Some block on the list has n units (before the first malloc there is no list). */
  ghost predicate Fits(h: H, freep: nat, n: nat) {
    freep != NULL && !NoneFits(h, n)
  }

  lemma StartFits(h: H, h1: H, freep: nat, n: nat)
    requires n > 0 && (freep != NULL ==> h1 == h) &&
             (freep == NULL ==> h1.fl == [BASE] && InMem(h1) && h1.mem[BASE].size == 0)
    ensures Fits(h, freep, n) <==> !NoneFits(h1, n)
  {
  }

  /** Below 2^32 the argument, read as an int, is the amount itself if positive. */
  lemma WholeArg(nu: nat)
    requires 4096 <= nu && nu * 8 <= TWO32 && Signed(nu * 8 % TWO32) > 0
    ensures Signed(nu * 8 % TWO32) == nu * 8
  {
    if nu * 8 < TWO32 {
      assert nu * 8 % TWO32 == nu * 8;
    }
  }

  ghost predicate NoneFits(h: H, n: nat) {
    InMem(h) && forall i: nat :: i < |h.fl| ==> SizeAt(h, i) < n
  }

  /** The blocks from the one after f up to c, c excluded, are too small. */
  ghost predicate Passed(h: H, f: nat, c: nat, n: nat) {
    && InMem(h) && f < |h.fl|
    && forall i: nat :: i < |h.fl| && Dist(Succ(f, |h.fl|), i, |h.fl|) < Dist(Succ(f, |h.fl|), c, |h.fl|) ==>
       SizeAt(h, i) < n
  }

  lemma PassedNone(h: H, f: nat, n: nat)
    requires InMem(h) && f < |h.fl|
    ensures Passed(h, f, Succ(f, |h.fl|), n)
  {
  }

  lemma FitFound(h: H, freep: nat, f: nat, c: nat, n: nat, a: int)
    requires Passed(h, f, c, n) && c < |h.fl| && SizeAt(h, c) >= n && h.fl[f] == freep &&
             a + n == h.fl[c] + SizeAt(h, c)
    ensures FromFit(h, freep, f, c, n, a) && !NoneFits(h, n)
  {
  }

  /** Nothing allocated in h is moved or written, and the units handed to the
      allocator are those it had and all those sbrk has added since. */
  ghost predicate Later(h: H, h': H) {
    Kept(h, h', h.alloc) && h'.own.Keys == h.own.Keys + Range(|h.mem|, |h'.mem|)
  }

  lemma LaterSelf(h: H)
    requires Inv(h, 0, 0)
    ensures Later(h, h)
  {
    assert Range(|h.mem|, |h.mem|) == {};
  }

  lemma LaterTake(h: H, h1: H, h2: H)
    requires Later(h, h1) && Kept(h1, h2, h1.alloc) && h1.alloc == h.alloc && h2.own.Keys == h1.own.Keys &&
             |h2.mem| == |h1.mem|
    ensures Later(h, h2)
  {
  }

  lemma LaterFree(h: H, h1: H, h2: H)
    requires Later(h, h1) && Kept(h1, h2, h2.alloc) && h2.alloc == h.alloc && h2.own.Keys == h1.own.Keys &&
             |h2.mem| == |h1.mem|
    ensures Later(h, h2)
  {
  }

  lemma LaterStart(h: H, h1: H, h2: H)
    requires Later(h1, h2) && Kept(h, h1, h1.alloc) && h1.alloc == h.alloc && h1.own.Keys == h.own.Keys &&
             |h1.mem| == |h.mem|
    ensures Later(h, h2)
  {
  }

  /** A block with n units lies at freep, or right here just after freep. */
  ghost predicate Ahead(h: H, f: nat, c: nat, n: nat) {
    InMem(h) && f < |h.fl| && c < |h.fl| && (SizeAt(h, f) >= n || (c == Succ(f, |h.fl|) && SizeAt(h, c) >= n))
  }

  /** malloc's loop leaves a block that is too small behind. */
  lemma StepOn(h: H, f: nat, c: nat, n: nat)
    requires Inv(h, 0, 0) && f < |h.fl| && c < |h.fl| && SizeAt(h, c) < n
    ensures h.fl[c] == h.fl[f] <==> c == f
    ensures Passed(h, f, c, n) ==> if c == f then NoneFits(h, n) else Passed(h, f, Succ(c, |h.fl|), n)
    ensures c != f ==> Dist(Succ(c, |h.fl|), f, |h.fl|) < Dist(c, f, |h.fl|)
    ensures Ahead(h, f, c, n) ==> c != f && Ahead(h, f, Succ(c, |h.fl|), n)
  {
    Distinct(h, c, f);
  }

  lemma ReachedAhead(h: H, f: nat, n: nat, bp: nat)
    requires Inv(h, 0, 0) && f < |h.fl| && Reaches(h, h.fl[f], n, bp)
    ensures Ahead(h, f, Succ(f, |h.fl|), n) && h.fl[f] < |h.mem| && h.mem[h.fl[f]].ptr == h.fl[Succ(f, |h.fl|)]
  {
    NextInRing(h, f);
  }

  /** The unit at bp lies in the block freep or in the one after, which has at
      least n units. */
  ghost predicate Reaches(h: H, freep: nat, n: nat, bp: nat) {
    && bp in h.own && freep < |h.mem| && h.own[bp] < |h.mem| && h.mem[h.own[bp]].size >= n
    && (h.own[bp] == freep || h.own[bp] == h.mem[freep].ptr)
  }

  function Taken(h: H, c: nat, n: nat): H
    requires InMem(h) && 0 < c < |h.fl| && n <= SizeAt(h, c) && h.fl[c] + SizeAt(h, c) <= |h.mem|
  {
    if SizeAt(h, c) == n then Unlinked(h, c) else Carved(h, c, n)
  }

  lemma TakeKeepsInv(h: H, c: nat, n: nat)
    requires Inv(h, 0, 0) && 0 < c < |h.fl| && 0 < n <= SizeAt(h, c)
    ensures h.fl[c] + SizeAt(h, c) <= |h.mem|
    ensures var h' := Taken(h, c, n); var q := h.fl[c] + SizeAt(h, c) - n;
            && Inv(h', 0, 0) && h'.own.Keys == h.own.Keys && |h'.mem| == |h.mem| && Kept(h, h', h.alloc)
            && q !in h.alloc && h'.alloc == h.alloc + {q} && h.fl[c - 1] in h'.fl && q < |h'.mem| && h'.mem[q].size == n
    ensures h.fl[c] != h.fl[c - 1]
  {
    hide Ring, Partition, Unlinked, Carved, Kept;
    BlockOfList(h, c);
    PrevDiffers(h, c);
    if SizeAt(h, c) == n {
      UnlinkKeepsInv(h, c);
      UnlinkedKept(h, c);
    } else {
      CarveKeepsInv(h, c, n);
      CarvedKept(h, c, n);
    }
  }

  lemma BlockOfList(h: H, c: nat)
    requires Inv(h, 0, 0) && 0 < c < |h.fl|
    ensures h.fl[c] !in h.alloc && h.fl[c] != BASE && h.fl[c] + SizeAt(h, c) <= |h.mem|
    ensures forall u :: u in h.own && h.own[u] in h.alloc ==> u !in h.fl && h.own[u] != h.fl[c]
  {
    Distinct(h, 0, c);
    BlockSize(h, h.fl[c]);
    forall u | u in h.own && h.own[u] in h.alloc ensures u !in h.fl && h.own[u] != h.fl[c] {
      UnitOwner(h, u);
    }
  }

  lemma UnlinkedKept(h: H, c: nat)
    requires Inv(h, 0, 0) && 0 < c < |h.fl|
    ensures var h' := Unlinked(h, c);
            && h'.own.Keys == h.own.Keys && |h'.mem| == |h.mem| && Kept(h, h', h.alloc) &&
               h'.alloc == h.alloc + {h.fl[c]}
            && h.fl[c - 1] in h'.fl && h'.mem[h.fl[c]] == h.mem[h.fl[c]]
  {
    hide Ring, Partition;
    BlockOfList(h, c);
    var h' := Unlinked(h, c);
    assert h'.fl[c - 1] == h.fl[c - 1];
    PrevDiffers(h, c);
  }

  lemma PrevDiffers(h: H, c: nat)
    requires Inv(h, 0, 0) && 0 < c < |h.fl|
    ensures h.fl[c - 1] != h.fl[c]
  {
    Distinct(h, c - 1, c);
  }

  lemma CarvedKept(h: H, c: nat, n: nat)
    requires Inv(h, 0, 0) && 0 < c < |h.fl| && 0 < n < SizeAt(h, c) && h.fl[c] + SizeAt(h, c) <= |h.mem|
    ensures var h' := Carved(h, c, n); var q := h.fl[c] + SizeAt(h, c) - n;
            && h'.own.Keys == h.own.Keys && |h'.mem| == |h.mem| && Kept(h, h', h.alloc)
            && q !in h.alloc && h'.alloc == h.alloc + {q} && h.fl[c - 1] in h'.fl && q < |h'.mem| && h'.mem[q].size == n
  {
    hide Ring, Partition, Covers;
    BlockOfList(h, c);
    CarveRing(h, c, n);
    BlockUnits(h, c);
  }

  lemma BlockUnits(h: H, c: nat)
    requires Inv(h, 0, 0) && 0 < c < |h.fl|
    ensures forall u: nat :: h.fl[c] <= u < h.fl[c] + SizeAt(h, c) ==> u in h.own && h.own[u] == h.fl[c]
  {
    Distinct(h, 0, c);
    BlockSize(h, h.fl[c]);
  }

  /** The block at a is the end of c, the first block after freep with n units. */
  ghost predicate FromFit(h: H, freep: nat, f: nat, c: nat, n: nat, a: int) {
    Passed(h, f, c, n) && h.fl[f] == freep && c < |h.fl| && SizeAt(h, c) >= n && a + n == h.fl[c] + SizeAt(h, c)
  }

  lemma GrowKeepsInv(h: H, n: nat)
    requires Inv(h, 0, 0)
    ensures Inv(H(h.mem + seq(n, _ => Header(0, 0)), h.fl, h.alloc, h.own), 0, 0)
  {
    var h' := H(h.mem + seq(n, _ => Header(0, 0)), h.fl, h.alloc, h.own);
    assert forall a: nat :: a < |h.mem| ==> h'.mem[a] == h.mem[a];
    forall i | 0 <= i < |h.fl| ensures Links(h', i) && SizeAt(h', i) == SizeAt(h, i) {
      assert Links(h, i);
    }
    forall i | 0 <= i < |h.fl| - 1 ensures !Adjacent(h', i) {
      assert !Adjacent(h, i);
    }
    forall a: nat | IsBlock(h', a) && a < |h'.mem| ensures Covers(h', a) {
      assert IsBlock(h, a);
      BlockSize(h, a);
    }
    forall u | u in h'.own ensures Inside(h', u) {
      assert Inside(h, u);
    }
  }

  lemma ScribbleKeepsInv(h: H, a: nat, u: nat, v: Header)
    requires Inv(h, 0, 0) && a in h.alloc && a < u < a + h.mem[a].size
    ensures u < |h.mem| && Inv(H(h.mem[u := v], h.fl, h.alloc, h.own), 0, 0)
  {
    BlockSize(h, a);
    var h' := H(h.mem[u := v], h.fl, h.alloc, h.own);
    UnitOwner(h, u);
    forall i | 0 <= i < |h.fl| ensures Links(h', i) && SizeAt(h', i) == SizeAt(h, i) {
      assert Links(h, i);
    }
    forall i | 0 <= i < |h.fl| - 1 ensures !Adjacent(h', i) {
      assert !Adjacent(h, i);
    }
    forall b: nat | IsBlock(h', b) && b < |h'.mem| ensures Covers(h', b) {
      assert IsBlock(h, b);
      BlockSize(h, b);
    }
    forall x | x in h'.own ensures Inside(h', x) {
      assert Inside(h, x);
    }
  }

  lemma AddedKept(h: H, n: nat)
    requires Inv(h, 0, 0) && n > 0
    ensures Later(h, Added(h, n)) && |h.mem| !in h.alloc && Added(h, n).alloc == h.alloc + {|h.mem|} &&
            Added(h, n).fl == h.fl
    ensures Added(h, n).mem == (h.mem + seq(n, _ => Header(0, 0)))[|h.mem| := Header(0, n)]
  {
    var h' := Added(h, n);
    var m := h.mem + seq(n, _ => Header(0, 0));
    assert m[|h.mem|] == Header(0, 0);
    forall u | u in h.own ensures u < |h.mem| {
      OwnInMem(h, u);
    }
  }

  lemma NextInRing(h: H, t: nat)
    requires Inv(h, 0, 0) && t < |h.fl|
    ensures SizeAt(h, t) > 0 ==> t > 0
    ensures h.fl[t] in h.fl && h.fl[t] < |h.mem| && h.mem[h.fl[t]].ptr == h.fl[Succ(t, |h.fl|)]
  {
    assert Links(h, t);
  }
}
