/** Growing, shrinking, copying and counting user memory (vm.c; growproc in proc.c). */
module Uvm {
  import opened PageTables
  import opened Kalloc
  import opened Vm
  import opened Params

  const PWU: nat := 7       // PTE_P | PTE_W | PTE_U

  /** Exactly the user pages below sz are mapped. */
  ghost predicate Space(v: V, pd: nat, sz: nat)
    requires |v.mem| == TOP
  {
    forall w: nat :: w < UPAGES ==> (P(Pte(v, pd, w)) <==> w * PGSIZE < sz)
  }

  /** Page w of pd is a page that was free in v, with these flags and contents. */
  predicate NewPage(v: V, v': V, pd: nat, w: nat, flags: nat, page: Page)
    requires |v.mem| == |v.role| == |v'.mem| == |v'.role| == TOP
  {
    var e := Pte(v', pd, w);
    P(e) && Flags(e) == flags && Fr(e) < TOP && v.role[Fr(e)] == Free && v'.mem[Fr(e)] == page
  }

  /** Only page w of pd has been added. */
  ghost predicate Put(v: V, v': V, pd: nat, w: nat, flags: nat, page: Page) {
    && Frames(v, v', pd, {}) && UsersKept(v, v') && NewPage(v, v', pd, w, flags, page)
    && forall x: nat :: x < 1024 * 1024 && x != w ==> Pte(v', pd, x) == Pte(v, pd, x)
  }

  /** Page f has been taken off the list and filled; all else is as before. */
  predicate Taking(v: V, v': V, f: nat, page: Page) {
    && |v.mem| == |v.role| == TOP && f < TOP && v.role[f] == Free
    && v' == V(v.mem[f := page], v.role[f := Held])
  }

  lemma TakingKeeps(data: nat, v: V, v1: V, v2: V, pd: nat, f: nat, page: Page)
    requires Inv(data, v) && Whole(v, pd) && f < TOP && v.role[f] == Free && v1 == SetRole(v, f, Held) &&
             v2 == V(v1.mem[f := page], v1.role)
    ensures Inv(data, v2) && Whole(v2, pd) && Taking(v, v2, f, page)
    ensures forall w: nat :: Pte(v2, pd, w) == Pte(v, pd, w)
  {
    hide Inv;
    Reassign(data, v, f, Held);
    WriteHeld(data, v1, f, page);
    forall w: nat ensures Pte(v2, pd, w) == Pte(v, pd, w) {
      assert Pte(v1, pd, w) == Pte(v, pd, w);
    }
  }

  lemma PutDone(data: nat, v: V, v2: V, v3: V, pd: nat, w: nat, f: nat, perm: nat, page: Page)
    requires Inv(data, v2) && Whole(v, pd) && Taking(v, v2, f, page) && w < UPAGES && perm < 4096
    requires forall x: nat :: Pte(v2, pd, x) == Pte(v, pd, x)
    requires Mapping(v2, v3, pd, w, 1, f, perm)
    ensures Put(v, v3, pd, w, WithP(perm), page)
  {
    hide Inv, Pte;
    assert Taken(w, 1, f) == {f};
    forall g: nat | g < TOP && g != pd ensures FrameOk(v, v3, pd, {}, g) {
      assert FrameOk(v2, v3, pd, {f}, g);
    }
    assert Pte(v3, pd, w) == Entry(f + (w - w), WithP(perm));
  }

  /** kalloc, fill and mappages of one user page. */
  method PutPage(k: Kmem, pd: nat, a: nat, page: Page, perm: nat) returns (mem: nat, r: int)
    requires k.Valid() && Whole(k.St(), pd) && a % PGSIZE == 0 && a < KERNBASE && perm < 4096 &&
             !P(Pte(k.St(), pd, a / PGSIZE))
    modifies k`freelist, k`free, k`role, k.mem
    ensures k.Valid() && Whole(k.St(), pd) && (mem == 0 ==> r == -1) && (r == 0 || r == -1)
    ensures mem == 0 ==> k.St() == old(k.St())
    ensures r == -1 ==> NoneFree(k.St())
    ensures mem != 0 && r == -1 ==>
            Taking(old(k.St()), k.St(), mem, page) && forall x: nat :: Pte(k.St(), pd, x) == Pte(old(k.St()), pd, x)
    ensures r == 0 ==> Put(old(k.St()), k.St(), pd, a / PGSIZE, WithP(perm), page)
  {
    hide Inv, Pte, P, Fr, Mapping, Put, Chain;
    ghost var v := k.St();
    mem := k.Kalloc();
    if mem == 0 {
      return 0, -1;
    }
    ghost var v1, list := k.St(), k.mem[..];
    k.SetPage(mem, page);
    ghost var v2 := k.St();
    TakingKeeps(k.data, v, v1, v2, pd, mem, page);
    ChainElsewhere(list, k.mem[..], k.freelist, k.free, k.end);
    OnePage(a);
    ghost var m;
    r, m := Mappages(k, pd, a, PGSIZE, mem * PGSIZE, perm);
    if r == 0 {
      PutDone(k.data, v, v2, k.St(), pd, a / PGSIZE, mem, perm, page);
    } else {
      MappingZero(v2, k.St(), pd, a / PGSIZE, m, mem, perm);
    }
  }

  lemma OnePage(a: nat)
    requires a % PGSIZE == 0 && a < KERNBASE
    ensures Pages(a, PGSIZE) == 1 && a + PGSIZE <= KERNBASE && a / PGSIZE < UPAGES
  {
  }

  lemma MappingZero(v: V, v': V, pd: nat, first: nat, m: nat, f: nat, perm: nat)
    requires Mapping(v, v', pd, first, m, f, perm) && m < 1
    ensures v' == v
  {
  }

  // ---------- allocuvm ----------

  /** User pages lo up to hi of pd are new, zeroed and writable; the rest of pd's
      entries, its pages and everyone else's are as before. */
  ghost predicate Grown(v: V, v': V, pd: nat, lo: nat, hi: nat) {
    && Frames(v, v', pd, {}) && UsersKept(v, v')
    && forall w: nat :: w < 1024 * 1024 ==>
         if lo <= w < hi then NewPage(v, v', pd, w, PWU, ZeroPage()) else Pte(v', pd, w) == Pte(v, pd, w)
  }

  lemma GrownNone(v: V, pd: nat, lo: nat)
    requires Whole(v, pd)
    ensures Grown(v, v, pd, lo, lo)
  {
  }

  lemma GrownStep(data: nat, v: V, v1: V, v2: V, pd: nat, lo: nat, w: nat)
    requires Inv(data, v) && Inv(data, v1) && Whole(v, pd) && Whole(v1, pd) && lo <= w < UPAGES
    requires Grown(v, v1, pd, lo, w) && Put(v1, v2, pd, w, PWU, ZeroPage())
    ensures Grown(v, v2, pd, lo, w + 1)
  {
    hide Inv, Pte;
    FramesTwice(v, v1, v2, pd, {}, {}, {});
    var next := w + 1;
    var f := Fr(Pte(v2, pd, w));
    assert f != pd;
    assert FrameOk(v, v1, pd, {}, f);
    forall x: nat | x < 1024 * 1024
      ensures if lo <= x < next then NewPage(v, v2, pd, x, PWU, ZeroPage()) else Pte(v2, pd, x) == Pte(v, pd, x) {
      if lo <= x < w {
        assert NewPage(v, v1, pd, x, PWU, ZeroPage());
        PteFacts(data, v1, pd, x);
      }
    }
  }

  /** Nothing of pd's memory has changed, and the only pages not given back are
      page tables. */
  ghost predicate Restored(v: V, v': V, pd: nat) {
    && |v.mem| == |v.role| == |v'.mem| == |v'.role| == TOP && pd < TOP && v'.role[pd] == v.role[pd]
    && (forall w: nat :: w < 1024 * 1024 ==> Pte(v', pd, w) == Pte(v, pd, w))
    && forall g: nat :: g < TOP && g != pd ==> RestoredOk(v, v', pd, g)
  }

  predicate RestoredOk(v: V, v': V, pd: nat, g: nat)
    requires |v.mem| == |v.role| == |v'.mem| == |v'.role| == TOP && g < TOP
  {
    var r := v.role[g];
    if r == Free then v'.role[g] == Free || (v'.role[g].Table? && v'.role[g].pd == pd)
    else v'.role[g] == r && ((r.Table? && r.pd == pd) || v'.mem[g] == v.mem[g])
  }

  /** allocuvm's failure path: deallocuvm takes back what the loop mapped. */
  lemma TakenBack(data: nat, v: V, v1: V, v2: V, pd: nat, lo: nat, w: nat, hi: nat)
    requires Inv(data, v) && Inv(data, v1) && Inv(data, v2) && Whole(v, pd) && Whole(v1, pd) && Whole(v2, pd)
    requires Grown(v, v1, pd, lo, w) && lo <= w <= hi <= UPAGES && Shrunk(v1, v2, pd, lo, hi)
    requires forall x: nat :: lo <= x < hi ==> !P(Pte(v, pd, x))
    ensures Restored(v, v2, pd)
  {
    hide Inv, Pte;
    forall x: nat | x < 1024 * 1024 ensures Pte(v2, pd, x) == Pte(v, pd, x) {
      PteFacts(data, v, pd, x);
    }
    forall g: nat | g < TOP && g != pd ensures RestoredOk(v, v2, pd, g) {
      assert FrameOk(v, v1, pd, {}, g) && GoneOk(v1, v2, pd, lo, hi, g);
      TakenBackPage(data, v, v1, pd, lo, w, hi, g);
    }
  }

  /** The user pages of pd that are new since v lie in the stretch taken back, and
      the old ones outside it. */
  lemma TakenBackPage(data: nat, v: V, v1: V, pd: nat, lo: nat, w: nat, hi: nat, g: nat)
    requires Inv(data, v) && Inv(data, v1) && Whole(v, pd) && Whole(v1, pd) && g < TOP
    requires Grown(v, v1, pd, lo, w) && lo <= w <= hi <= UPAGES
    requires forall x: nat :: lo <= x < hi ==> !P(Pte(v, pd, x))
    ensures v1.role[g].User? && v1.role[g].pd == pd ==>
              if v.role[g] == Free then lo <= v1.role[g].vpn < hi
              else v1.role[g] == v.role[g] && !(lo <= v1.role[g].vpn < hi)
  {
    hide Inv, Pte;
    if v1.role[g].User? && v1.role[g].pd == pd {
      var x := v1.role[g].vpn;
      assert UserOk(v1, g) by { OwnerOk(data, v1, g); }
      assert UserOk(v, g) by { OwnerOk(data, v, g); }
      PteFacts(data, v, pd, x);
      if lo <= x < w {
        assert NewPage(v, v1, pd, x, PWU, ZeroPage());
      }
    }
  }

  /** A page taken before a deallocuvm and released after it leaves no trace. */
  lemma TakingUndone(v: V, v2: V, v3: V, v4: V, pd: nat, f: nat, page: Page, lo: nat, hi: nat)
    requires Taking(v, v2, f, page) && Whole(v, pd) && Shrunk(v2, v3, pd, lo, hi)
    requires |v4.mem| == |v4.role| == TOP && v4.role == v3.role[f := Free] && forall g: nat :: g < TOP && g != f ==>
             v4.mem[g] == v3.mem[g]
    requires forall x: nat :: x < 1024 * 1024 ==> Pte(v2, pd, x) == Pte(v, pd, x) && Pte(v4, pd, x) == Pte(v3, pd, x)
    ensures Shrunk(v, v4, pd, lo, hi)
  {
    hide Pte;
    forall g: nat | g < TOP ensures GoneOk(v, v4, pd, lo, hi, g) {
      assert GoneOk(v2, v3, pd, lo, hi, g);
    }
  }

  /** A held page survives deallocuvm. */
  lemma StillHeld(v: V, v2: V, v3: V, pd: nat, f: nat, page: Page, lo: nat, hi: nat)
    requires Taking(v, v2, f, page) && Shrunk(v2, v3, pd, lo, hi)
    ensures |v3.role| == TOP && f < TOP && v3.role[f] == Held
  {
    assert GoneOk(v2, v3, pd, lo, hi, f);
  }

  /** The pages from PGROUNDUP(oldsz) up to newsz are not mapped. */
  ghost predicate Room(v: V, pd: nat, oldsz: nat, newsz: nat)
    requires |v.mem| == TOP
  {
    forall w: nat :: Up(oldsz) <= w < Up(newsz) && w < UPAGES ==> !P(Pte(v, pd, w))
  }

  /** Some of the pages from lo up to hi have been added since v, perhaps one page more
      taken, and then no page was left. */
  ghost predicate RanOut(v: V, full: V, pd: nat, lo: nat, hi: nat) {
    NoneFree(full) && exists v1, w :: lo <= w < hi && Grown(v, v1, pd, lo, w) && OneInHand(v1, full, ZeroPage())
  }

  ghost predicate OneInHand(v: V, v': V, page: Page) {
    v' == v || exists f :: Taking(v, v', f, page)
  }

  /** allocuvm: newsz with exactly the missing pages added, each one new, zeroed
      and user-writable; or 0 with the old mapping and every data page restored, once in
      the state `full` no page was left.  `ok` tells the two apart when newsz is 0. */
  method Allocuvm(k: Kmem, pd: nat, oldsz: nat, newsz: nat) returns (r: nat, ghost ok: bool, ghost full: V)
    requires k.Valid() && Whole(k.St(), pd) && oldsz < TWO32 && newsz < TWO32 && Room(k.St(), pd, oldsz, newsz)
    modifies k`freelist, k`free, k`role, k.mem
    ensures k.Valid() && Whole(k.St(), pd)
    ensures newsz >= KERNBASE ==> r == 0 && !ok && k.St() == old(k.St())
    ensures newsz < oldsz && newsz < KERNBASE ==> r == oldsz && ok && k.St() == old(k.St())
    ensures oldsz <= newsz < KERNBASE ==>
              if ok then r == newsz && Grown(old(k.St()), k.St(), pd, Up(oldsz), Up(newsz))
                  else r == 0 && Restored(old(k.St()), k.St(), pd)
      ensures !ok && oldsz <= newsz < KERNBASE ==> RanOut(old(k.St()), full, pd, Up(oldsz), Up(newsz))
      ensures ok ==> forall w: nat :: w * PGSIZE < newsz && (oldsz + PGSIZE - 1) / PGSIZE <= w < UPAGES ==>
              Pte(k.St(), pd, w) % 8 == 7
  {
    hide Inv, Pte, P, Grown, Put, Taking, Restored, Shrunk, NoneFree;
    full := k.St();
    if newsz >= KERNBASE {
      return 0, false, full;
    }
    if newsz < oldsz {
      return oldsz, true, full;
    }
    ghost var v, lo, hi := k.St(), Up(oldsz), Up(newsz);
    var a := Up(oldsz) * PGSIZE;
    GrownNone(v, pd, lo);
    while a < newsz
      invariant a % PGSIZE == 0 && lo <= a / PGSIZE <= hi
      invariant k.Valid() && Whole(k.St(), pd) && Grown(v, k.St(), pd, lo, a / PGSIZE)
      decreases newsz - a
    {
      ghost var v1, w := k.St(), a / PGSIZE;
      StillRoom(v, v1, pd, oldsz, newsz, w);
      var mem, e := PutPage(k, pd, a, ZeroPage(), PTE_W + PTE_U);
      if mem == 0 || e < 0 {
        full := k.St();
        assert OneInHand(v1, full, ZeroPage());
        TakeBack(k, pd, oldsz, newsz, mem, v, v1, w);
        return 0, false, full;
      }
      GrownStep(k.data, v, v1, k.St(), pd, lo, w);
      a := a + PGSIZE;
    }
    r, ok := newsz, true;
    GrownBits(v, k.St(), pd, lo, hi);
  }

  lemma LowBits(e: nat)
    requires Flags(e) == 7
    ensures e % 8 == 7
  {
    var b := 512 * (e / 4096);
    assert e == 8 * b + 7;
    Eighths(b);
  }

  /** Present, writable and the user's. */
  lemma GrownBits(v: V, v': V, pd: nat, lo: nat, hi: nat)
    requires Grown(v, v', pd, lo, hi)
    ensures forall w: nat :: lo <= w < hi && w < UPAGES ==> Pte(v', pd, w) % 8 == 7
  {
    hide Pte;
    forall w: nat | lo <= w < hi && w < UPAGES ensures Pte(v', pd, w) % 8 == 7 {
      assert NewPage(v, v', pd, w, PWU, ZeroPage());
      LowBits(Pte(v', pd, w));
    }
  }

  lemma StillRoom(v: V, v1: V, pd: nat, oldsz: nat, newsz: nat, w: nat)
    requires Grown(v, v1, pd, Up(oldsz), w) && Room(v, pd, oldsz, newsz) && Up(oldsz) <= w &&
             w * PGSIZE < newsz < KERNBASE
    ensures w < Up(newsz) <= UPAGES && !P(Pte(v1, pd, w))
  {
  }

  /** allocuvm's two failure branches: deallocuvm, then kfree of the page that could
      not be mapped, if there is one. */
  method TakeBack(k: Kmem, pd: nat, oldsz: nat, newsz: nat, mem: nat, ghost v: V, ghost v1: V, ghost w: nat)
    requires k.Valid() && Whole(k.St(), pd) && oldsz < newsz < KERNBASE && Inv(k.data, v) && Inv(k.data, v1) &&
             Whole(v, pd) && Whole(v1, pd)
    requires Room(v, pd, oldsz, newsz) && Grown(v, v1, pd, Up(oldsz), w) && Up(oldsz) <= w <= Up(newsz)
    requires if mem == 0 then k.St() == v1
             else Taking(v1, k.St(), mem, ZeroPage()) && forall x: nat :: Pte(k.St(), pd, x) == Pte(v1, pd, x)
    modifies k`freelist, k`free, k`role, k.mem
    ensures k.Valid() && Whole(k.St(), pd) && Restored(v, k.St(), pd)
  {
    hide Inv, Pte, P, Grown, Taking, Restored, Shrunk;
    ghost var v2 := k.St();
    var r := Deallocuvm(k, pd, newsz, oldsz);
    ghost var v3 := k.St();
    if mem != 0 {
      StillHeld(v1, v2, v3, pd, mem, ZeroPage(), Up(oldsz), Up(newsz));
      k.Release(mem);
      TakingUndone(v1, v2, v3, k.St(), pd, mem, ZeroPage(), Up(oldsz), Up(newsz));
    }
    assert forall x: nat :: Up(oldsz) <= x < Up(newsz) ==> !P(Pte(v, pd, x));
    TakenBack(k.data, v, v1, k.St(), pd, Up(oldsz), w, Up(newsz));
  }

  // ---------- growproc ----------

  /** Nothing at or above sz is mapped. */
  ghost predicate Below(v: V, pd: nat, sz: nat)
    requires |v.mem| == TOP
  {
    forall w: nat :: w < UPAGES && w * PGSIZE >= sz ==> !P(Pte(v, pd, w))
  }

  lemma BelowRoom(v: V, pd: nat, sz: nat, newsz: nat)
    requires |v.mem| == TOP && Below(v, pd, sz)
    ensures Room(v, pd, sz, newsz)
  {
  }

  lemma GrownSpace(v: V, v': V, pd: nat, sz: nat, newsz: nat)
    requires Grown(v, v', pd, Up(sz), Up(newsz)) && sz <= newsz < KERNBASE
    ensures (Below(v, pd, sz) ==> Below(v', pd, newsz)) && (Space(v, pd, sz) ==> Space(v', pd, newsz))
    ensures !P(Pte(v, pd, 0)) && sz > 0 ==> !P(Pte(v', pd, 0))
  {
    forall w: nat | w < UPAGES ensures P(Pte(v', pd, w)) <==> P(Pte(v, pd, w)) || Up(sz) <= w < Up(newsz) {
      assert Up(sz) <= w < Up(newsz) ==> NewPage(v, v', pd, w, PWU, ZeroPage());
    }
  }

  lemma ShrunkSpace(v: V, v': V, pd: nat, sz: nat, newsz: nat)
    requires Shrunk(v, v', pd, Up(newsz), Up(sz)) && newsz <= sz <= KERNBASE
    ensures (Below(v, pd, sz) ==> Below(v', pd, newsz)) && (Space(v, pd, sz) ==> Space(v', pd, newsz))
    ensures !P(Pte(v, pd, 0)) && sz > 0 ==> !P(Pte(v', pd, 0))
  {
    forall w: nat | w < UPAGES ensures P(Pte(v', pd, w)) <==> P(Pte(v, pd, w)) && !(Up(newsz) <= w < Up(sz)) {
      assert Up(newsz) <= w < Up(sz) ==> Pte(v', pd, w) == 0;
    }
  }

  /** Whatever grows, shrinks or fails, pages only move between the list and pd. */
  lemma OnlyFrames(v: V, v': V, pd: nat, lo: nat, hi: nat)
    requires Whole(v, pd) && Whole(v', pd)
    ensures Grown(v, v', pd, lo, hi) || Restored(v, v', pd) || Shrunk(v, v', pd, lo, hi) ==> Frames(v, v', pd, {})
    ensures Grown(v, v', pd, lo, hi) || Restored(v, v', pd) || Shrunk(v, v', pd, lo, hi) ==> hi <= UPAGES ==>
              forall w: nat :: UPAGES <= w < 1024 * 1024 ==> Pte(v', pd, w) == Pte(v, pd, w)
  {
    hide Pte;
    if Restored(v, v', pd) {
      forall g: nat | g < TOP && g != pd ensures FrameOk(v, v', pd, {}, g) {
        assert RestoredOk(v, v', pd, g);
      }
    } else if Shrunk(v, v', pd, lo, hi) {
      forall g: nat | g < TOP && g != pd ensures FrameOk(v, v', pd, {}, g) {
        assert GoneOk(v, v', pd, lo, hi, g);
      }
    }
  }

  /** growproc's two calls, with sz + n taken modulo 2^32.  If the mapped pages were
      exactly those below the recorded size they are so again, except in one case:
      shrinking by the whole size unmaps everything but counts as a failure, so the
      size stays. */
  method Growproc(k: Kmem, pd: nat, sz: nat, n: int) returns (r: int, sz': nat, ghost full: V)
    requires k.Valid() && Whole(k.St(), pd) && sz < KERNBASE && -0x8000_0000 <= n < 0x8000_0000 && Below(k.St(), pd, sz)
    modifies k`freelist, k`free, k`role, k.mem
    ensures k.Valid() && Whole(k.St(), pd) && sz' < KERNBASE && Frames(old(k.St()), k.St(), pd, {})
    ensures Below(k.St(), pd, sz')
    ensures Space(old(k.St()), pd, sz) ==> (Space(k.St(), pd, sz') <==> !(sz > 0 && sz + n == 0))
    ensures Space(old(k.St()), pd, sz) && sz > 0 && sz + n == 0 ==> r == -1 && sz' == sz && Space(k.St(), pd, 0)
    ensures !P(Pte(old(k.St()), pd, 0)) && sz > 0 ==> sz' > 0 && !P(Pte(k.St(), pd, 0))
    ensures r == 0 || r == -1
    ensures r == -1 ==> sz' == sz
    ensures r == 0 ==> sz' == if n >= 0 || n + sz > 0 then sz + n else sz
    ensures n <= 0 ==> (r == -1 <==> n < 0 && (sz + n == 0 || sz == 0))
    ensures n > 0 && r == -1 ==> sz + n >= KERNBASE || RanOut(old(k.St()), full, pd, Up(sz), Up(sz + n))
    ensures n > 0 && sz + n >= KERNBASE ==> r == -1
    ensures forall w: nat :: UPAGES <= w < 1024 * 1024 ==> Pte(k.St(), pd, w) == Pte(old(k.St()), pd, w)
  {
    hide Inv, Pte, P, Grown, Restored, Shrunk, Frames, Below, Space, Room, Chain, RanOut;
    ghost var v := k.St();
    sz', full := sz, v;
    var newsz := (sz + n) % TWO32;
    FramesNone(v, pd);
    if n > 0 {
      BelowRoom(v, pd, sz, newsz);
      ghost var ok;
      newsz, ok, full := Allocuvm(k, pd, sz, newsz);
      OnlyFrames(v, k.St(), pd, Up(sz), Up(sz + n));
      if newsz == 0 {
        SameSpaceIf(v, k.St(), pd, sz);
        return -1, sz, full;
      }
      GrownSpace(v, k.St(), pd, sz, newsz);
      sz' := newsz;
    } else if n < 0 {
      newsz := Deallocuvm(k, pd, sz, newsz);
      OnlyFrames(v, k.St(), pd, Up(newsz), Up(sz));
      if newsz < sz { ShrunkSpace(v, k.St(), pd, sz, newsz); }
      if newsz == 0 {
        SpaceDiffers(k.St(), pd, sz);
        return -1, sz, full;
      }
      sz' := newsz;
    }
    r := 0;
  }

  lemma FramesNone(v: V, pd: nat)
    requires Whole(v, pd)
    ensures Frames(v, v, pd, {})
  {
  }

  lemma SameSpaceIf(v: V, v': V, pd: nat, sz: nat)
    requires |v.mem| == |v'.mem| == TOP && (v' == v || Restored(v, v', pd))
    ensures (Below(v, pd, sz) ==> Below(v', pd, sz)) && (Space(v, pd, sz) ==> Space(v', pd, sz))
    ensures !P(Pte(v, pd, 0)) ==> !P(Pte(v', pd, 0))
  {
  }

  lemma SpaceDiffers(v: V, pd: nat, sz: nat)
    requires |v.mem| == TOP && sz < KERNBASE && Below(v, pd, 0)
    ensures Below(v, pd, sz) && (0 < sz ==> !Space(v, pd, sz))
  {
    assert !P(Pte(v, pd, 0)) && (0 < sz ==> 0 * PGSIZE < sz);
  }

  // ---------- copyuvm ----------

  /** Page w of d is a copy, in a page that was free, of page w of src. */
  predicate CopyPage(v: V, v': V, src: nat, d: nat, w: nat)
    requires |v.mem| == |v.role| == |v'.mem| == |v'.role| == TOP
  {
    Fr(Pte(v, src, w)) < TOP && NewPage(v, v', d, w, Flags(Pte(v, src, w)), v.mem[Fr(Pte(v, src, w))])
  }

  /** d is a new address space with the kernel's mappings and copies of the first n
      user pages of src; nothing in use has changed. */
  ghost predicate Copied(data: nat, v: V, v': V, src: nat, d: nat, n: nat) {
    && FreshSpace(v, v', d)
    && forall w: nat :: w < 1024 * 1024 ==>
         if w < n then CopyPage(v, v', src, d, w) else Pte(v', d, w) == if w < UPAGES then 0 else KEntry(data, w)
  }

  lemma CopiedNone(data: nat, v: V, v': V, src: nat, d: nat)
    requires UPAGES + EXTPAGE < data < UPAGES + TOP && FreshSpace(v, v', d) && KernelPart(data, v', d, 4)
    ensures Copied(data, v, v', src, d, 0)
  {
    forall w: nat | w < 1024 * 1024 ensures Pte(v', d, w) == if w < UPAGES then 0 else KEntry(data, w) {
      assert Pte(v', d, w) == if Covered(data, 4, w) then KEntry(data, w) else 0;
    }
  }

  /** The parent's entries and pages are still there to copy. */
  lemma ParentKept(data: nat, v: V, v1: V, src: nat, d: nat, w: nat)
    requires Inv(data, v) && FreshSpace(v, v1, d) && Whole(v, src) && w < 1024 * 1024
    ensures Whole(v1, src) && d != src && Pte(v1, src, w) == Pte(v, src, w)
    ensures w < UPAGES && P(Pte(v, src, w)) ==>
              Fr(Pte(v, src, w)) < TOP && v1.mem[Fr(Pte(v, src, w))] == v.mem[Fr(Pte(v, src, w))]
  {
    hide Inv;
    assert FreshOk(v, v1, d, src);
    TableOf(data, v, src, w / 1024);
    PteFacts(data, v, src, w);
    var e := v.mem[src][w / 1024];
    if P(e) {
      assert FreshOk(v, v1, d, Fr(e));
      if w < UPAGES && P(Pte(v, src, w)) {
        assert FreshOk(v, v1, d, Fr(Pte(v, src, w)));
      }
    }
  }

  lemma CopiedStep(data: nat, v: V, v1: V, v2: V, src: nat, d: nat, w: nat)
    requires Inv(data, v) && Inv(data, v1) && Whole(v, src) && Copied(data, v, v1, src, d, w) && w < UPAGES
    requires P(Pte(v, src, w)) && Fr(Pte(v, src, w)) < TOP
    requires Put(v1, v2, d, w, Flags(Pte(v, src, w)), v.mem[Fr(Pte(v, src, w))])
    ensures Copied(data, v, v2, src, d, w + 1)
  {
    hide Inv, Pte, KEntry;
    FreshThenFrames(v, v1, v2, d);
    var next := w + 1;
    var f := Fr(Pte(v2, d, w));
    FreshRole(v, v1, d, f);
    forall x: nat | x < 1024 * 1024
      ensures if x < next then CopyPage(v, v2, src, d, x) else Pte(v2, d, x) == if x < UPAGES then 0
              else KEntry(data, x) {
      if x < w {
        assert CopyPage(v, v1, src, d, x);
        PteFacts(data, v1, d, x);
      }
    }
  }

  lemma FreshRole(v: V, v1: V, d: nat, f: nat)
    requires FreshSpace(v, v1, d) && f < TOP && v1.role[f] == Free
    ensures v.role[f] == Free
  {
    if f != d { assert FreshOk(v, v1, d, f); }
  }

  /** copyuvm: a new address space with the parent's user pages copied, flags
      included, the kernel's mappings, and the parent untouched; or 0 with the free
      pages exactly as before.  ok is false where the source panics: at page m, the
      first one missing below sz, once everything below it has been copied.  So with a
      page missing the call panics exactly when it does not fail first. */
  method Copyuvm(k: Kmem, pgdir: nat, sz: nat) returns (ok: bool, d: nat, ghost m: nat, ghost full: V)
    requires k.Valid() && Whole(k.St(), pgdir) && sz <= KERNBASE
    modifies k`freelist, k`free, k`role, k.mem
    ensures ok <==> d == 0 || PresentTo(old(k.St()), pgdir, Up(sz))
    ensures ok ==> k.Valid() && if d == 0 then Unchanged(old(k.St()), k.St())
                                else Copied(k.data, old(k.St()), k.St(), pgdir, d, Up(sz))
    ensures ok && d == 0 ==> CopyRanOut(k.data, old(k.St()), full, pgdir, Up(sz))
    ensures ok && d != 0 ==> forall w: nat :: UPAGES <= w < 1024 * 1024 ==> KernelBits(k.data, w, Pte(k.St(), d, w))
    ensures !ok ==> m < Up(sz) && PresentTo(old(k.St()), pgdir, m) && !P(Pte(old(k.St()), pgdir, m))
    ensures !ok ==> Copied(k.data, old(k.St()), k.St(), pgdir, d, m)
  {
    hide Inv, Pte, P, FreshSpace, KernelPart, Unchanged, Copied, Freed, Put, Taking, Whole, Chain, KernelBits,
         SetupRanOut, NoneFree;
    ghost var v := k.St();
    ok, m := true, 0;
    d, full := Setupkvm(k);
    if d == 0 {
      return;
    }
    CopiedNone(k.data, v, k.St(), pgdir, d);
    var i := 0;
    while i < sz
      invariant i % PGSIZE == 0 && i / PGSIZE <= Up(sz) && d != 0
      invariant k.Valid() && Copied(k.data, v, k.St(), pgdir, d, i / PGSIZE) && PresentTo(v, pgdir, i / PGSIZE)
      decreases sz - i
    {
      var done;
      ghost var v1;
      ok, done, v1, full := CopyOne(k, pgdir, d, i, v);
      if !ok {
        m := i / PGSIZE;
        return;
      }
      if !done {
        assert CopiedSome(k.data, v, v1, full, pgdir, d, i / PGSIZE);
        d := 0;
        return;
      }
      i := i + PGSIZE;
    }
    CopiedKernel(k.data, v, k.St(), pgdir, d, Up(sz));
  }

  /** No page was left for the new space itself, or for the copy of a page below n. */
  ghost predicate CopyRanOut(data: nat, v: V, full: V, src: nat, n: nat) {
    || SetupRanOut(data, v, full)
    || (NoneFree(full) && exists v1, d: nat, w: nat :: w < n && CopiedSome(data, v, v1, full, src, d, w))
  }

  ghost predicate CopiedSome(data: nat, v: V, v1: V, full: V, src: nat, d: nat, w: nat) {
    Copied(data, v, v1, src, d, w) && (full == v1 || exists f, page :: Taking(v1, full, f, page))
  }

  lemma CopiedKernel(data: nat, v: V, v': V, src: nat, d: nat, n: nat)
    requires UPAGES + EXTPAGE < data < UPAGES + TOP && Copied(data, v, v', src, d, n) && n <= UPAGES
    ensures forall w: nat :: UPAGES <= w < 1024 * 1024 ==> KernelBits(data, w, Pte(v', d, w))
    ensures KernelSafe(v', d)
  {
    hide Pte, KEntry, KernelBits;
    forall w: nat | UPAGES <= w < 1024 * 1024
      ensures KernelBits(data, w, Pte(v', d, w)) && Shielded(w, Pte(v', d, w)) {
      KEntryBits(data, w);
      BitsShield(data, w, KEntry(data, w));
    }
  }

  lemma BitsShield(data: nat, w: nat, e: nat)
    requires KernelBits(data, w, e)
    ensures Shielded(w, e)
  {
  }

  /** Every page below page n is mapped. */
  ghost predicate PresentTo(v: V, pd: nat, n: nat)
    requires |v.mem| == TOP
  {
    forall w: nat :: w < n ==> P(Pte(v, pd, w))
  }

  /** One turn of copyuvm's loop, with the cleanup at "bad" if it fails; ok is false at
      the two panics. */
  method CopyOne(k: Kmem, pgdir: nat, d: nat, i: nat, ghost v: V)
    returns (ok: bool, done: bool, ghost v1: V, ghost full: V)
    requires k.Valid() && i % PGSIZE == 0 && i < KERNBASE && Copied(k.data, v, k.St(), pgdir, d, i / PGSIZE)
    requires Inv(k.data, v) && Whole(v, pgdir)
    modifies k`freelist, k`free, k`role, k.mem
    ensures ok <==> P(Pte(v, pgdir, i / PGSIZE))
    ensures !ok ==> Copied(k.data, v, k.St(), pgdir, d, i / PGSIZE)
    ensures ok ==> k.Valid()
    ensures ok ==> if done then Copied(k.data, v, k.St(), pgdir, d, i / PGSIZE + 1) else Unchanged(v, k.St())
    ensures ok && !done ==> NoneFree(full) && CopiedSome(k.data, v, v1, full, pgdir, d, i / PGSIZE)
  {
    hide Inv, Pte, P, Fr, Flags, FreshSpace, Unchanged, Copied, Freed, Put, Taking, Chain, Whole, NoneFree;
    v1, full := k.St(), k.St();
    ghost var w := i / PGSIZE;
    NextPage(i);
    CopiedFacts(k.data, v, v1, pgdir, d, w);
    ParentKept(k.data, v, v1, pgdir, d, w);
    var t, y;
    ok, t, y := Walkpgdir(k, pgdir, i, false);
    TableMissing(v1, pgdir, w);
    done := false;
    if !ok {
      return;                      // "copyuvm: pte should exist"
    }
    PteAt(v1, pgdir, w, t, y);
    var pte := k.mem[t][y];
    if !P(pte) {
      return false, false, v1, full;      // "copyuvm: page not present"
    }
    OddFlags(pte);
    var mem, r := PutPage(k, d, i, k.mem[Fr(pte)], Flags(pte));
    done := r == 0;
    if done {
      CopiedStep(k.data, v, v1, k.St(), pgdir, d, w);
    } else {
      full := k.St();
      CopyBad(k, d, mem, v, v1);
    }
  }

  lemma CopiedFacts(data: nat, v: V, v1: V, src: nat, d: nat, w: nat)
    requires Copied(data, v, v1, src, d, w) && w < UPAGES
    ensures FreshSpace(v, v1, d) && Whole(v1, d) && !P(Pte(v1, d, w))
  {
  }

  lemma TableMissing(v: V, pd: nat, w: nat)
    requires |v.mem| == TOP && pd < TOP
    ensures w / 1024 < 1024 && !P(v.mem[pd][w / 1024]) ==> !P(Pte(v, pd, w))
  {
  }

  lemma OddFlags(e: nat)
    requires P(e)
    ensures Flags(e) < 4096 && Flags(e) % 2 == 1 && WithP(Flags(e)) == Flags(e)
  {
    assert e == e / 4096 * 4096 + e % 4096;
  }

  /** kfree of the unmapped page, if any, then freevm of the copy. */
  method CopyBad(k: Kmem, d: nat, mem: nat, ghost v: V, ghost v1: V)
    requires k.Valid() && Whole(k.St(), d) && FreshSpace(v, v1, d) && Whole(v1, d)
    requires if mem == 0 then k.St() == v1 else exists page :: Taking(v1, k.St(), mem, page)
    modifies k`freelist, k`free, k`role, k.mem
    ensures k.Valid() && Unchanged(v, k.St())
  {
    hide Inv, Freed, FreshSpace, Unchanged, Chain;
    if mem != 0 {
      k.Release(mem);
    }
    ghost var v3 := k.St();
    ReleasedFresh(v, v1, v3, d, mem);
    Freevm(k, d);
    FreshThenFreed(v, v3, k.St(), d);
  }

  lemma ReleasedFresh(v: V, v1: V, v3: V, d: nat, f: nat)
    requires FreshSpace(v, v1, d) && Whole(v3, d)
    requires f < TOP && v3.role == (if f == 0 then v1.role else v1.role[f := Free]) && (f != 0 ==> v1.role[f] == Free)
    requires forall g: nat :: g < TOP && (f == 0 || g != f) ==> v3.mem[g] == v1.mem[g]
    ensures FreshSpace(v, v3, d)
  {
    forall g: nat | g < TOP && g != d ensures FreshOk(v, v3, d, g) {
      assert FreshOk(v, v1, d, g);
    }
  }

  // ---------- clearpteu ----------

  /** e & ~PTE_U */
  function NoUser(e: nat): nat {
    if e / PTE_U % 2 == 1 then e - PTE_U else e
  }

  lemma Quarters(a: nat, d: nat)
    requires d < 4
    ensures (4 * a + d) / PTE_U == a && (P(4 * a + d) <==> d % 2 == 1)
  {
  }

  lemma SameParity(q: nat, c: nat)
    ensures (1024 * q + c) % 2 == c % 2
  {
    assert 1024 * q + c == 2 * (512 * q) + c;
  }

  lemma EntryDigits(q: nat, c: nat, d: nat)
    requires c < 1024 && d < 4
    ensures var e := 4096 * q + 4 * c + d;
            && Fr(e) == q && Flags(e) == 4 * c + d && (P(e) <==> d % 2 == 1)
            && (e / PTE_U % 2 == 1 <==> c % 2 == 1)
  {
    hide Fr, Flags, P;
    var flags := 4 * c + d;
    assert Entry(q, flags) == 4096 * q + flags;
    Quarters(1024 * q + c, d);
    SameParity(q, c);
  }

  lemma NoUserDigits(q: nat, c: nat, d: nat)
    requires c < 1024 && d < 4
    ensures var e := 4096 * q + 4 * c + d;
            && Fr(NoUser(e)) == Fr(e) && (P(NoUser(e)) <==> P(e)) && NoUser(e) / PTE_U % 2 != 1
            && Flags(NoUser(e)) == if e / PTE_U % 2 == 1 then Flags(e) - PTE_U else Flags(e)
  {
    hide Fr, Flags, P;
    EntryDigits(q, c, d);
    if c % 2 == 1 {
      var b := c - 1;
      EntryDigits(q, b, d);
      assert 4096 * q + 4 * b + d == 4096 * q + 4 * c + d - PTE_U;
    }
  }

  /** The frame and the other flags stay. */
  lemma NoUserFacts(e: nat)
    ensures Fr(NoUser(e)) == Fr(e) && (P(NoUser(e)) <==> P(e)) && NoUser(e) / PTE_U % 2 != 1
    ensures Flags(NoUser(e)) == if e / PTE_U % 2 == 1 then Flags(e) - PTE_U else Flags(e)
  {
    hide Fr, Flags, P, NoUser;
    var q, r := e / 4096, e % 4096;
    var c, d := r / 4, r % 4;
    assert e == 4096 * q + r && r == 4 * c + d;
    NoUserDigits(q, c, d);
    assert e == 4096 * q + 4 * c + d;
  }

  lemma NoEntry()
    ensures NoUser(0) == 0 && !P(0)
  {
  }

  /** New flags for a mapped page, which stays present. */
  lemma Reflag(data: nat, v: V, pd: nat, vpn: nat, e: nat)
    requires Inv(data, v) && Whole(v, pd) && vpn < UPAGES && P(v.mem[pd][vpn / 1024]) && P(Pte(v, pd, vpn))
    requires P(e) && Fr(e) == Fr(Pte(v, pd, vpn))
    ensures Fr(v.mem[pd][vpn / 1024]) < TOP
    ensures var v' := WithPte(v, pd, vpn, e);
            Inv(data, v') && Frames(v, v', pd, {}) && forall w: nat :: w < 1024 * 1024 ==>
                Pte(v', pd, w) == if w == vpn then e else Pte(v, pd, w)
  {
    TableOf(data, v, pd, vpn / 1024);
    PteFacts(data, v, pd, vpn);
    var v' := WithPte(v, pd, vpn, e);
    forall d, y ensures PdeOk(v', d, y) { assert PdeOk(v, d, y); }
    forall t ensures TableOk(v', t) { assert TableOk(v, t); }
    forall t, y ensures PteOk(data, v', t, y) { assert PteOk(data, v, t, y); assert TableOk(v, t); }
    forall u: nat ensures UserOk(v', u) {
      assert UserOk(v, u);
      if u < TOP && v'.role[u].User? {
        WithPteOthers(data, v, pd, vpn, e, v.role[u].pd, v.role[u].vpn);
      }
    }
    forall w: nat | w < 1024 * 1024 ensures Pte(v', pd, w) == if w == vpn then e else Pte(v, pd, w) {
      WithPteOthers(data, v, pd, vpn, e, pd, w);
    }
  }

  /** clearpteu: the guard page keeps its frame but loses user access; an address
      with no page loses nothing, and one with no table is the source's panic
      (ok == false).  What is mapped does not change. */
  method Clearpteu(k: Kmem, pd: nat, uva: nat) returns (ok: bool)
    requires k.Valid() && Whole(k.St(), pd) && uva < KERNBASE
    modifies k`freelist, k`free, k`role, k.mem
    ensures k.Valid() && Whole(k.St(), pd) && Frames(old(k.St()), k.St(), pd, {})
    ensures ok <==> P(old(k.St()).mem[pd][uva / PGSIZE / 1024])
    ensures !ok ==> k.St() == old(k.St())
    ensures forall w: nat :: w < 1024 * 1024 ==>
              Pte(k.St(), pd, w) == if w == uva / PGSIZE then NoUser(Pte(old(k.St()), pd, w))
                  else Pte(old(k.St()), pd, w)
    ensures forall w: nat :: w < UPAGES ==> (P(Pte(k.St(), pd, w)) <==> P(Pte(old(k.St()), pd, w)))
    ensures forall sz :: Space(k.St(), pd, sz) <==> Space(old(k.St()), pd, sz)
  {
    hide Inv, Pte, P, Fr, NoUser, Chain, Frames, Space;
    ghost var v, w, list := k.St(), uva / PGSIZE, k.mem[..];
    UserPage(uva);
    FramesNone(v, pd);
    NoEntry();
    var t, y;
    ok, t, y := Walkpgdir(k, pd, uva, false);
    NoTable(k.data, v, pd, w);
    if !ok {
      return;                      // "clearpteu"
    }
    PteAt(v, pd, w, t, y);
    NoUserFacts(Pte(v, pd, w));
    TableOf(k.data, v, pd, w / 1024);
    if P(Pte(v, pd, w)) {
      Reflag(k.data, v, pd, w, NoUser(Pte(v, pd, w)));
    } else {
      SameEntry(v, t, y);
    }
    k.SetEntry(t, y, NoUser(k.mem[t][y]));
    ChainElsewhere(list, k.mem[..], k.freelist, k.free, k.end);
    SameSpaces(v, k.St(), pd);
  }

  /** An absent entry is 0, and so is every entry of an absent table. */
  lemma NoTable(data: nat, v: V, pd: nat, w: nat)
    requires Inv(data, v) && Whole(v, pd) && w < UPAGES
    ensures !P(Pte(v, pd, w)) ==> Pte(v, pd, w) == 0
    ensures !P(v.mem[pd][w / 1024]) ==> Pte(v, pd, w) == 0
  {
    PteFacts(data, v, pd, w);
  }

  lemma SameEntry(v: V, t: nat, y: nat)
    requires t < |v.mem| && y < 1024
    ensures SetWord(v, t, y, v.mem[t][y]) == v
  {
    assert v.mem[t][y := v.mem[t][y]] == v.mem[t];
    assert v.mem[t := v.mem[t]] == v.mem;
  }

  lemma SameSpaces(v: V, v': V, pd: nat)
    requires |v.mem| == |v'.mem| == TOP
    requires forall w: nat :: w < UPAGES ==> (P(Pte(v', pd, w)) <==> P(Pte(v, pd, w)))
    ensures forall sz :: Space(v', pd, sz) <==> Space(v, pd, sz)
    ensures forall sz :: Below(v, pd, sz) ==> Below(v', pd, sz)
  {
  }

  lemma UserPage(a: nat)
    requires a < KERNBASE
    ensures a / PGSIZE < UPAGES
  {
  }

  // ---------- countphysicalpages ----------

  /** How many of the first n user pages are mapped. */
  ghost function Present(v: V, pd: nat, n: nat): (c: nat)
    requires |v.mem| == TOP
    ensures c <= n
  {
    if n == 0 then 0 else Present(v, pd, n - 1) + if P(Pte(v, pd, n - 1)) then 1 else 0
  }

  lemma {:induction false} PresentMissing(v: V, pd: nat, lo: nat, hi: nat)
    requires |v.mem| == TOP && lo <= hi && forall w: nat :: lo <= w < hi ==> Pte(v, pd, w) == 0
    ensures Present(v, pd, hi) == Present(v, pd, lo)
    decreases hi
  {
    if lo < hi {
      PresentMissing(v, pd, lo, hi - 1);
    }
  }

  /** Entry j of the table for directory entry i. */
  lemma PresentNext(v: V, pd: nat, i: nat, j: nat)
    requires |v.mem| == TOP && pd < TOP && i < 512 && j < 1024 && P(v.mem[pd][i]) && Fr(v.mem[pd][i]) < TOP
    ensures var w := 1024 * i + j;
            Present(v, pd, w + 1) == Present(v, pd, w) + if P(v.mem[Fr(v.mem[pd][i])][j]) then 1 else 0
  {
    hide P, Fr;
    var w := 1024 * i + j;
    assert w / 1024 == i && w % 1024 == j;
  }

  /** countphysicalpages' inner loop, over one table. */
  method CountTable(k: Kmem, pgdir: nat, i: nat, count0: int) returns (count: int)
    requires k.Valid() && Whole(k.St(), pgdir) && i < 512 && P(k.mem[pgdir][i])
    requires count0 == Present(k.St(), pgdir, 1024 * i)
    ensures count == Present(k.St(), pgdir, 1024 * i + 1024)
  {
    hide Inv, Chain, Present, P, Fr;
    ghost var v := k.St();
    count := count0;
    var e := k.mem[pgdir][i];
    TableOf(k.data, v, pgdir, i);
    var j := 0;
    while j < NPTENTRIES
      invariant 0 <= j <= NPTENTRIES && count == Present(v, pgdir, 1024 * i + j)
    {
      PresentNext(v, pgdir, i, j);
      if P(k.mem[Fr(e)][j]) {
        count := count + 1;
      }
      j := j + 1;
    }
  }

  /** countphysicalpages: the pages mapped below KERNBASE, which the first 512
      directory entries cover exactly. */
  method Countphysicalpages(k: Kmem, pgdir: nat) returns (count: int)
    requires k.Valid() && Whole(k.St(), pgdir)
    ensures count == Present(k.St(), pgdir, UPAGES)
  {
    hide Inv, Chain;
    count := 0;
    var i := 0;
    while i < 512
      invariant 0 <= i <= 512 && count == Present(k.St(), pgdir, 1024 * i)
    {
      if P(k.mem[pgdir][i]) {
        count := CountTable(k, pgdir, i, count);
      } else {
        PresentMissing(k.St(), pgdir, 1024 * i, 1024 * i + 1024);
      }
      i := i + 1;
    }
  }

  lemma {:induction false} PresentBelow(v: V, pd: nat, sz: nat, n: nat)
    requires |v.mem| == TOP && Space(v, pd, sz) && n <= UPAGES
    ensures Present(v, pd, n) == Least(n, Up(sz))
  {
    if n > 0 {
      PresentBelow(v, pd, sz, n - 1);
    }
  }

  /** In an address space of size sz the count is ceil(sz / PGSIZE). */
  lemma CountIsCeil(v: V, pd: nat, sz: nat)
    requires |v.mem| == TOP && Space(v, pd, sz) && sz <= KERNBASE
    ensures Present(v, pd, UPAGES) == Up(sz)
  {
    PresentBelow(v, pd, sz, UPAGES);
  }

  /** A copy of an address space of size sz is one too, so it counts the same. */
  lemma CopySpace(data: nat, v: V, v': V, src: nat, d: nat, sz: nat)
    requires Copied(data, v, v', src, d, Up(sz)) && sz <= KERNBASE
    ensures Space(v', d, sz)
  {
    forall w: nat | w < UPAGES ensures P(Pte(v', d, w)) <==> w * PGSIZE < sz {
      assert w < Up(sz) <==> w * PGSIZE < sz;
    }
  }
}
