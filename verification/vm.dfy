/** Address spaces (vm.c) over the page allocator.

    Virtual addresses and sizes are 32-bit byte addresses.  A page directory is
    named by its frame; a page table entry by its table's frame and its index. */
module Vm {
  import opened PageTables
  import opened Kalloc
  import opened Params

  function PDX(va: nat): nat {
    va / 0x40_0000 % 1024
  }

  function PTX(va: nat): nat {
    va / PGSIZE % 1024
  }

  /** pa | perm | PTE_P, for a page-aligned pa. */
  function WithP(flags: nat): (r: nat)
    requires flags < 4096
    ensures r < 4096 && r % 2 == 1
  {
    if flags % 2 == 1 then flags else flags + 1
  }

  predicate Whole(v: V, pd: nat)
    ensures Whole(v, pd) ==> |v.mem| == |v.role| == TOP && pd < TOP
  {
    |v.mem| == |v.role| == TOP && IsDir(v, pd) && v.role[pd].low == 0
  }

  /** Free, or a page of address space pd other than the directory. */
  predicate Mine(r: Role, pd: nat) {
    r == Free || (r.Table? && r.pd == pd) || (r.User? && r.pd == pd)
  }

  /** Pages only move between the free list and address space pd; the pages of
      everyone else, kernel pages included, keep their role and contents.  The held
      pages in hs may become pd's. */
  ghost predicate Frames(v: V, v': V, pd: nat, hs: set<nat>) {
    && |v.mem| == |v.role| == |v'.mem| == |v'.role| == TOP && pd < TOP && v'.role[pd] == v.role[pd]
    && forall f: nat :: f < TOP && f != pd ==> FrameOk(v, v', pd, hs, f)
  }

  predicate FrameOk(v: V, v': V, pd: nat, hs: set<nat>, f: nat)
    requires |v.mem| == |v.role| == |v'.mem| == |v'.role| == TOP && f < TOP
  {
    if Mine(v.role[f], pd) then Mine(v'.role[f], pd)
    else if f in hs then v'.role[f] == v.role[f] || Mine(v'.role[f], pd)
    else v'.role[f] == v.role[f] && v'.mem[f] == v.mem[f]
  }

  /** No user page is let go or written, and no table is let go. */
  ghost predicate UsersKept(v: V, v': V)
    requires |v.mem| == |v.role| == |v'.mem| == |v'.role| == TOP
  {
    forall f: nat :: f < TOP && (v.role[f].User? || v.role[f].Table?) ==>
      v'.role[f] == v.role[f] && (v.role[f].User? ==> v'.mem[f] == v.mem[f])
  }

  /** The page allocator has nothing left. */
  ghost predicate NoneFree(v: V) {
    |v.role| == TOP && forall f: nat :: f < TOP ==> v.role[f] != Free
  }

  lemma FramesTwice(v: V, v1: V, v2: V, pd: nat, h1: set<nat>, h2: set<nat>, hs: set<nat>)
    requires Frames(v, v1, pd, h1) && Frames(v1, v2, pd, h2) && h1 <= hs && h2 <= hs
    ensures Frames(v, v2, pd, hs)
  {
    forall f: nat | f < TOP && f != pd ensures FrameOk(v, v2, pd, hs, f) {
      assert FrameOk(v, v1, pd, h1, f) && FrameOk(v1, v2, pd, h2, f);
    }
  }

  /** Pte is the entry that the processor's walk over the two levels finds, and a present
      directory entry restricts nothing. */
  lemma Walks(data: nat, v: V, pd: nat, va: nat)
    requires Inv(data, v) && Whole(v, pd) && va < TWO32
    ensures va / 0x40_0000 < 1024
    ensures var pde := v.mem[pd][va / 0x40_0000];
            if pde % 2 == 1 then
              && pde / 4096 < TOP && pde / 2 % 2 == 1 && pde / 4 % 2 == 1
              && Pte(v, pd, va / 4096) == v.mem[pde / 4096][va / 4096 % 1024]
            else pde == 0 && Pte(v, pd, va / 4096) == 0
  {
    Indices(va);
    assert va / 0x40_0000 == va / 4096 / 1024;
    TableOf(data, v, pd, va / 4096 / 1024);
    var pde := v.mem[pd][va / 0x40_0000];
    if P(pde) { Seven(Fr(pde)); }
  }

  lemma Seven(f: nat)
    ensures var e := Entry(f, 7); e / 2 % 2 == 1 && e / 4 % 2 == 1 && e / 4096 == f
  {
    var b := 512 * f;
    assert Entry(f, 7) == 8 * b + 7;
    Eighths(b);
    assert (8 * b + 7) / 4096 == f;
  }

  lemma Eighths(b: nat)
    ensures (8 * b + 7) / 2 == 4 * b + 3 && (8 * b + 7) / 4 == 2 * b + 1
    ensures (4 * b + 3) % 2 == 1 && (2 * b + 1) % 2 == 1 && (8 * b + 7) % 8 == 7
  {
  }

  /** Another address space is untouched: the same entries, the same user pages. */
  lemma OtherSpaces(data: nat, v: V, v': V, pd: nat, d: nat, vpn: nat)
    requires Inv(data, v) && Frames(v, v', pd, {}) && Whole(v, pd) && Whole(v, d) && d != pd && vpn < 1024 * 1024
    ensures Whole(v', d) && Pte(v', d, vpn) == Pte(v, d, vpn)
    ensures var e := Pte(v, d, vpn); vpn < UPAGES && P(e) ==>
            Fr(e) < TOP && v'.mem[Fr(e)] == v.mem[Fr(e)] && v'.role[Fr(e)] == v.role[Fr(e)]
  {
    assert FrameOk(v, v', pd, {}, d);
    TableOf(data, v, d, vpn / 1024);
    PteFacts(data, v, d, vpn);
    var e := v.mem[d][vpn / 1024];
    if P(e) {
      assert FrameOk(v, v', pd, {}, Fr(e));
      if vpn < UPAGES && P(Pte(v, d, vpn)) {
        assert FrameOk(v, v', pd, {}, Fr(Pte(v, d, vpn)));
      }
    }
  }

  /** walkpgdir's effect: at most one free page becomes a table of pd. */
  ghost predicate Walked(v: V, v': V, pd: nat) {
    && |v.mem| == |v.role| == |v'.mem| == |v'.role| == TOP && pd < TOP && v'.role[pd] == v.role[pd]
    && (forall f: nat :: f < TOP && f != pd ==>
          (v'.role[f] == v.role[f] && v'.mem[f] == v.mem[f]) ||
              (v.role[f] == Free && v'.role[f].Table? && v'.role[f].pd == pd))
    && (forall d: nat, vpn: nat :: IsDir(v, d) && v.role[d].low <= vpn / 1024 ==> Pte(v', d, vpn) == Pte(v, d, vpn))
  }

  lemma WalkedSelf(v: V, pd: nat)
    requires |v.mem| == |v.role| == TOP && pd < TOP
    ensures Walked(v, v, pd)
  {
  }

  /** The two indices are the halves of the virtual page number. */
  lemma Indices(va: nat)
    requires va < TWO32
    ensures PDX(va) == va / PGSIZE / 1024 < 1024 && PTX(va) == va / PGSIZE % 1024
  {
    assert va / 0x40_0000 == va / 4096 / 1024;
  }

  /** walkpgdir's new table: a zeroed page entered in the directory. */
  method MakeTable(k: Kmem, pd: nat, x: nat) returns (t: nat)
    requires k.Valid() && Whole(k.St(), pd) && x < 1024 && !P(k.St().mem[pd][x])
    modifies k`freelist, k`free, k`role, k.mem
    ensures k.Valid() && Walked(old(k.St()), k.St(), pd)
    ensures t == 0 ==> k.St() == old(k.St()) && k.free == old(k.free) && forall f: nat :: f < TOP ==> k.role[f] != Free
    ensures t != 0 ==> t < TOP && P(k.St().mem[pd][x]) && Fr(k.St().mem[pd][x]) == t
  {
    hide Inv, Pte, P, Fr, Walked, Chain;
    ghost var v := k.St();
    WalkedSelf(v, pd);
    t := k.Kalloc();
    if t != 0 {
      ghost var v1, list := k.St(), k.mem[..];
      k.SetPage(t, ZeroPage());
      ghost var v2 := k.St();
      k.SetEntry(pd, x, Entry(t, 7));
      k.role := k.role[t := Table(pd, x)];
      WalkNew(k.data, v, v1, v2, k.St(), pd, x, t);
      ChainElsewhere(list, k.mem[..], k.freelist, k.free, k.end);
    }
  }

  /** walkpgdir: the place of the entry for va, with its table created if asked
      for.  It fails exactly when the table is missing and may not, or for want of
      a page cannot, be made. */
  method Walkpgdir(k: Kmem, pd: nat, va: nat, alloc: bool) returns (ok: bool, t: nat, y: nat)
    requires k.Valid() && Whole(k.St(), pd) && va < TWO32
    modifies k`freelist, k`free, k`role, k.mem
    ensures k.Valid() && Walked(old(k.St()), k.St(), pd)
    ensures ok ==> PointsAt(k.St(), pd, va / PGSIZE, t, y)
    ensures !ok || !alloc ==> k.St() == old(k.St()) && k.free == old(k.free)
    ensures !ok ==> va / PGSIZE / 1024 < 1024 && !P(k.St().mem[pd][va / PGSIZE / 1024])
    ensures !ok && alloc ==> forall f: nat :: f < TOP ==> k.role[f] != Free
  {
    hide Inv, Pte, PDX, PTX, P, Fr, Walked, Chain;
    Indices(va);
    WalkedSelf(k.St(), pd);
    var pde := k.mem[pd][PDX(va)];
    ok, t, y := true, 0, PTX(va);
    if P(pde) {
      TableOf(k.data, k.St(), pd, PDX(va));
      t := Fr(pde);
    } else {
      if !alloc {
        return false, 0, 0;
      }
      t := MakeTable(k, pd, PDX(va));
      if t == 0 {
        return false, 0, 0;
      }
    }
  }

  /** Table t, index y is where the entry for virtual page vpn is. */
  predicate PointsAt(v: V, pd: nat, vpn: nat, t: nat, y: nat) {
    && |v.mem| == TOP && pd < TOP && vpn / 1024 < 1024 && P(v.mem[pd][vpn / 1024])
    && t == Fr(v.mem[pd][vpn / 1024]) < TOP && y == vpn % 1024
  }

  lemma WalkNew(data: nat, v: V, v1: V, v2: V, v3: V, pd: nat, x: nat, t: nat)
    requires Inv(data, v) && Whole(v, pd) && x < 1024 && !P(v.mem[pd][x]) && t < TOP && v.role[t] == Free
    requires v1 == SetRole(v, t, Held) && v2 == V(v1.mem[t := ZeroPage()], v1.role) && v3 == WithTable(v2, pd, x, t)
    ensures Inv(data, v3) && Walked(v, v3, pd) && P(v3.mem[pd][x]) && Fr(v3.mem[pd][x]) == t
  {
    hide PdeOk, TableOk, PteOk, UserOk;
    Reassign(data, v, t, Held);
    WriteHeld(data, v1, t, ZeroPage());
    NewTable(data, v2, pd, x, t);
    forall d: nat, vpn: nat | IsDir(v, d) && v.role[d].low <= vpn / 1024 ensures Pte(v3, d, vpn) == Pte(v, d, vpn) {
      assert IsDir(v1, d) && IsDir(v2, d);
      assert Pte(v1, d, vpn) == Pte(v, d, vpn);
      assert Pte(v2, d, vpn) == Pte(v1, d, vpn);
    }
  }

  // ---------- mappages ----------

  /** The entries of pd with page vpn now mapped by e. */
  ghost predicate OneMore(v: V, v': V, pd: nat, vpn: nat, e: nat)
    requires |v.mem| == |v'.mem| == TOP
  {
    forall w: nat :: w < 1024 * 1024 ==> Pte(v', pd, w) == if w == vpn then e else Pte(v, pd, w)
  }

  /** What mappages may be asked to map at vpn: a held page below KERNBASE, the
      kernel's own page above. */
  predicate Target(data: nat, v: V, vpn: nat, f: nat, perm: nat)
    requires |v.role| == TOP && perm < 4096
  {
    if vpn < UPAGES then f < TOP && v.role[f] == Held else KEntry(data, vpn) == Entry(f, WithP(perm))
  }

  /** One turn of mappages' loop. */
  method MapOne(k: Kmem, pd: nat, a: nat, pa: nat, perm: nat) returns (ok: bool)
    requires k.Valid() && Whole(k.St(), pd) && a < TWO32 && a % PGSIZE == 0 && pa % PGSIZE == 0 && perm < 4096
    requires Target(k.data, k.St(), a / PGSIZE, pa / PGSIZE, perm) && !P(Pte(k.St(), pd, a / PGSIZE))
    modifies k`freelist, k`free, k`role, k.mem
    ensures k.Valid() && Whole(k.St(), pd)
    ensures !ok ==> k.St() == old(k.St()) && forall f: nat :: f < TOP ==> k.role[f] != Free
    ensures ok ==> OneMore(old(k.St()), k.St(), pd, a / PGSIZE, Entry(pa / PGSIZE, WithP(perm)))
    ensures UsersKept(old(k.St()), k.St())
    ensures ok ==> Frames(old(k.St()), k.St(), pd, if a / PGSIZE < UPAGES then {pa / PGSIZE} else {})
    ensures ok && a / PGSIZE < UPAGES ==>
            k.St().role[pa / PGSIZE] == User(pd, a / PGSIZE) && k.St().mem[pa / PGSIZE] == old(k.St()).mem[pa / PGSIZE]
  {
    hide Inv, Pte, P, Fr, Walked, Chain, Frames, OneMore, KEntry;
    var t, y;
    ghost var v := k.St();
    ghost var vpn, f := a / PGSIZE, pa / PGSIZE;
    ok, t, y := Walkpgdir(k, pd, a, true);
    if !ok {
      return;
    }
    ghost var v1, list := k.St(), k.mem[..];
    WalkedTarget(k.data, v, v1, pd, vpn, f, perm, t, y);
    assert !P(k.mem[t][y]);        // else "remap"
    k.SetEntry(t, y, pa + WithP(perm));
    if a / PGSIZE < UPAGES {
      k.role := k.role[f := User(pd, vpn)];
    }
    MapDone(k.data, v, v1, k.St(), pd, vpn, f, perm, t, y);
    assert f < TOP ==> (f in k.free ==> k.role[f] == Free || vpn < UPAGES);
    ChainElsewhere(list, k.mem[..], k.freelist, k.free, k.end);
  }

  lemma WalkedTarget(data: nat, v: V, v1: V, pd: nat, vpn: nat, f: nat, perm: nat, t: nat, y: nat)
    requires Inv(data, v) && Inv(data, v1) && Whole(v, pd) && Walked(v, v1, pd) && vpn < 1024 * 1024 && perm < 4096
    requires Target(data, v, vpn, f, perm) && !P(Pte(v, pd, vpn)) && PointsAt(v1, pd, vpn, t, y)
    ensures Whole(v1, pd) && Target(data, v1, vpn, f, perm) && !P(v1.mem[t][y]) && Pte(v1, pd, vpn) == Pte(v, pd, vpn)
    ensures v1.role[t] == Table(pd, vpn / 1024)
  {
    TableOf(data, v1, pd, vpn / 1024);
    assert Pte(v1, pd, vpn) == v1.mem[t][y];
  }

  lemma MapDone(data: nat, v: V, v1: V, v2: V, pd: nat, vpn: nat, f: nat, perm: nat, t: nat, y: nat)
    requires Inv(data, v) && Inv(data, v1) && Whole(v, pd) && Walked(v, v1, pd) && vpn < 1024 * 1024 && perm < 4096
    requires Target(data, v, vpn, f, perm) && !P(Pte(v, pd, vpn)) && PointsAt(v1, pd, vpn, t, y)
    requires var e := Entry(f, WithP(perm));
             v2 == if vpn < UPAGES then SetRole(SetWord(v1, t, y, e), f, User(pd, vpn)) else SetWord(v1, t, y, e)
    ensures Inv(data, v2) && Whole(v2, pd) && OneMore(v, v2, pd, vpn, Entry(f, WithP(perm)))
    ensures Frames(v, v2, pd, if vpn < UPAGES then {f} else {}) && UsersKept(v, v2)
    ensures vpn < UPAGES ==> v2.role[f] == User(pd, vpn) && v2.mem[f] == v.mem[f]
  {
    hide PdeOk, TableOk, PteOk, UserOk, KEntry, Inv;
    WalkedTarget(data, v, v1, pd, vpn, f, perm, t, y);
    var e := Entry(f, WithP(perm));
    var vw := WithPte(v1, pd, vpn, e);
    if vpn < UPAGES {
      MapUser(data, v1, pd, vpn, f, WithP(perm));
      WithPteSame(v1, pd, vpn, e, f, User(pd, vpn));
    } else {
      MapKernel(data, v1, pd, vpn);
    }
    forall w: nat | w < 1024 * 1024 ensures Pte(v2, pd, w) == if w == vpn then e else Pte(v, pd, w) {
      WithPteOthers(data, v1, pd, vpn, e, pd, w);
      assert Pte(v2, pd, w) == Pte(vw, pd, w);
      assert Pte(v1, pd, w) == Pte(v, pd, w);
    }
  }

  /** Pages first to first + n - 1 now map frames f, f + 1, ... */
  ghost predicate RangeMapped(v: V, v': V, pd: nat, first: nat, n: nat, f: nat, perm: nat)
    requires |v.mem| == |v'.mem| == TOP && perm < 4096
  {
    forall w: nat :: w < 1024 * 1024 ==>
      Pte(v', pd, w) == if first <= w < first + n then Entry(f + (w - first), WithP(perm)) else Pte(v, pd, w)
  }

  /** The frames a user mapping takes over. */
  function Taken(first: nat, n: nat, f: nat): set<nat> {
    if first < UPAGES then Range(f, f + n) else {}
  }

  ghost predicate Handed(v: V, v': V, pd: nat, first: nat, n: nat, f: nat)
    requires |v.mem| == |v'.mem| == |v'.role| == TOP
  {
    first < UPAGES ==> forall x: nat :: f <= x < f + n && x < TOP ==>
        v'.role[x] == User(pd, first + (x - f)) && v'.mem[x] == v.mem[x]
  }

  ghost predicate Ready(data: nat, v: V, pd: nat, first: nat, n: nat, f: nat, perm: nat, i: nat)
    requires |v.mem| == |v.role| == TOP && perm < 4096
  {
    i < n ==> Target(data, v, first + i, f + i, perm) && !P(Pte(v, pd, first + i))
  }

  /** The number of pages mappages maps. */
  function Pages(va: nat, size: nat): nat
    requires size > 0
  {
    (va + size - 1) / PGSIZE - va / PGSIZE + 1
  }

  /** Everything mappages has done after m pages. */
  ghost predicate Mapping(v: V, v': V, pd: nat, first: nat, m: nat, f: nat, perm: nat) {
    && Frames(v, v', pd, Taken(first, m, f)) && UsersKept(v, v') && perm < 4096
    && RangeMapped(v, v', pd, first, m, f, perm) && Handed(v, v', pd, first, m, f) && (m == 0 ==> v' == v)
  }

  /** mappages: the whole range is mapped, or -1 when memory runs out, with the
      pages before that point (m of them) mapped.  "remap" cannot happen. */
  method Mappages(k: Kmem, pd: nat, va: nat, size: nat, pa: nat, perm: nat) returns (r: int, ghost m: nat)
    requires k.Valid() && Whole(k.St(), pd) && size > 0 && va + size <= TWO32 && pa % PGSIZE == 0 && perm < 4096
    requires va < KERNBASE ==> va + size <= KERNBASE
    requires forall i: nat :: Ready(k.data, k.St(), pd, va / PGSIZE, Pages(va, size), pa / PGSIZE, perm, i)
    modifies k`freelist, k`free, k`role, k.mem
    ensures k.Valid() && Whole(k.St(), pd)
    ensures (r == 0 && m == Pages(va, size)) ||
            (r == -1 && m < Pages(va, size) && forall f: nat :: f < TOP ==> k.role[f] != Free)
    ensures Mapping(old(k.St()), k.St(), pd, va / PGSIZE, m, pa / PGSIZE, perm)
  {
    hide Inv, Pte, P, Fr, Chain, KEntry, OneMore, Mapping, Ready, Frames, UsersKept;
    var a := va / PGSIZE * PGSIZE;
    var last := (va + size - 1) % TWO32 / PGSIZE * PGSIZE;
    var pa' := pa;
    ghost var v, first, f, n := k.St(), va / PGSIZE, pa / PGSIZE, Pages(va, size);
    m := 0;
    MappingNone(v, pd, first, f, perm);
    while true
      invariant a == (first + m) * PGSIZE <= last && pa' == (f + m) * PGSIZE
      invariant k.Valid() && Whole(k.St(), pd) && Mapping(v, k.St(), pd, first, m, f, perm)
      decreases last - a
    {
      ghost var v1 := k.St();
      MappingReady(k.data, v, v1, pd, first, m, n, f, perm);
      var ok := MapOne(k, pd, a, pa', perm);
      if !ok {
        return -1, m;
      }
      MappingStep(v, v1, k.St(), pd, first, m, f, perm);
      m := m + 1;
      if a == last {
        return 0, m;
      }
      a, pa' := a + PGSIZE, pa' + PGSIZE;
    }
  }

  lemma MappingNone(v: V, pd: nat, first: nat, f: nat, perm: nat)
    requires |v.mem| == |v.role| == TOP && pd < TOP && perm < 4096
    ensures Mapping(v, v, pd, first, 0, f, perm)
  {
    assert Taken(first, 0, f) == {};
  }

  lemma MappingReady(data: nat, v: V, v1: V, pd: nat, first: nat, m: nat, n: nat, f: nat, perm: nat)
    requires Mapping(v, v1, pd, first, m, f, perm) && m < n && first + n <= 1024 * 1024 &&
             (first < UPAGES ==> first + n <= UPAGES)
    requires Inv(data, v) && Whole(v, pd) && forall i: nat :: Ready(data, v, pd, first, n, f, perm, i)
    ensures Target(data, v1, first + m, f + m, perm) && !P(Pte(v1, pd, first + m))
    ensures first < UPAGES ==> first + m < UPAGES && f + m < TOP && v1.mem[f + m] == v.mem[f + m]
  {
    assert Ready(data, v, pd, first, n, f, perm, m);
    if first < UPAGES {
      assert FrameOk(v, v1, pd, Taken(first, m, f), f + m);
    }
  }

  lemma MappingStep(v: V, v1: V, v2: V, pd: nat, first: nat, m: nat, f: nat, perm: nat)
    requires |v2.mem| == |v2.role| == TOP && Mapping(v, v1, pd, first, m, f, perm) && UsersKept(v1, v2)
    requires first < UPAGES ==> first + m < UPAGES && f + m < TOP && v1.mem[f + m] == v.mem[f + m]
    requires OneMore(v1, v2, pd, first + m, Entry(f + m, WithP(perm)))
    requires Frames(v1, v2, pd, if first + m < UPAGES then {f + m} else {})
    requires first < UPAGES ==> v2.role[f + m] == User(pd, first + m) && v2.mem[f + m] == v1.mem[f + m]
    ensures Mapping(v, v2, pd, first, m + 1, f, perm)
  {
    FramesTwice(v, v1, v2, pd, Taken(first, m, f), if first + m < UPAGES then {f + m} else {}, Taken(first, m + 1, f));
    var end := m + 1;
    if first < UPAGES {
      forall x: nat | f <= x < f + end && x < TOP
          ensures v2.role[x] == User(pd, first + (x - f)) && v2.mem[x] == v.mem[x] {
        assert x == f + m || v1.role[x] == User(pd, first + (x - f));
      }
    }
  }

  // ---------- deallocuvm ----------

  /** PGROUNDUP(sz) / PGSIZE */
  function Up(sz: nat): nat {
    (sz + PGSIZE - 1) / PGSIZE
  }

  /** Exactly the user pages lo up to hi are gone from pd and back on the free list. */
  ghost predicate Shrunk(v: V, v': V, pd: nat, lo: nat, hi: nat) {
    && |v.mem| == |v.role| == |v'.mem| == |v'.role| == TOP && pd < TOP
    && (forall w: nat :: w < 1024 * 1024 ==> Pte(v', pd, w) == if lo <= w < hi then 0 else Pte(v, pd, w))
    && (forall g: nat :: g < TOP ==> GoneOk(v, v', pd, lo, hi, g))
  }

  predicate GoneOk(v: V, v': V, pd: nat, lo: nat, hi: nat, g: nat)
    requires |v.mem| == |v.role| == |v'.mem| == |v'.role| == TOP && g < TOP
  {
    var r := v.role[g];
    if r.User? && r.pd == pd && lo <= r.vpn < hi then v'.role[g] == Free
    else v'.role[g] == r && (r == Free || (r.Table? && r.pd == pd) || v'.mem[g] == v.mem[g])
  }

  lemma ShrunkNone(v: V, pd: nat, lo: nat)
    requires |v.mem| == |v.role| == TOP && pd < TOP
    ensures Shrunk(v, v, pd, lo, lo)
  {
  }

  lemma ShrunkTwice(v: V, v1: V, v2: V, pd: nat, lo: nat, mid: nat, hi: nat)
    requires Shrunk(v, v1, pd, lo, mid) && Shrunk(v1, v2, pd, mid, hi) && lo <= mid <= hi
    ensures Shrunk(v, v2, pd, lo, hi)
  {
    forall g: nat | g < TOP ensures GoneOk(v, v2, pd, lo, hi, g) {
      assert GoneOk(v, v1, pd, lo, mid, g) && GoneOk(v1, v2, pd, mid, hi, g);
    }
  }

  /** A stretch with nothing mapped may be passed over. */
  lemma ShrunkSkip(data: nat, v: V, pd: nat, lo: nat, hi: nat)
    requires Inv(data, v) && Whole(v, pd) && forall w: nat :: lo <= w < hi ==> Pte(v, pd, w) == 0
    ensures Shrunk(v, v, pd, lo, hi)
  {
    forall g: nat | g < TOP ensures GoneOk(v, v, pd, lo, hi, g) {
      assert UserOk(v, g);
    }
  }

  lemma ShrunkOne(data: nat, v: V, pd: nat, vpn: nat, page: Page)
    requires Inv(data, v) && Whole(v, pd) && vpn < UPAGES && P(v.mem[pd][vpn / 1024]) && P(Pte(v, pd, vpn))
    ensures var t, f := Fr(v.mem[pd][vpn / 1024]), Fr(Pte(v, pd, vpn));
            && t < TOP && f < TOP && f != t && v.role[f] == User(pd, vpn) && v.role[t] == Table(pd, vpn / 1024)
            && var v' := V(v.mem[f := page][t := v.mem[t][vpn % 1024 := 0]], v.role[f := Free]);
               Inv(data, v') && Whole(v', pd) && Shrunk(v, v', pd, vpn, vpn + 1)
  {
    hide Inv, PdeOk, TableOk, PteOk;
    Unmap(data, v, pd, vpn, page);
    var t, f := Fr(v.mem[pd][vpn / 1024]), Fr(Pte(v, pd, vpn));
    var v1 := WithPte(v, pd, vpn, 0);
    var v' := V(v.mem[f := page][t := v.mem[t][vpn % 1024 := 0]], v.role[f := Free]);
    forall w: nat | w < 1024 * 1024 ensures Pte(v', pd, w) == if w == vpn then 0 else Pte(v, pd, w) {
      WithPteOthers(data, v, pd, vpn, 0, pd, w);
      TableOf(data, v, pd, w / 1024);
      assert Pte(v', pd, w) == Pte(v1, pd, w);
    }
    var next := vpn + 1;
    forall g: nat | g < TOP ensures GoneOk(v, v', pd, vpn, next, g) {
      assert UserOk(v, g) by { OwnerOk(data, v, g); }
    }
  }

  /** kfree(v); *pte = 0; */
  method DropPage(k: Kmem, pd: nat, t: nat, y: nat, ghost vpn: nat)
    requires k.Valid() && Whole(k.St(), pd) && PointsAt(k.St(), pd, vpn, t, y) && vpn < UPAGES && P(k.St().mem[t][y])
    modifies k`freelist, k`free, k`role, k.mem
    ensures k.Valid() && Whole(k.St(), pd) && Shrunk(old(k.St()), k.St(), pd, vpn, vpn + 1)
  {
    hide Inv, Shrunk, Chain, P, Fr;
    ghost var v, next := k.St(), k.freelist;
    assert k.mem[t][y] == Pte(v, pd, vpn);
    ShrunkOne(k.data, v, pd, vpn, JunkPage(next));
    var f := Fr(k.mem[t][y]);
    k.Kfree(f);
    ghost var list := k.mem[..];
    k.SetEntry(t, y, 0);
    k.role := k.role[f := Free];
    ChainElsewhere(list, k.mem[..], k.freelist, k.free, k.end);
    assert k.mem[..] == v.mem[f := JunkPage(next)][t := v.mem[t][vpn % 1024 := 0]];
  }

  /** The jump over a missing table ends at the start of the next one. */
  lemma SkipTo(a: nat)
    requires a < KERNBASE && a % PGSIZE == 0
    ensures var a' := (PDX(a) + 1) * 0x40_0000;
            PGSIZE <= a' && a' % PGSIZE == 0 && a' / PGSIZE == 1024 * (a / PGSIZE / 1024 + 1) && a < a'
  {
    Indices(a);
  }

  method DropEntry(k: Kmem, pd: nat, t: nat, y: nat, ghost w: nat)
    requires k.Valid() && Whole(k.St(), pd) && PointsAt(k.St(), pd, w, t, y) && w < UPAGES
    modifies k`freelist, k`free, k`role, k.mem
    ensures k.Valid() && Whole(k.St(), pd) && Shrunk(old(k.St()), k.St(), pd, w, w + 1)
  {
    hide Inv, Shrunk, P, Fr, Pte;
    PteAt(k.St(), pd, w, t, y);
    if P(k.mem[t][y]) {
      DropPage(k, pd, t, y, w);
    } else {
      PteFacts(k.data, k.St(), pd, w);
      ShrunkSkip(k.data, k.St(), pd, w, w + 1);
    }
  }

  /** One turn of deallocuvm's loop, the step to the next address included. */
  method DropAt(k: Kmem, pd: nat, a: nat, ghost hi: nat) returns (a': nat)
    requires k.Valid() && Whole(k.St(), pd) && a < KERNBASE && a % PGSIZE == 0 && a / PGSIZE < hi
    modifies k`freelist, k`free, k`role, k.mem
    ensures k.Valid() && Whole(k.St(), pd) && a' % PGSIZE == 0 && a < a'
    ensures Shrunk(old(k.St()), k.St(), pd, a / PGSIZE, Least(a' / PGSIZE, hi))
  {
    hide Inv, Shrunk, P, Fr, Pte, PDX, Least, Chain, Walked, Whole;
    ghost var v, w := k.St(), a / PGSIZE;
    NextPage(a);
    var ok, t, y := Walkpgdir(k, pd, a, false);
    if !ok {
      SkipTo(a);
      SkipTable(k.data, v, pd, w, hi);
      a' := (PDX(a) + 1) * 0x40_0000 - PGSIZE;
    } else {
      DropEntry(k, pd, t, y, w);
      a' := a;
    }
    LeastNext(w, hi);
    a' := a' + PGSIZE;
  }

  lemma NextPage(a: nat)
    requires a < KERNBASE && a % PGSIZE == 0
    ensures (a + PGSIZE) % PGSIZE == 0 && (a + PGSIZE) / PGSIZE == a / PGSIZE + 1 && a / PGSIZE < UPAGES
  {
  }

  lemma LeastNext(w: nat, hi: nat)
    requires w < hi
    ensures Least(w + 1, hi) == w + 1
  {
  }

  /** deallocuvm: exactly the pages from PGROUNDUP(newsz) up to oldsz are unmapped
      and freed, however far the walk jumps over missing tables. */
  method Deallocuvm(k: Kmem, pd: nat, oldsz: nat, newsz: nat) returns (r: nat)
    requires k.Valid() && Whole(k.St(), pd) && oldsz <= KERNBASE
    modifies k`freelist, k`free, k`role, k.mem
    ensures k.Valid() && Whole(k.St(), pd)
    ensures r == if newsz >= oldsz then oldsz else newsz
    ensures if newsz >= oldsz then k.St() == old(k.St()) else Shrunk(old(k.St()), k.St(), pd, Up(newsz), Up(oldsz))
  {
    hide Inv, Shrunk, Whole;
    if newsz >= oldsz {
      return oldsz;
    }
    ghost var v, lo, hi := k.St(), Up(newsz), Up(oldsz);
    var a := Up(newsz) * PGSIZE;
    ShrunkNone(v, pd, lo);
    while a < oldsz
      invariant a % PGSIZE == 0 && lo * PGSIZE <= a
      invariant k.Valid() && Whole(k.St(), pd) && Shrunk(v, k.St(), pd, lo, Least(a / PGSIZE, hi))
      decreases oldsz - a
    {
      ghost var v1, w := k.St(), a / PGSIZE;
      a := DropAt(k, pd, a, hi);
      ShrunkTwice(v, v1, k.St(), pd, lo, w, Least(a / PGSIZE, hi));
    }
    r := newsz;
  }

  lemma PteAt(v: V, pd: nat, vpn: nat, t: nat, y: nat)
    requires PointsAt(v, pd, vpn, t, y)
    ensures v.mem[t][y] == Pte(v, pd, vpn)
  {
  }

  /** Where the table is missing nothing is mapped. */
  lemma SkipTable(data: nat, v: V, pd: nat, w: nat, hi: nat)
    requires Inv(data, v) && Whole(v, pd) && w / 1024 < 1024 && !P(v.mem[pd][w / 1024])
    ensures Shrunk(v, v, pd, w, Least(1024 * (w / 1024 + 1), hi))
  {
    ShrunkSkip(data, v, pd, w, Least(1024 * (w / 1024 + 1), hi));
  }

  // ---------- freevm ----------

  /** Every page of address space pd, and nothing else, has gone back to the list. */
  ghost predicate Freed(v: V, v': V, pd: nat) {
    && |v.mem| == |v.role| == |v'.mem| == |v'.role| == TOP
    && forall g: nat :: g < TOP ==>
         if g == pd || Mine(v.role[g], pd) then v'.role[g] == Free else v'.role[g] == v.role[g] && v'.mem[g] == v.mem[g]
  }

  /** freevm part way: the directory's entries below i have been given back. */
  ghost predicate Freeing(data: nat, v: V, v1: V, pd: nat, i: nat) {
    && Inv(data, v1) && |v.mem| == |v.role| == TOP && pd < TOP && v1.role[pd] == Dir(i) && i <= 1024
    && (forall w: nat :: w < UPAGES && i <= w / 1024 ==> Pte(v1, pd, w) == 0)
    && (forall g: nat :: g < TOP && g != pd ==> FreeingOk(v, v1, pd, g))
  }

  predicate FreeingOk(v: V, v1: V, pd: nat, g: nat)
    requires |v.mem| == |v.role| == |v1.mem| == |v1.role| == TOP && g < TOP
  {
    if Mine(v.role[g], pd) then Mine(v1.role[g], pd) else v1.role[g] == v.role[g] && v1.mem[g] == v.mem[g]
  }

  lemma FreeingStarts(data: nat, v: V, v1: V, pd: nat)
    requires Inv(data, v) && Inv(data, v1) && Whole(v, pd) && Whole(v1, pd) && Shrunk(v, v1, pd, 0, UPAGES)
    ensures Freeing(data, v, v1, pd, 0)
  {
    hide Inv;
    forall g: nat | g < TOP && g != pd ensures FreeingOk(v, v1, pd, g) {
      assert GoneOk(v, v1, pd, 0, UPAGES, g);
    }
  }

  lemma FreeingStep(data: nat, v: V, v1: V, pd: nat, i: nat, page: Page)
    requires Freeing(data, v, v1, pd, i) && i < 1024
    ensures var e := v1.mem[pd][i];
            if P(e) then
              && Fr(e) < TOP && Fr(e) != pd && v1.role[Fr(e)] == Table(pd, i)
              && Freeing(data, v, V(v1.mem[Fr(e) := page], v1.role[Fr(e) := Free][pd := Dir(i + 1)]), pd, i + 1)
            else Freeing(data, v, SetRole(v1, pd, Dir(i + 1)), pd, i + 1)
  {
    hide Inv;
    DropTable(data, v1, pd, i, page);
    var e := v1.mem[pd][i];
    var v2 := if P(e) then V(v1.mem[Fr(e) := page], v1.role[Fr(e) := Free][pd := Dir(i + 1)])
        else SetRole(v1, pd, Dir(i + 1));
    var next := i + 1;
    forall w: nat | w < UPAGES && next <= w / 1024 ensures Pte(v2, pd, w) == 0 {
      assert Pte(v1, pd, w) == 0;
      if P(e) { assert Pte(v2, pd, w) == Pte(V(v1.mem[Fr(e) := page], v1.role), pd, w); }
    }
    forall g: nat | g < TOP && g != pd ensures FreeingOk(v, v2, pd, g) {
      assert FreeingOk(v, v1, pd, g);
    }
  }

  lemma FreeingEnds(data: nat, v: V, v1: V, pd: nat, page: Page)
    requires Freeing(data, v, v1, pd, 1024)
    ensures var v2 := V(v1.mem[pd := page], v1.role[pd := Free]); Inv(data, v2) && Freed(v, v2, pd)
  {
    hide Inv;
    DropDir(data, v1, pd, page);
    var v2 := V(v1.mem[pd := page], v1.role[pd := Free]);
    forall g: nat | g < TOP && g != pd
      ensures if Mine(v.role[g], pd) then v2.role[g] == Free else v2.role[g] == v.role[g] && v2.mem[g] == v.mem[g] {
      assert FreeingOk(v, v1, pd, g) && (Foreign(v1.role[g], pd, g) || v1.role[g] == Free);
    }
  }

  /** freevm: all the pages of the address space are freed, each once. */
  method Freevm(k: Kmem, pd: nat)
    requires k.Valid() && Whole(k.St(), pd)
    modifies k`freelist, k`free, k`role, k.mem
    ensures k.Valid() && Freed(old(k.St()), k.St(), pd)
  {
    hide Inv, Shrunk, Freeing, Freed, P, Fr;
    ghost var v := k.St();
    var r := Deallocuvm(k, pd, KERNBASE, 0);
    FreeingStarts(k.data, v, k.St(), pd);
    var i := 0;
    while i < NPDENTRIES
      invariant i <= NPDENTRIES && k.Valid() && Freeing(k.data, v, k.St(), pd, i)
    {
      FreeingEntry(k, pd, i, v);
      i := i + 1;
    }
    FreeingLast(k, pd, v);
  }

  /** freevm's last kfree. */
  method FreeingLast(k: Kmem, pd: nat, ghost v: V)
    requires k.Valid() && Freeing(k.data, v, k.St(), pd, 1024)
    modifies k`freelist, k`free, k`role, k.mem
    ensures k.Valid() && Freed(v, k.St(), pd)
  {
    hide Inv, Freeing, Freed, Chain;
    ghost var page, v1 := JunkPage(k.freelist), k.St();
    FreeingEnds(k.data, v, v1, pd, page);
    FreeingDir(k.data, v, v1, pd, 1024);
    k.Kfree(pd);
    k.role := k.role[pd := Free];
  }

  lemma FreeingDir(data: nat, v: V, v1: V, pd: nat, i: nat)
    requires Freeing(data, v, v1, pd, i)
    ensures pd < TOP && |v1.role| == |v1.mem| == TOP && v1.role[pd] == Dir(i)
  {
  }

  /** One turn of freevm's loop. */
  method FreeingEntry(k: Kmem, pd: nat, i: nat, ghost v: V)
    requires i < 1024 && k.Valid() && Freeing(k.data, v, k.St(), pd, i)
    modifies k`freelist, k`free, k`role, k.mem
    ensures k.Valid() && Freeing(k.data, v, k.St(), pd, i + 1)
  {
    hide Inv, Freeing, Freed, P, Fr, Chain;
    ghost var v1, page := k.St(), JunkPage(k.freelist);
    FreeingStep(k.data, v, v1, pd, i, page);
    FreeingDir(k.data, v, v1, pd, i);
    var e := k.mem[pd][i];
    if P(e) {
      k.Kfree(Fr(e));
      k.role := k.role[Fr(e) := Free][pd := Dir(i + 1)];
      FreeingInv(k.data, v, k.St(), pd, i + 1);
    } else {
      k.role := k.role[pd := Dir(i + 1)];
      FreeingInv(k.data, v, k.St(), pd, i + 1);
    }
  }

  lemma FreeingInv(data: nat, v: V, v1: V, pd: nat, i: nat)
    requires Freeing(data, v, v1, pd, i)
    ensures Inv(data, v1)
  {
  }

  // ---------- setupkvm ----------

  datatype Kmap = Kmap(virt: nat, physStart: nat, physEnd: nat, perm: nat)

  /** kmap[], in bytes. */
  function KmapTable(data: nat): seq<Kmap>
    requires UPAGES + EXTPAGE < data < UPAGES + TOP
  {
    [ Kmap(KERNBASE, 0, EXTPAGE * PGSIZE, PTE_W),
      Kmap(KERNBASE + EXTPAGE * PGSIZE, EXTPAGE * PGSIZE, data * PGSIZE - KERNBASE, 0),
      Kmap(data * PGSIZE, data * PGSIZE - KERNBASE, TOP * PGSIZE, PTE_W),
      Kmap(DEVPAGE * PGSIZE, DEVPAGE * PGSIZE, 0, PTE_W) ]
  }

  /** The kernel pages the first j rows of kmap cover. */
  predicate Covered(data: nat, j: nat, w: nat) {
    || (j >= 1 && UPAGES <= w < UPAGES + EXTPAGE)
    || (j >= 2 && UPAGES + EXTPAGE <= w < data)
    || (j >= 3 && data <= w < UPAGES + TOP)
    || (j >= 4 && DEVPAGE <= w)
  }

  ghost predicate KernelPart(data: nat, v: V, pd: nat, j: nat)
    requires |v.mem| == TOP
  {
    forall w: nat :: w < 1024 * 1024 ==> Pte(v, pd, w) == if Covered(data, j, w) then KEntry(data, w) else 0
  }

  /** pd is a new address space made of pages that were free; nothing else changed. */
  ghost predicate FreshSpace(v: V, v': V, pd: nat) {
    && |v.mem| == |v.role| == |v'.mem| == |v'.role| == TOP && pd < TOP && v.role[pd] == Free && Whole(v', pd)
    && forall g: nat :: g < TOP && g != pd ==> FreshOk(v, v', pd, g)
  }

  predicate FreshOk(v: V, v': V, pd: nat, g: nat)
    requires |v.mem| == |v.role| == |v'.mem| == |v'.role| == TOP && g < TOP
  {
    if v.role[g] == Free then Mine(v'.role[g], pd)
        else v'.role[g] == v.role[g] && v'.mem[g] == v.mem[g] && !Mine(v'.role[g], pd)
  }

  /** The free list is back to what it was and no page in use has changed. */
  ghost predicate Unchanged(v: V, v': V) {
    && |v.mem| == |v.role| == |v'.mem| == |v'.role| == TOP
    && v'.role == v.role && forall g: nat :: g < TOP && v.role[g] != Free ==> v'.mem[g] == v.mem[g]
  }

  lemma FreshThenFreed(v: V, v1: V, v2: V, pd: nat)
    requires FreshSpace(v, v1, pd) && Freed(v1, v2, pd)
    ensures Unchanged(v, v2)
  {
    forall g: nat | g < TOP ensures v2.role[g] == v.role[g] && (v.role[g] != Free ==> v2.mem[g] == v.mem[g]) {
      if g != pd { assert FreshOk(v, v1, pd, g); }
    }
  }

  lemma FreshThenFrames(v: V, v1: V, v2: V, pd: nat)
    requires FreshSpace(v, v1, pd) && Frames(v1, v2, pd, {})
    ensures FreshSpace(v, v2, pd)
  {
    forall g: nat | g < TOP && g != pd ensures FreshOk(v, v2, pd, g) {
      assert FreshOk(v, v1, pd, g) && FrameOk(v1, v2, pd, {}, g);
    }
  }

  /** A page that is free is nobody's directory. */
  lemma NoOrphans(data: nat, v: V, pd: nat, g: nat)
    requires Inv(data, v) && pd < TOP && !v.role[pd].Dir? && g < TOP
    ensures Mine(v.role[g], pd) ==> v.role[g] == Free
  {
    assert TableOk(v, g) && UserOk(v, g);
  }

  lemma DirMade(data: nat, v: V, v1: V, v2: V, v3: V, pd: nat)
    requires Inv(data, v) && pd < TOP && v.role[pd] == Free
    requires v1 == SetRole(v, pd, Held) && v2 == V(v1.mem[pd := ZeroPage()], v1.role) && v3 == SetRole(v2, pd, Dir(0))
    ensures Inv(data, v3) && FreshSpace(v, v3, pd) && KernelPart(data, v3, pd, 0)
  {
    hide Inv, PdeOk, TableOk, PteOk, UserOk;
    Reassign(data, v, pd, Held);
    WriteHeld(data, v1, pd, ZeroPage());
    NewDir(data, v2, pd);
    forall g: nat | g < TOP && g != pd ensures FreshOk(v, v3, pd, g) {
      NoOrphans(data, v, pd, g);
    }
    forall w: nat | w < 1024 * 1024 ensures Pte(v3, pd, w) == 0 {
      assert Pte(v2, pd, w) == 0;
    }
  }

  /** kalloc and memset of a directory. */
  method MakeDir(k: Kmem) returns (pd: nat)
    requires k.Valid()
    modifies k`freelist, k`free, k`role, k.mem
    ensures k.Valid()
    ensures pd == 0 ==> k.St() == old(k.St()) && NoneFree(k.St())
    ensures pd != 0 ==> FreshSpace(old(k.St()), k.St(), pd) && KernelPart(k.data, k.St(), pd, 0)
  {
    hide Inv, Pte, FreshSpace, KernelPart, Chain;
    ghost var v := k.St();
    pd := k.Kalloc();
    if pd != 0 {
      ghost var v1, list := k.St(), k.mem[..];
      k.SetPage(pd, ZeroPage());
      ghost var v2 := k.St();
      k.role := k.role[pd := Dir(0)];
      DirMade(k.data, v, v1, v2, k.St(), pd);
      ChainElsewhere(list, k.mem[..], k.freelist, k.free, k.end);
    }
  }

  /** Row j of kmap can be mapped once the rows before it are. */
  lemma RowReady(data: nat, v: V, pd: nat, j: nat)
    requires UPAGES + EXTPAGE < data < UPAGES + TOP && |v.mem| == |v.role| == TOP && j < 4 && KernelPart(data, v, pd, j)
    ensures var row := KmapTable(data)[j]; var size := (row.physEnd - row.physStart) % TWO32;
            && 0 < size && row.virt >= KERNBASE && row.virt + size <= TWO32 && row.physStart % PGSIZE == 0 &&
               row.perm < 4096
            && forall i: nat :: Ready(data, v, pd, row.virt / PGSIZE, Pages(row.virt, size), row.physStart / PGSIZE,
               row.perm, i)
  {
    var row := KmapTable(data)[j];
    var size := (row.physEnd - row.physStart) % TWO32;
    RowSize(data, j);
    forall i: nat
        ensures Ready(data, v, pd, row.virt / PGSIZE, Pages(row.virt, size), row.physStart / PGSIZE, row.perm, i) {
      if i < Pages(row.virt, size) {
        assert Pte(v, pd, row.virt / PGSIZE + i) == 0;
      }
    }
  }

  lemma RowSize(data: nat, j: nat)
    requires UPAGES + EXTPAGE < data < UPAGES + TOP && j < 4
    ensures var row := KmapTable(data)[j];
            var size := (row.physEnd - row.physStart) % TWO32;
            var first := row.virt / PGSIZE;
            && 0 < size && row.virt + size <= TWO32 && row.virt % PGSIZE == 0 && row.physStart % PGSIZE == 0
            && first == [UPAGES, UPAGES + EXTPAGE, data, DEVPAGE][j]
            && row.physStart / PGSIZE == (if j < 3 then first - UPAGES else first)
            && first + Pages(row.virt, size) == [UPAGES + EXTPAGE, data, UPAGES + TOP, 1024 * 1024][j]
  {
    var row := KmapTable(data)[j];
    if j == 0 {
      RowPages(UPAGES, EXTPAGE, row.virt, row.physEnd - row.physStart);
    } else if j == 1 {
      RowPages(UPAGES + EXTPAGE, data - UPAGES - EXTPAGE, row.virt, row.physEnd - row.physStart);
    } else if j == 2 {
      RowPages(data, UPAGES + TOP - data, row.virt, row.physEnd - row.physStart);
    } else {
      assert (row.physEnd - row.physStart) % TWO32 == 0x200_0000;
    }
  }

  lemma RowPages(first: nat, n: nat, va: nat, size: nat)
    requires 0 < n < 1024 * 1024 && va == first * PGSIZE && size == n * PGSIZE && first + n <= 1024 * 1024
    ensures size % TWO32 == size && va / PGSIZE == first && va % PGSIZE == 0 && Pages(va, size) == n
  {
    assert va + size - 1 == (first + n - 1) * PGSIZE + (PGSIZE - 1);
  }

  lemma RowCovers(data: nat, j: nat, first: nat, end: nat, f: nat, perm: nat, w: nat)
    requires UPAGES + EXTPAGE < data < UPAGES + TOP && j < 4 && w < 1024 * 1024
    requires first == [UPAGES, UPAGES + EXTPAGE, data, DEVPAGE][j] &&
             end == [UPAGES + EXTPAGE, data, UPAGES + TOP, 1024 * 1024][j]
    requires f == (if j < 3 then first - UPAGES else first) && perm == [PTE_W, 0, PTE_W, PTE_W][j]
    ensures Covered(data, j + 1, w) <==> Covered(data, j, w) || first <= w < end
    ensures first <= w < end ==> !Covered(data, j, w) && KEntry(data, w) == Entry(f + (w - first), WithP(perm))
  {
  }

  lemma RowMapped(data: nat, v: V, v1: V, pd: nat, j: nat)
    requires UPAGES + EXTPAGE < data < UPAGES + TOP && |v.mem| == |v1.mem| == TOP && j < 4 && KernelPart(data, v, pd, j)
    requires var row := KmapTable(data)[j]; var size := (row.physEnd - row.physStart) % TWO32;
             size > 0 &&
                 RangeMapped(v, v1, pd, row.virt / PGSIZE, Pages(row.virt, size), row.physStart / PGSIZE, row.perm)
    ensures KernelPart(data, v1, pd, j + 1)
  {
    hide Covered, KEntry, Pte, Pages;
    RowSize(data, j);
    var row := KmapTable(data)[j];
    var next, size := j + 1, (row.physEnd - row.physStart) % TWO32;
    var first, f := row.virt / PGSIZE, row.physStart / PGSIZE;
    var end := first + Pages(row.virt, size);
    forall w: nat | w < 1024 * 1024 ensures Pte(v1, pd, w) == if Covered(data, next, w) then KEntry(data, w) else 0 {
      RowCovers(data, j, first, end, f, row.perm, w);
      assert Pte(v, pd, w) == if Covered(data, j, w) then KEntry(data, w) else 0;
    }
  }

  /** Every page that was free in v has become the directory or a page table of one new
      space without user pages, or there was none. */
  ghost predicate SetupRanOut(data: nat, v: V, full: V) {
    NoneFree(full) && (full == v || exists d :: Inv(data, full) && FreshSpace(v, full, d) && Bare(full, d))
  }

  ghost predicate Bare(v: V, pd: nat)
    requires |v.mem| == TOP
  {
    forall w: nat :: w < UPAGES ==> Pte(v, pd, w) == 0
  }

  /** setupkvm: a fresh address space with exactly the kernel's mappings, or 0 and every
      page it took given back, once in the state `full` no page was left. */
  method Setupkvm(k: Kmem) returns (pd: nat, ghost full: V)
    requires k.Valid()
    modifies k`freelist, k`free, k`role, k.mem
    ensures k.Valid()
    ensures pd == 0 ==> Unchanged(old(k.St()), k.St()) && SetupRanOut(k.data, old(k.St()), full)
    ensures pd != 0 ==> FreshSpace(old(k.St()), k.St(), pd) && KernelPart(k.data, k.St(), pd, 4)
    ensures pd != 0 ==> forall w: nat :: w < 1024 * 1024 ==>
              if w < UPAGES then Pte(k.St(), pd, w) == 0 else KernelBits(k.data, w, Pte(k.St(), pd, w))
  {
    hide Inv, FreshSpace, KernelPart, Freed, Unchanged, Chain, Pte, KernelBits;
    ghost var v := k.St();
    full := v;
    pd := MakeDir(k);
    if pd == 0 {
      UnchangedSelf(v);
      return;
    }
    var j := 0;
    while j < 4
      invariant j <= 4 && k.Valid() && FreshSpace(v, k.St(), pd) && KernelPart(k.data, k.St(), pd, j)
    {
      var r := MapRow(k, pd, j, v);
      if r < 0 {
        full := k.St();
        FreshWhole(v, full, pd);
        Freevm(k, pd);
        FreshThenFreed(v, full, k.St(), pd);
        pd := 0;
        return;
      }
      j := j + 1;
    }
    KernelPartBits(k.data, k.St(), pd);
  }

  lemma KernelPartBits(data: nat, v: V, pd: nat)
    requires UPAGES + EXTPAGE < data < UPAGES + TOP && |v.mem| == TOP && KernelPart(data, v, pd, 4)
    ensures forall w: nat :: w < 1024 * 1024 ==>
              if w < UPAGES then Pte(v, pd, w) == 0 else KernelBits(data, w, Pte(v, pd, w))
  {
    hide Pte, KEntry, KernelBits;
    forall w: nat | w < 1024 * 1024
      ensures if w < UPAGES then Pte(v, pd, w) == 0 else KernelBits(data, w, Pte(v, pd, w)) {
      assert Pte(v, pd, w) == if Covered(data, 4, w) then KEntry(data, w) else 0;
      if w >= UPAGES {
        KEntryBits(data, w);
        NoKEntry(data, w);
      }
    }
  }

  lemma NoKEntry(data: nat, w: nat)
    requires UPAGES + EXTPAGE < data < UPAGES + TOP && UPAGES <= w < 1024 * 1024
    ensures !Covered(data, 4, w) ==> KEntry(data, w) == 0
  {
  }

  /** mappages of one row of kmap. */
  method MapRow(k: Kmem, pd: nat, j: nat, ghost v: V) returns (r: int)
    requires k.Valid() && FreshSpace(v, k.St(), pd) && j < 4 && KernelPart(k.data, k.St(), pd, j)
    modifies k`freelist, k`free, k`role, k.mem
    ensures k.Valid() && FreshSpace(v, k.St(), pd)
    ensures r < 0 || KernelPart(k.data, k.St(), pd, j + 1)
    ensures r < 0 ==> NoneFree(k.St()) && Bare(k.St(), pd)
  {
    hide Inv, FreshSpace, KernelPart, Frames, UsersKept, RangeMapped, Handed, Ready, Chain;
    var row := KmapTable(k.data)[j];
    ghost var v1 := k.St();
    FreshWhole(v, v1, pd);
    RowReady(k.data, v1, pd, j);
    ghost var m;
    r, m := Mappages(k, pd, row.virt, (row.physEnd - row.physStart) % TWO32, row.physStart, row.perm);
    FreshThenFrames(v, v1, k.St(), pd);
    if r == 0 {
      RowMapped(k.data, v1, k.St(), pd, j);
    } else {
      StillBare(k.data, v1, k.St(), pd, j, row.virt / PGSIZE, m, row.physStart / PGSIZE, row.perm);
    }
  }

  lemma StillBare(data: nat, v: V, v1: V, pd: nat, j: nat, first: nat, m: nat, f: nat, perm: nat)
    requires |v.mem| == |v1.mem| == TOP && KernelPart(data, v, pd, j) && perm < 4096 && first >= UPAGES
    requires RangeMapped(v, v1, pd, first, m, f, perm)
    ensures Bare(v1, pd)
  {
    hide Pte;
    forall w: nat | w < UPAGES ensures Pte(v1, pd, w) == 0 {
      assert Pte(v, pd, w) == if Covered(data, j, w) then KEntry(data, w) else 0;
    }
  }

  lemma UnchangedSelf(v: V)
    requires |v.mem| == |v.role| == TOP
    ensures Unchanged(v, v)
  {
  }

  lemma FreshWhole(v: V, v1: V, pd: nat)
    requires FreshSpace(v, v1, pd)
    ensures Whole(v1, pd)
  {
  }
}
