/** The page allocator (kalloc.c) and the physical memory under it.

    A page is named by its frame number, which stands for its kernel address as
    well as for its physical one; 0, the frame of the BIOS page, is the null
    pointer. */
module Kalloc {
  import opened PageTables

  /** memset(v, 1, PGSIZE), then r->next in the first word. */
  function JunkPage(next: nat): (p: Page)
    ensures p[0] == next && forall i :: 1 <= i < 1024 ==> p[i] == 0x0101_0101
  {
    seq(1024, i => if i == 0 then next else 0x0101_0101)
  }

  function Head(s: seq<nat>): nat {
    if s == [] then 0 else s[0]
  }

  /** The free list threaded through the first words of the free pages. */
  ghost predicate Chain(mem: seq<Page>, freelist: nat, free: seq<nat>, end: nat) {
    && |mem| == TOP && 0 < end <= TOP && freelist == Head(free)
    && (forall i :: 0 <= i < |free| ==> end <= free[i] < TOP && mem[free[i]][0] == Head(free[i + 1..]))
    && (forall i, j :: 0 <= i < j < |free| ==> free[i] != free[j])
  }

  lemma PushChain(mem: seq<Page>, freelist: nat, free: seq<nat>, end: nat, f: nat)
    requires Chain(mem, freelist, free, end) && end <= f < TOP && f !in free
    ensures Chain(mem[f := JunkPage(freelist)], f, [f] + free, end)
  {
    var free' := [f] + free;
    forall i | 0 <= i < |free'|
        ensures end <= free'[i] < TOP && mem[f := JunkPage(freelist)][free'[i]][0] == Head(free'[i + 1..]) {
      assert free'[i + 1..] == if i == 0 then free else free[i..];
    }
  }

  lemma PopChain(mem: seq<Page>, freelist: nat, free: seq<nat>, end: nat)
    requires Chain(mem, freelist, free, end) && free != []
    ensures freelist == free[0] != 0 && end <= free[0] < TOP && free[0] !in free[1..]
    ensures Chain(mem, mem[freelist][0], free[1..], end)
  {
    forall i | 0 <= i < |free| - 1 ensures mem[free[1..][i]][0] == Head(free[1..][i + 1..]) {
      assert free[1..][i + 1..] == free[i + 2..];
    }
  }

  /** Writing pages that are not free leaves the list alone. */
  lemma ChainElsewhere(mem: seq<Page>, mem': seq<Page>, freelist: nat, free: seq<nat>, end: nat)
    requires Chain(mem, freelist, free, end) && |mem'| == TOP && forall f: nat :: f in free && f < TOP ==>
             mem'[f] == mem[f]
    ensures Chain(mem', freelist, free, end)
  {
  }

  class Kmem {
    const mem: array<Page>      // physical memory up to PHYSTOP
    const end: nat              // first page after the kernel
    const data: nat             // virtual page of the first kernel data page
    var freelist: nat
    ghost var free: seq<nat>
    ghost var role: seq<Role>

    ghost function St(): V
      reads this, mem
    {
      V(mem[..], role)
    }

    ghost predicate Listed()
      reads this, mem
    {
      Chain(mem[..], freelist, free, end)
    }

    ghost predicate Layout() {
      mem.Length == TOP && 0 < end && UPAGES + EXTPAGE < data < UPAGES + TOP
    }

    /** The free list holds exactly the pages whose role is Free, and the page
        tables are exact. */
    ghost predicate Valid()
      reads this, mem
      ensures Valid() ==> mem.Length == |role| == TOP && 0 < end
    {
      && Layout() && Listed() && Inv(data, St())
      && (forall f: nat :: f < TOP ==> (role[f] == Free <==> f in free))
      && (forall f: nat :: f < TOP && f < end ==> role[f] == Kernel)
    }

    /** At boot nothing is free: the pages after the kernel wait for freerange. */
    constructor (end: nat, data: nat)
      requires 0 < end <= TOP && UPAGES + EXTPAGE < data < UPAGES + TOP
      ensures Valid() && freelist == 0 && fresh(mem) && this.end == end && this.data == data
      ensures forall f: nat :: f < TOP ==> role[f] == if f < end then Kernel else Held
    {
      mem := new Page[TOP](_ => ZeroPage());
      this.end, this.data, freelist, free := end, data, 0, [];
      role := seq(TOP, f => if f < end then Kernel else Held);
    }

    /** kalloc: a page off the list, or 0 when there is none. */
    method Kalloc() returns (r: nat)
      requires Valid()
      modifies this`freelist, this`free, this`role
      ensures Valid()
      ensures r == old(freelist)
      ensures r == 0 ==> role == old(role) && free == old(free) && forall f: nat :: f < TOP ==> role[f] != Free
      ensures r != 0 ==> end <= r < TOP && old(role)[r] == Free && role == old(role)[r := Held]
    {
      hide Inv;
      r := freelist;
      if r != 0 {
        PopChain(mem[..], freelist, free, end);
        Reassign(data, St(), r, Held);
        freelist := mem[r][0];
        free, role := free[1..], role[r := Held];
      }
    }

    /** kfree's writes: the page is filled with junk and put at the head. */
    method Kfree(f: nat)
      requires Layout() && Listed() && end <= f < TOP && f !in free
      modifies this`freelist, this`free, mem
      ensures Listed() && free == [f] + old(free) && mem[..] == old(mem[..])[f := JunkPage(old(freelist))]
    {
      PushChain(mem[..], freelist, free, end, f);
      mem[f] := JunkPage(freelist);
      freelist := f;
      free := [f] + free;
      assert mem[..] == old(mem[..])[f := JunkPage(old(freelist))];
    }

    /** kfree of a page nothing points to. */
    method Release(f: nat)
      requires Valid() && f < TOP && role[f] == Held
      modifies this`freelist, this`free, this`role, mem
      ensures Valid() && role == old(role)[f := Free] && freelist == f
      ensures forall g: nat :: g < TOP && g != f ==> mem[g] == old(mem[g])
      ensures forall d: nat, vpn: nat :: IsDir(old(St()), d) && old(role)[d].low <= vpn / 1024 ==>
              Pte(St(), d, vpn) == Pte(old(St()), d, vpn)
    {
      hide Inv;
      ghost var v := St();
      WriteHeld(data, v, f, JunkPage(freelist));
      Reassign(data, V(v.mem[f := JunkPage(freelist)], v.role), f, Free);
      Kfree(f);
      role := role[f := Free];
    }

    /** One whole page written. */
    method SetPage(f: nat, p: Page)
      requires f < mem.Length
      modifies mem
      ensures mem[..] == old(mem[..])[f := p]
    {
      mem[f] := p;
    }

    /** One word of a page written. */
    method SetEntry(f: nat, i: nat, e: nat)
      requires f < mem.Length && i < 1024
      modifies mem
      ensures mem[..] == old(mem[..])[f := old(mem[..])[f][i := e]]
    {
      mem[f] := mem[f][i := e];
    }

    /** freerange, in bytes: exactly the whole pages inside become free. */
    method Freerange(vstart: nat, vend: nat)
      requires Valid() && vend / PGSIZE <= TOP
      requires forall f: nat :: (vstart + PGSIZE - 1) / PGSIZE <= f < vend / PGSIZE ==> role[f] == Held
      modifies this`freelist, this`free, this`role, mem
      ensures Valid()
      ensures forall f: nat :: f < TOP ==>
                role[f] == if (vstart + PGSIZE - 1) / PGSIZE <= f < vend / PGSIZE then Free else old(role)[f]
    {
      hide Inv;
      var p := (vstart + PGSIZE - 1) / PGSIZE;
      ghost var first := p;
      while (p + 1) * PGSIZE <= vend
        invariant first <= p && Valid() && (p <= vend / PGSIZE || p == first)
        invariant forall f: nat :: f < TOP ==> role[f] == if first <= f < p then Free else old(role)[f]
        decreases vend - p * PGSIZE
      {
        assert p < vend / PGSIZE;
        Release(p);
        p := p + 1;
      }
    }
  }
}
