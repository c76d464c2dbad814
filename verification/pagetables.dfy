/** The x86 two-level page tables of vm.c as a value, with the owner of every
    physical page.

    A page is 1024 words; page frames are numbered from physical address 0.  An
    entry is the frame's address plus 12 flag bits, the lowest being "present". */
module PageTables {
  const PGSIZE: nat := 4096
  const NPDENTRIES: nat := 1024
  const NPTENTRIES: nat := 1024
  const TOP: nat := 0xE000          // PHYSTOP / PGSIZE
  const KERNBASE: nat := 0x8000_0000
  const UPAGES: nat := 0x8_0000     // KERNBASE / PGSIZE
  const DEVPAGE: nat := 0xF_E000    // DEVSPACE / PGSIZE
  const EXTPAGE: nat := 0x100       // EXTMEM / PGSIZE
  const PTE_P: nat := 1
  const PTE_W: nat := 2
  const PTE_U: nat := 4

  type Page = s: seq<nat> | |s| == 1024 witness seq(1024, _ => 0)

  predicate P(e: nat) {
    e % 2 == 1
  }

  function Fr(e: nat): nat {
    e / 4096
  }

  function Flags(e: nat): nat {
    e % 4096
  }

  function Entry(f: nat, flags: nat): (e: nat)
    requires flags < 4096
    ensures Fr(e) == f && Flags(e) == flags && (P(e) <==> flags % 2 == 1)
  {
    f * 4096 + flags
  }

  function ZeroPage(): (p: Page)
    ensures forall i :: 0 <= i < 1024 ==> p[i] == 0
  {
    seq(1024, _ => 0)
  }

  /** Who holds a page.  Dir(low): a page directory whose entries below low have
      been given back; Held: taken from the free list and not yet put to use, or
      used for something else. */
  datatype Role = Kernel | Free | Held | Dir(low: nat) | Table(pd: nat, pdx: nat) | User(pd: nat, vpn: nat)

  datatype V = V(mem: seq<Page>, role: seq<Role>)

  predicate IsDir(v: V, pd: nat)
    requires |v.role| == TOP
  {
    pd < TOP && v.role[pd].Dir?
  }

  /** The kernel's mapping of virtual page vpn: 0 where there is none.  `data` is the
      first page of kernel data. */
  function KEntry(data: nat, vpn: nat): nat {
    if UPAGES <= vpn < UPAGES + TOP then
      Entry(vpn - UPAGES, if UPAGES + EXTPAGE <= vpn < data then PTE_P else PTE_P + PTE_W)
    else if DEVPAGE <= vpn < 0x10_0000 then Entry(vpn, PTE_P + PTE_W)
    else 0
  }

  /** What the processor makes of a kernel entry: present below the end of physical memory
      and in the device range, never open to user code, writable but for the kernel's
      text and read-only data, and mapped to the page it stands for. */
  predicate KernelBits(data: nat, w: nat, e: nat) {
    if w < UPAGES + TOP || DEVPAGE <= w then
      && e % 2 == 1 && e / 4 % 2 == 0 && (e / 2 % 2 == 0 <==> UPAGES + EXTPAGE <= w < data)
      && e / 8 % 512 == 0 && e / 4096 == if w < UPAGES + TOP then w - UPAGES else w
    else e == 0
  }

  lemma KEntryBits(data: nat, w: nat)
    requires UPAGES + EXTPAGE < data < UPAGES + TOP && UPAGES <= w < 1024 * 1024
    ensures KernelBits(data, w, KEntry(data, w))
  {
    var e := KEntry(data, w);
    var f := if w < UPAGES + TOP then w - UPAGES else w;
    if w < UPAGES + TOP || DEVPAGE <= w {
      assert e == 4096 * f + (if UPAGES + EXTPAGE <= w < data then 1 else 3);
      assert e / 2 == 2048 * f + (if UPAGES + EXTPAGE <= w < data then 0 else 1);
      assert e / 4 == 1024 * f;
      assert e / 8 == 512 * f;
    }
  }

  /** Every kernel entry of an address space is right, whoever runs in it. */
  ghost predicate KernelSafe(v: V, pd: nat)
    requires |v.mem| == TOP
  {
    forall w: nat :: UPAGES <= w < 1024 * 1024 ==> Shielded(w, Pte(v, pd, w))
  }

  /** The kernel's page, or nothing; and not for user code. */
  predicate Shielded(w: nat, e: nat) {
    if w < UPAGES + TOP || DEVPAGE <= w then
      e % 2 == 1 && e / 4 % 2 == 0 && e / 4096 == if w < UPAGES + TOP then w - UPAGES else w
    else e == 0
  }

  /** The page table entry for virtual page vpn, 0 when its table is missing. */
  function Pte(v: V, pd: nat, vpn: nat): nat
    requires |v.mem| == TOP
  {
    if pd < TOP && vpn / 1024 < 1024 && P(v.mem[pd][vpn / 1024]) && Fr(v.mem[pd][vpn / 1024]) < TOP
    then v.mem[Fr(v.mem[pd][vpn / 1024])][vpn % 1024]
    else 0
  }

  predicate PdeOk(v: V, pd: nat, x: nat)
    requires |v.mem| == |v.role| == TOP
  {
    IsDir(v, pd) && x < 1024 && v.role[pd].low <= x ==>
      var e := v.mem[pd][x];
      if P(e) then Fr(e) < TOP && Flags(e) == 7 && v.role[Fr(e)] == Table(pd, x) else e == 0
  }

  predicate TableOk(v: V, t: nat)
    requires |v.mem| == |v.role| == TOP
  {
    t < TOP && v.role[t].Table? ==>
      var pd, x := v.role[t].pd, v.role[t].pdx;
      IsDir(v, pd) && v.role[pd].low <= x < 1024 && v.mem[pd][x] == Entry(t, 7)
  }

  predicate PteOk(data: nat, v: V, t: nat, y: nat)
    requires |v.mem| == |v.role| == TOP
  {
    t < TOP && v.role[t].Table? && y < 1024 ==>
      var e, vpn := v.mem[t][y], v.role[t].pdx * 1024 + y;
      if !P(e) then e == 0
      else if vpn < UPAGES then Fr(e) < TOP && v.role[Fr(e)] == User(v.role[t].pd, vpn)
      else e == KEntry(data, vpn)
  }

  predicate UserOk(v: V, f: nat)
    requires |v.mem| == |v.role| == TOP
  {
    f < TOP && v.role[f].User? ==>
      var pd, vpn := v.role[f].pd, v.role[f].vpn;
      IsDir(v, pd) && v.role[pd].low <= vpn / 1024 && vpn < UPAGES && P(Pte(v, pd, vpn)) && Fr(Pte(v, pd, vpn)) == f
  }

  /** Every table page and user page is named by exactly one entry, and every
      present entry names a page of its own. */
  ghost predicate Inv(data: nat, v: V)
    ensures Inv(data, v) ==> |v.mem| == |v.role| == TOP
  {
    && |v.mem| == |v.role| == TOP
    && (forall pd, x :: PdeOk(v, pd, x))
    && (forall t :: TableOk(v, t))
    && (forall t, y :: PteOk(data, v, t, y))
    && (forall f :: UserOk(v, f))
  }

  /** Pages that are neither free nor part of address space pd. */
  predicate Foreign(r: Role, pd: nat, f: nat) {
    r != Free && f != pd && !(r.Table? && r.pd == pd) && !(r.User? && r.pd == pd)
  }

  ghost predicate Untouched(v: V, v': V, pd: nat) {
    && |v.mem| == |v'.mem| == |v.role| == |v'.role| == TOP
    && forall f :: 0 <= f < TOP && Foreign(v.role[f], pd, f) ==> v'.role[f] == v.role[f] && v'.mem[f] == v.mem[f]
  }

  // ---------- facts ----------

  /** The table of a present directory entry. */
  lemma TableOf(data: nat, v: V, pd: nat, x: nat)
    requires Inv(data, v) && IsDir(v, pd) && x < 1024 && v.role[pd].low <= x
    ensures var e := v.mem[pd][x];
            if P(e) then Fr(e) < TOP && e == Entry(Fr(e), 7) && v.role[Fr(e)] == Table(pd, x) else e == 0
  {
    assert PdeOk(v, pd, x);
  }

  lemma PteFacts(data: nat, v: V, pd: nat, vpn: nat)
    requires Inv(data, v) && IsDir(v, pd) && v.role[pd].low <= vpn / 1024 < 1024
    ensures var e := Pte(v, pd, vpn);
            if !P(e) then e == 0
            else if vpn < UPAGES then Fr(e) < TOP && v.role[Fr(e)] == User(pd, vpn)
            else e == KEntry(data, vpn)
  {
    TableOf(data, v, pd, vpn / 1024);
    var e := v.mem[pd][vpn / 1024];
    if P(e) {
      assert PteOk(data, v, Fr(e), vpn % 1024);
    }
  }

  // ---------- the updates ----------

  function SetWord(v: V, f: nat, i: nat, e: nat): V
    requires f < |v.mem| && i < 1024
  {
    V(v.mem[f := v.mem[f][i := e]], v.role)
  }

  function SetRole(v: V, f: nat, r: Role): V
    requires f < |v.role|
  {
    V(v.mem, v.role[f := r])
  }

  /** Pages outside the tables may be written freely. */
  lemma WriteHeld(data: nat, v: V, f: nat, page: Page)
    requires Inv(data, v) && f < TOP && !v.role[f].Dir? && !v.role[f].Table?
    ensures Inv(data, V(v.mem[f := page], v.role))
    ensures forall pd: nat, vpn: nat :: IsDir(v, pd) && v.role[pd].low <= vpn / 1024 ==>
            Pte(V(v.mem[f := page], v.role), pd, vpn) == Pte(v, pd, vpn)
  {
    var v' := V(v.mem[f := page], v.role);
    forall pd: nat, vpn: nat | IsDir(v, pd) && v.role[pd].low <= vpn / 1024
        ensures Pte(v', pd, vpn) == Pte(v, pd, vpn) {
      if vpn / 1024 < 1024 { TableOf(data, v, pd, vpn / 1024); }
    }
    forall pd, x ensures PdeOk(v', pd, x) { assert PdeOk(v, pd, x); }
    forall t ensures TableOk(v', t) { assert TableOk(v, t); }
    forall t, y ensures PteOk(data, v', t, y) { assert PteOk(data, v, t, y); }
    forall u ensures UserOk(v', u) { assert UserOk(v, u); }
  }

  /** A page moves between the roles that no table mentions. */
  lemma Reassign(data: nat, v: V, f: nat, r: Role)
    requires Inv(data, v) && f < TOP && v.role[f] in {Free, Held} && r in {Free, Held}
    ensures Inv(data, SetRole(v, f, r))
  {
    var v' := SetRole(v, f, r);
    forall pd, x ensures PdeOk(v', pd, x) { assert PdeOk(v, pd, x); }
    forall t ensures TableOk(v', t) { assert TableOk(v, t); }
    forall t, y ensures PteOk(data, v', t, y) { assert PteOk(data, v, t, y); }
    forall u ensures UserOk(v', u) { assert UserOk(v, u); }
  }

  /** A zeroed page becomes a page directory. */
  lemma NewDir(data: nat, v: V, f: nat)
    requires Inv(data, v) && f < TOP && v.role[f] == Held && v.mem[f] == ZeroPage()
    ensures Inv(data, SetRole(v, f, Dir(0)))
    ensures forall vpn: nat :: Pte(v, f, vpn) == 0
  {
    var v' := SetRole(v, f, Dir(0));
    forall pd, x ensures PdeOk(v', pd, x) { assert PdeOk(v, pd, x); }
    forall t ensures TableOk(v', t) { assert TableOk(v, t); }
    forall t, y ensures PteOk(data, v', t, y) { assert PteOk(data, v, t, y); }
    forall u ensures UserOk(v', u) { assert UserOk(v, u); }
  }

  /** walkpgdir's new table: *pde = V2P(pgtab) | PTE_P | PTE_W | PTE_U. */
  function WithTable(v: V, pd: nat, x: nat, t: nat): V
    requires pd < |v.mem| && t < |v.role| && x < 1024
  {
    SetRole(SetWord(v, pd, x, Entry(t, 7)), t, Table(pd, x))
  }

  lemma NewTablePtes(data: nat, v: V, pd: nat, x: nat, t: nat, d: nat, vpn: nat)
    requires Inv(data, v) && IsDir(v, pd) && v.role[pd].low <= x < 1024 && !P(v.mem[pd][x])
    requires t < TOP && v.role[t] == Held && v.mem[t] == ZeroPage() && IsDir(v, d) && v.role[d].low <= vpn / 1024
    ensures Pte(WithTable(v, pd, x, t), d, vpn) == Pte(v, d, vpn)
  {
    if vpn / 1024 < 1024 { TableOf(data, v, d, vpn / 1024); }
  }

  lemma NewTableOwner(data: nat, v: V, pd: nat, x: nat, t: nat, u: nat)
    requires Inv(data, v) && IsDir(v, pd) && v.role[pd].low <= x < 1024 && !P(v.mem[pd][x])
    requires t < TOP && v.role[t] == Held && v.mem[t] == ZeroPage()
    ensures UserOk(WithTable(v, pd, x, t), u)
  {
    hide Pte;
    assert UserOk(v, u);
    if u < TOP && v.role[u].User? {
      NewTablePtes(data, v, pd, x, t, v.role[u].pd, v.role[u].vpn);
    }
  }

  lemma NewTable(data: nat, v: V, pd: nat, x: nat, t: nat)
    requires Inv(data, v) && IsDir(v, pd) && v.role[pd].low <= x < 1024 && !P(v.mem[pd][x])
    requires t < TOP && v.role[t] == Held && v.mem[t] == ZeroPage()
    ensures var v' := WithTable(v, pd, x, t);
            && Inv(data, v')
            && forall d: nat, vpn: nat :: IsDir(v, d) && v.role[d].low <= vpn / 1024 ==>
               Pte(v', d, vpn) == Pte(v, d, vpn)
  {
    hide Pte;
    var v' := WithTable(v, pd, x, t);
    forall d: nat, vpn: nat | IsDir(v, d) && v.role[d].low <= vpn / 1024 ensures Pte(v', d, vpn) == Pte(v, d, vpn) {
      NewTablePtes(data, v, pd, x, t, d, vpn);
    }
    forall d, y ensures PdeOk(v', d, y) { assert PdeOk(v, d, y); }
    forall s ensures TableOk(v', s) { assert TableOk(v, s); }
    forall s, y ensures PteOk(data, v', s, y) { assert PteOk(data, v, s, y); }
    forall u: nat ensures UserOk(v', u) { NewTableOwner(data, v, pd, x, t, u); }
  }

  /** The table entry for vpn becomes e. */
  function WithPte(v: V, pd: nat, vpn: nat, e: nat): V
    requires |v.mem| == TOP && pd < TOP && vpn / 1024 < 1024 && Fr(v.mem[pd][vpn / 1024]) < TOP
  {
    SetWord(v, Fr(v.mem[pd][vpn / 1024]), vpn % 1024, e)
  }

  /** What one table write does to every entry. */
  lemma WithPteOthers(data: nat, v: V, pd: nat, vpn: nat, e: nat, d: nat, w: nat)
    requires Inv(data, v) && IsDir(v, pd) && v.role[pd].low <= vpn / 1024 < 1024 && P(v.mem[pd][vpn / 1024])
    requires IsDir(v, d) && v.role[d].low <= w / 1024
    ensures Fr(v.mem[pd][vpn / 1024]) < TOP
    ensures Pte(WithPte(v, pd, vpn, e), d, w) == if d == pd && w == vpn then e else Pte(v, d, w)
  {
    TableOf(data, v, pd, vpn / 1024);
    if w / 1024 < 1024 { TableOf(data, v, d, w / 1024); }
  }

  lemma MapUserOwner(data: nat, v: V, pd: nat, vpn: nat, f: nat, e: nat, u: nat)
    requires Inv(data, v) && IsDir(v, pd) && v.role[pd].low <= vpn / 1024 && vpn < UPAGES && P(v.mem[pd][vpn / 1024])
    requires !P(Pte(v, pd, vpn)) && f < TOP && v.role[f] == Held && P(e) && Fr(e) == f &&
             Fr(v.mem[pd][vpn / 1024]) < TOP
    ensures UserOk(SetRole(WithPte(v, pd, vpn, e), f, User(pd, vpn)), u)
  {
    hide Inv, PdeOk, TableOk, PteOk, Pte, WithPte, P, Fr;
    var v1 := WithPte(v, pd, vpn, e);
    WithPteSame(v, pd, vpn, e, f, User(pd, vpn));
    assert UserOk(v, u) by { OwnerOk(data, v, u); }
    if u < TOP {
      if u == f {
        WithPteOthers(data, v, pd, vpn, e, pd, vpn);
      } else if v.role[u].User? {
        WithPteOthers(data, v, pd, vpn, e, v.role[u].pd, v.role[u].vpn);
      }
    }
  }

  lemma OwnerOk(data: nat, v: V, u: nat)
    requires Inv(data, v)
    ensures UserOk(v, u)
  {
  }

  lemma WithPteSame(v: V, pd: nat, vpn: nat, e: nat, f: nat, r: Role)
    requires |v.mem| == |v.role| == TOP && pd < TOP && vpn / 1024 < 1024 && Fr(v.mem[pd][vpn / 1024]) < TOP && f < TOP
    ensures var v1 := WithPte(v, pd, vpn, e);
            && |v1.mem| == TOP && v1.role == v.role
            && forall d: nat, w: nat :: Pte(SetRole(v1, f, r), d, w) == Pte(v1, d, w)
  {
  }

  /** mappages of a user page: the entry takes over the held page f. */
  lemma MapUser(data: nat, v: V, pd: nat, vpn: nat, f: nat, flags: nat)
    requires Inv(data, v) && IsDir(v, pd) && v.role[pd].low <= vpn / 1024 && vpn < UPAGES && P(v.mem[pd][vpn / 1024])
    requires !P(Pte(v, pd, vpn)) && f < TOP && v.role[f] == Held && flags < 4096 && flags % 2 == 1
    ensures Fr(v.mem[pd][vpn / 1024]) < TOP
    ensures Inv(data, SetRole(WithPte(v, pd, vpn, Entry(f, flags)), f, User(pd, vpn)))
  {
    TableOf(data, v, pd, vpn / 1024);
    var e := Entry(f, flags);
    var v1 := WithPte(v, pd, vpn, e);
    var v' := SetRole(v1, f, User(pd, vpn));
    forall d, y ensures PdeOk(v', d, y) { assert PdeOk(v, d, y); }
    forall s ensures TableOk(v', s) { assert TableOk(v, s); }
    forall s, y ensures PteOk(data, v', s, y) { assert PteOk(data, v, s, y); assert TableOk(v, s); }
    forall u: nat ensures UserOk(v', u) {
      MapUserOwner(data, v, pd, vpn, f, e, u);
    }
  }

  /** mappages of a kernel page. */
  lemma MapKernel(data: nat, v: V, pd: nat, vpn: nat)
    requires Inv(data, v) && IsDir(v, pd) && v.role[pd].low <= vpn / 1024 < 1024 && UPAGES <= vpn &&
             P(v.mem[pd][vpn / 1024])
    ensures Fr(v.mem[pd][vpn / 1024]) < TOP
    ensures Inv(data, WithPte(v, pd, vpn, KEntry(data, vpn)))
  {
    TableOf(data, v, pd, vpn / 1024);
    var e := KEntry(data, vpn);
    var v' := WithPte(v, pd, vpn, e);
    forall d, y ensures PdeOk(v', d, y) { assert PdeOk(v, d, y); }
    forall s ensures TableOk(v', s) { assert TableOk(v, s); }
    forall s, y ensures PteOk(data, v', s, y) { assert PteOk(data, v, s, y); assert TableOk(v, s); }
    forall u: nat ensures UserOk(v', u) {
      assert UserOk(v, u);
      if u < TOP && v'.role[u].User? {
        WithPteOthers(data, v, pd, vpn, e, v'.role[u].pd, v'.role[u].vpn);
      }
    }
  }

  /** deallocuvm of one page: the entry is cleared and its page let go. */
  lemma Unmap(data: nat, v: V, pd: nat, vpn: nat, page: Page)
    requires Inv(data, v) && IsDir(v, pd) && v.role[pd].low <= vpn / 1024 && vpn < UPAGES && P(v.mem[pd][vpn / 1024])
    requires P(Pte(v, pd, vpn))
    ensures var t, f := Fr(v.mem[pd][vpn / 1024]), Fr(Pte(v, pd, vpn));
            && t < TOP && f < TOP && f != t && v.role[f] == User(pd, vpn) && v.role[t] == Table(pd, vpn / 1024)
            && Inv(data, V(v.mem[f := page][t := v.mem[t][vpn % 1024 := 0]], v.role[f := Free]))
  {
    TableOf(data, v, pd, vpn / 1024);
    PteFacts(data, v, pd, vpn);
    var t, f := Fr(v.mem[pd][vpn / 1024]), Fr(Pte(v, pd, vpn));
    var v' := V(v.mem[f := page][t := v.mem[t][vpn % 1024 := 0]], v.role[f := Free]);
    forall d, y ensures PdeOk(v', d, y) { assert PdeOk(v, d, y); }
    forall s ensures TableOk(v', s) { assert TableOk(v, s); }
    forall s, y ensures PteOk(data, v', s, y) { assert PteOk(data, v, s, y); assert TableOk(v, s); }
    forall u: nat ensures UserOk(v', u) {
      assert UserOk(v, u);
      if u < TOP && v'.role[u].User? {
        var d, w := v'.role[u].pd, v'.role[u].vpn;
        TableOf(data, v, d, w / 1024);
      }
    }
  }

  /** freevm's loop, one entry: its table, which maps no user page, is let go. */
  lemma DropTable(data: nat, v: V, pd: nat, x: nat, page: Page)
    requires Inv(data, v) && IsDir(v, pd) && v.role[pd].low == x < 1024
    requires forall vpn: nat :: vpn < UPAGES && x <= vpn / 1024 ==> Pte(v, pd, vpn) == 0
    ensures var e := v.mem[pd][x];
            if P(e) then
              && Fr(e) < TOP && Fr(e) != pd && v.role[Fr(e)] == Table(pd, x)
              && Inv(data, V(v.mem[Fr(e) := page], v.role[Fr(e) := Free][pd := Dir(x + 1)]))
            else Inv(data, SetRole(v, pd, Dir(x + 1)))
    ensures forall w: nat :: x < w / 1024 && P(v.mem[pd][x]) && Fr(v.mem[pd][x]) < TOP ==>
              Pte(V(v.mem[Fr(v.mem[pd][x]) := page], v.role), pd, w) == Pte(v, pd, w)
  {
    hide Pte, Inv;
    TableOf(data, v, pd, x);
    var e := v.mem[pd][x];
    var v' := if P(e) then V(v.mem[Fr(e) := page], v.role[Fr(e) := Free][pd := Dir(x + 1)])
              else SetRole(v, pd, Dir(x + 1));
    forall w: nat | x < w / 1024 && P(e) && Fr(e) < TOP
      ensures Pte(V(v.mem[Fr(e) := page], v.role), pd, w) == Pte(v, pd, w) {
      DropTablePte(data, v, pd, x, page, pd, w);
    }
    DropTableInv(data, v, v', pd, x, page);
  }

  lemma DropTableInv(data: nat, v: V, v': V, pd: nat, x: nat, page: Page)
    requires Inv(data, v) && IsDir(v, pd) && v.role[pd].low == x < 1024
    requires forall vpn: nat :: vpn < UPAGES && x <= vpn / 1024 ==> Pte(v, pd, vpn) == 0
    requires Fr(v.mem[pd][x]) < TOP || !P(v.mem[pd][x])
    requires var t := Fr(v.mem[pd][x]);
             v' == if P(v.mem[pd][x]) then V(v.mem[t := page], v.role[t := Free][pd := Dir(x + 1)])
                   else SetRole(v, pd, Dir(x + 1))
    ensures Inv(data, v')
  {
    hide Pte;
    TableOf(data, v, pd, x);
    forall d, y ensures PdeOk(v', d, y) { assert PdeOk(v, d, y); }
    forall s ensures TableOk(v', s) { assert TableOk(v, s); assert PdeOk(v, pd, x); }
    forall s, y ensures PteOk(data, v', s, y) { assert PteOk(data, v, s, y); }
    forall u: nat ensures UserOk(v', u) {
      DropTableOwner(data, v, v', pd, x, page, u);
    }
  }

  /** The entries of the tables that remain. */
  lemma DropTablePte(data: nat, v: V, pd: nat, x: nat, page: Page, d: nat, w: nat)
    requires Inv(data, v) && IsDir(v, pd) && v.role[pd].low == x < 1024 && P(v.mem[pd][x]) && Fr(v.mem[pd][x]) < TOP
    requires IsDir(v, d) && v.role[d].low <= w / 1024 && (d == pd ==> x < w / 1024)
    ensures Pte(V(v.mem[Fr(v.mem[pd][x]) := page], v.role), d, w) == Pte(v, d, w)
  {
    TableOf(data, v, pd, x);
    if w / 1024 < 1024 { TableOf(data, v, d, w / 1024); }
  }

  lemma DropTableOwner(data: nat, v: V, v': V, pd: nat, x: nat, page: Page, u: nat)
    requires Inv(data, v) && IsDir(v, pd) && v.role[pd].low == x < 1024
    requires forall vpn: nat :: vpn < UPAGES && x <= vpn / 1024 ==> Pte(v, pd, vpn) == 0
    requires Fr(v.mem[pd][x]) < TOP || !P(v.mem[pd][x])
    requires var t := Fr(v.mem[pd][x]);
             v' == if P(v.mem[pd][x]) then V(v.mem[t := page], v.role[t := Free][pd := Dir(x + 1)])
                   else SetRole(v, pd, Dir(x + 1))
    ensures UserOk(v', u)
  {
    assert UserOk(v, u);
    if u < TOP && v'.role[u].User? {
      var d, w := v'.role[u].pd, v'.role[u].vpn;
      TableOf(data, v, pd, x);
      TableOf(data, v, d, w / 1024);
      if P(v.mem[pd][x]) { DropTablePte(data, v, pd, x, page, d, w); }
    }
  }

  /** freevm's end: an empty directory is let go. */
  lemma DropDir(data: nat, v: V, pd: nat, page: Page)
    requires Inv(data, v) && IsDir(v, pd) && v.role[pd].low == 1024
    ensures Inv(data, V(v.mem[pd := page], v.role[pd := Free]))
    ensures forall f :: 0 <= f < TOP && f != pd ==> Foreign(v.role[f], pd, f) || v.role[f] == Free
  {
    var v' := V(v.mem[pd := page], v.role[pd := Free]);
    forall d, y ensures PdeOk(v', d, y) { assert PdeOk(v, d, y); }
    forall s ensures TableOk(v', s) { assert TableOk(v, s); }
    forall s, y ensures PteOk(data, v', s, y) { assert PteOk(data, v, s, y); assert TableOk(v, s); }
    forall u: nat ensures UserOk(v', u) {
      assert UserOk(v, u);
      if u < TOP && v'.role[u].User? {
        var d, w := v'.role[u].pd, v'.role[u].vpn;
        TableOf(data, v, d, w / 1024);
      }
    }
    forall f: nat | f < TOP && f != pd ensures Foreign(v.role[f], pd, f) || v.role[f] == Free {
      assert TableOk(v, f) && UserOk(v, f);
    }
  }
}
