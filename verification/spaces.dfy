/** The address spaces of many processes over one page allocator (sbrk, exec's guard
    page, fork and exit over vm.c). */
module Spaces {
  import opened PageTables
  import opened Kalloc
  import opened Vm
  import opened Uvm
  import opened Params

  /** A live address space: its directory, its recorded size, and the growproc calls
      made on it, each with the size it found. */
  datatype Live = Live(pd: nat, sz: nat, grows: seq<(nat, int)>)

  /** What the i-th live process does: sbrk, exec's guard page, fork, or exit and the
      parent's wait. */
  datatype Step = Grow(i: nat, n: int) | Guard(i: nat, uva: nat) | Fork(i: nat) | Exit(i: nat)

  predicate StepOk(s: Step) {
    match s
    case Grow(_, n) => -0x8000_0000 <= n < 0x8000_0000
    case Guard(_, uva) => uva < KERNBASE
    case _ => true
  }

  /** One of the growproc calls was by minus the whole size. */
  ghost predicate Emptied(l: Live) {
    exists j :: 0 <= j < |l.grows| && WholeSize(l.grows[j])
  }

  predicate WholeSize(g: (nat, int)) {
    g.0 > 0 && g.0 + g.1 == 0
  }

  /** The kernel is mapped in full, out of user code's reach.  The recorded size is right;
      or, once growproc has emptied the space, page 0 is missing below it. */
  ghost predicate Exact(v: V, l: Live)
    requires |v.mem| == TOP
  {
    && KernelSafe(v, l.pd) && l.sz < KERNBASE && Below(v, l.pd, l.sz)
    && if Emptied(l) then l.sz > 0 && !P(Pte(v, l.pd, 0)) else Space(v, l.pd, l.sz)
  }

  /** A page of address space pd. */
  predicate Owned(r: Role, pd: nat, g: nat) {
    g == pd || (r.Table? && r.pd == pd) || (r.User? && r.pd == pd)
  }

  /** A page that was free is free again or belongs to a live space; the others have not
      changed and belong to none. */
  ghost predicate PageOk(v: V, v1: V, ls: seq<Live>, g: nat)
    requires |v.mem| == |v.role| == |v1.mem| == |v1.role| == TOP && g < TOP
  {
    if v.role[g] == Free then v1.role[g] == Free || exists i :: 0 <= i < |ls| && Owned(v1.role[g], ls[i].pd, g)
    else v1.role[g] == v.role[g] && v1.mem[g] == v.mem[g] && forall l :: l in ls ==> !Owned(v1.role[g], l.pd, g)
  }

  /** The live spaces ls, made since v of pages that were free then. */
  ghost predicate Family(v: V, v1: V, ls: seq<Live>) {
    && |v.mem| == |v.role| == |v1.mem| == |v1.role| == TOP
    && (forall l :: l in ls ==> Whole(v1, l.pd) && v.role[l.pd] == Free && Exact(v1, l))
    && (forall i, j :: 0 <= i < j < |ls| ==> ls[i].pd != ls[j].pd)
    && forall g: nat :: g < TOP ==> PageOk(v, v1, ls, g)
  }

  ghost predicate SamePtes(v1: V, v2: V, pd: nat)
    requires |v1.mem| == |v2.mem| == TOP
  {
    forall w: nat :: w < 1024 * 1024 ==> Pte(v2, pd, w) == Pte(v1, pd, w)
  }

  lemma ExactKept(v1: V, v2: V, l: Live)
    requires |v1.mem| == |v2.mem| == TOP && Exact(v1, l) && SamePtes(v1, v2, l.pd)
    ensures Exact(v2, l)
  {
    assert Pte(v2, l.pd, 0) == Pte(v1, l.pd, 0);
  }

  lemma KernelKept(v1: V, v2: V, pd: nat)
    requires |v1.mem| == |v2.mem| == TOP && KernelSafe(v1, pd)
    requires forall w: nat :: UPAGES <= w < 1024 * 1024 ==> Pte(v2, pd, w) == Pte(v1, pd, w)
    ensures KernelSafe(v2, pd)
  {
  }

  lemma Member(v: V, v1: V, ls: seq<Live>, i: nat)
    requires Family(v, v1, ls) && i < |ls|
    ensures Whole(v1, ls[i].pd) && v.role[ls[i].pd] == Free && Exact(v1, ls[i]) && ls[i].sz < KERNBASE
    ensures Below(v1, ls[i].pd, ls[i].sz) && KernelSafe(v1, ls[i].pd)
  {
    assert ls[i] in ls;
  }

  // ---------- what each operation does to the family ----------

  /** An operation on one space that moves pages only between it and the list. */
  lemma FamilyFrames(data: nat, v: V, v1: V, v2: V, ls: seq<Live>, i: nat, l: Live)
    requires Inv(data, v1) && Family(v, v1, ls) && i < |ls| && l.pd == ls[i].pd
    requires Frames(v1, v2, l.pd, {}) && Whole(v2, l.pd) && Exact(v2, l)
    ensures Family(v, v2, ls[i := l])
  {
    hide Inv, Exact, Pte;
    var ls' := ls[i := l];
    Member(v, v1, ls, i);
    forall x | x in ls' ensures Whole(v2, x.pd) && v.role[x.pd] == Free && Exact(v2, x) {
      if x != l {
        var j :| 0 <= j < |ls| && j != i && ls[j] == x;
        Member(v, v1, ls, j);
        forall w: nat | w < 1024 * 1024 ensures Whole(v2, x.pd) && Pte(v2, x.pd, w) == Pte(v1, x.pd, w) {
          OtherSpaces(data, v1, v2, l.pd, x.pd, w);
        }
        OtherSpaces(data, v1, v2, l.pd, x.pd, 0);
        ExactKept(v1, v2, x);
      }
    }
    forall g: nat | g < TOP ensures PageOk(v, v2, ls', g) {
      PageFrames(v, v1, v2, ls, i, l, g);
    }
  }

  lemma PageFrames(v: V, v1: V, v2: V, ls: seq<Live>, i: nat, l: Live, g: nat)
    requires Family(v, v1, ls) && i < |ls| && l.pd == ls[i].pd && Frames(v1, v2, l.pd, {}) && g < TOP
    ensures PageOk(v, v2, ls[i := l], g)
  {
    hide Exact;
    var ls' := ls[i := l];
    assert PageOk(v, v1, ls, g) && ls[i] in ls && ls'[i] == l;
    assert forall j :: 0 <= j < |ls| ==> ls'[j].pd == ls[j].pd;
    if g != l.pd {
      assert FrameOk(v1, v2, l.pd, {}, g);
    }
    if v.role[g] == Free {
      if v1.role[g] != Free && g != l.pd && !Owned(v1.role[g], l.pd, g) {
        var j :| 0 <= j < |ls| && Owned(v1.role[g], ls[j].pd, g);
        assert Owned(v2.role[g], ls'[j].pd, g);
      } else {
        assert v2.role[g] == Free || Owned(v2.role[g], ls'[i].pd, g);
      }
    } else {
      forall x | x in ls' ensures !Owned(v2.role[g], x.pd, g) {
        var j :| 0 <= j < |ls| && ls'[j] == x;
        assert ls[j] in ls;
      }
    }
  }

  /** A new space, made of free pages. */
  lemma FamilyGrows(data: nat, v: V, v1: V, v2: V, ls: seq<Live>, l: Live)
    requires Inv(data, v1) && Family(v, v1, ls) && FreshSpace(v1, v2, l.pd) && Exact(v2, l)
    ensures Family(v, v2, ls + [l])
  {
    hide Inv, Exact, Pte;
    var ls' := ls + [l];
    assert PageOk(v, v1, ls, l.pd);
    forall x | x in ls' ensures Whole(v2, x.pd) && v.role[x.pd] == Free && Exact(v2, x) {
      if x in ls {
        forall w: nat | w < 1024 * 1024 ensures Pte(v2, x.pd, w) == Pte(v1, x.pd, w) {
          ParentKept(data, v1, v2, x.pd, l.pd, w);
        }
        ParentKept(data, v1, v2, x.pd, l.pd, 0);
        ExactKept(v1, v2, x);
      }
    }
    forall i | 0 <= i < |ls| ensures ls[i].pd != l.pd {
      Member(v, v1, ls, i);
    }
    forall g: nat | g < TOP ensures PageOk(v, v2, ls', g) {
      assert PageOk(v, v1, ls, g) && (g != l.pd ==> FreshOk(v1, v2, l.pd, g));
      assert ls'[|ls|] == l && forall i :: 0 <= i < |ls| ==> ls'[i] == ls[i];
    }
  }

  function Without(ls: seq<Live>, i: nat): seq<Live>
    requires i < |ls|
  {
    ls[..i] + ls[i + 1..]
  }

  lemma FreedOthers(data: nat, v: V, v': V, pd: nat, d: nat, w: nat)
    requires Inv(data, v) && Freed(v, v', pd) && Whole(v, pd) && Whole(v, d) && d != pd && w < 1024 * 1024
    ensures Whole(v', d) && Pte(v', d, w) == Pte(v, d, w)
  {
    TableOf(data, v, d, w / 1024);
    assert v'.role[d] == v.role[d];
    if P(v.mem[d][w / 1024]) { assert v'.role[Fr(v.mem[d][w / 1024])] == v.role[Fr(v.mem[d][w / 1024])]; }
  }

  /** freevm of one space. */
  lemma FamilyShrinks(data: nat, v: V, v1: V, v2: V, ls: seq<Live>, i: nat)
    requires Inv(data, v1) && Family(v, v1, ls) && i < |ls| && Freed(v1, v2, ls[i].pd)
    ensures Family(v, v2, Without(ls, i))
  {
    hide Inv, Exact, Pte;
    var ls' := Without(ls, i);
    Member(v, v1, ls, i);
    assert forall j :: 0 <= j < |ls'| ==> ls'[j] == ls[if j < i then j else j + 1];
    forall x | x in ls' ensures Whole(v2, x.pd) && v.role[x.pd] == Free && Exact(v2, x) {
      var j :| 0 <= j < |ls'| && ls'[j] == x;
      Member(v, v1, ls, if j < i then j else j + 1);
      forall w: nat | w < 1024 * 1024 ensures Pte(v2, x.pd, w) == Pte(v1, x.pd, w) {
        FreedOthers(data, v1, v2, ls[i].pd, x.pd, w);
      }
      FreedOthers(data, v1, v2, ls[i].pd, x.pd, 0);
      ExactKept(v1, v2, x);
    }
    forall g: nat | g < TOP ensures PageOk(v, v2, ls', g) {
      PageFreed(v, v1, v2, ls, i, g);
    }
  }

  lemma PageFreed(v: V, v1: V, v2: V, ls: seq<Live>, i: nat, g: nat)
    requires Family(v, v1, ls) && i < |ls| && Freed(v1, v2, ls[i].pd) && g < TOP
    ensures PageOk(v, v2, Without(ls, i), g)
  {
    hide Exact;
    var ls' := Without(ls, i);
    assert forall j :: 0 <= j < |ls'| ==> ls'[j] == ls[if j < i then j else j + 1];
    assert PageOk(v, v1, ls, g) && ls[i] in ls;
    if v.role[g] == Free {
      if v1.role[g] != Free && !Owned(v1.role[g], ls[i].pd, g) {
        var j :| 0 <= j < |ls| && Owned(v1.role[g], ls[j].pd, g);
        assert ls'[if j < i then j else j - 1] == ls[j];
      }
    } else {
      forall x | x in ls' ensures x in ls {
        var j :| 0 <= j < |ls'| && ls'[j] == x;
      }
    }
  }

  /** A failed fork. */
  lemma FamilySame(data: nat, v: V, v1: V, v2: V, ls: seq<Live>)
    requires Inv(data, v1) && Family(v, v1, ls) && Unchanged(v1, v2)
    ensures Family(v, v2, ls)
  {
    hide Inv, Exact;
    forall l | l in ls ensures Whole(v2, l.pd) && Exact(v2, l) {
      forall w: nat | w < 1024 * 1024 ensures Pte(v2, l.pd, w) == Pte(v1, l.pd, w) {
        TableOf(data, v1, l.pd, w / 1024);
      }
      ExactKept(v1, v2, l);
    }
    forall g: nat | g < TOP ensures PageOk(v, v2, ls, g) {
      assert PageOk(v, v1, ls, g);
    }
  }

  lemma FamilyEnds(v: V, v1: V)
    requires Family(v, v1, [])
    ensures Unchanged(v, v1)
  {
    forall g: nat | g < TOP ensures v1.role[g] == v.role[g] && (v.role[g] != Free ==> v1.mem[g] == v.mem[g]) {
      assert PageOk(v, v1, [], g);
    }
  }

  lemma NoFamily(data: nat, v: V)
    requires Inv(data, v)
    ensures Family(v, v, [])
  {
  }

  // ---------- the steps ----------

  /** What a step may make of the list of live spaces. */
  ghost predicate Next(ls: seq<Live>, s: Step, ls': seq<Live>) {
    if s.i >= |ls| then ls' == ls
    else
      var l := ls[s.i];
      match s
      case Grow(i, n) =>
        && |ls'| == |ls| && (ls'[i].sz == l.sz || ls'[i].sz == l.sz + n)
        && ls' == ls[i := Live(l.pd, ls'[i].sz, l.grows + [(l.sz, n)])]
      case Guard(_, _) => ls' == ls
      case Fork(_) =>
        ls' == ls || (!Emptied(l) && |ls'| == |ls| + 1 && ls' == ls + [Live(ls'[|ls|].pd, l.sz, [])])
      case Exit(i) => ls' == Without(ls, i)
  }

  /** A step that the source may panic in: clearpteu where the page table is missing, and
      fork of an emptied space, unless it fails first. */
  ghost predicate Stops(v: V, ls: seq<Live>, s: Step) {
    s.i < |ls| && match s
                  case Guard(i, uva) =>
                    ls[i].pd < |v.mem| && uva < KERNBASE && !P(v.mem[ls[i].pd][uva / PGSIZE / 1024])
                  case Fork(i) => Emptied(ls[i])
                  case _ => false
  }

  lemma EmptiedSnoc(l: Live, sz: nat, g: (nat, int))
    ensures Emptied(Live(l.pd, sz, l.grows + [g])) <==> Emptied(l) || WholeSize(g)
  {
    var gs := l.grows + [g];
    assert gs[|l.grows|] == g;
    if Emptied(l) {
      var j :| 0 <= j < |l.grows| && WholeSize(l.grows[j]);
      assert WholeSize(gs[j]);
    }
  }

  lemma EmptyLacksZero(v: V, pd: nat)
    requires |v.mem| == TOP
    ensures Space(v, pd, 0) ==> !P(Pte(v, pd, 0))
  {
  }

  method GrowStep(k: Kmem, ls: seq<Live>, i: nat, n: int, ghost v: V) returns (ls': seq<Live>)
    requires k.Valid() && Family(v, k.St(), ls) && i < |ls| && StepOk(Grow(i, n))
    modifies k`freelist, k`free, k`role, k.mem
    ensures k.Valid() && Family(v, k.St(), ls') && Next(ls, Grow(i, n), ls')
  {
    hide Inv, Pte, P, Below, Space, Frames, Chain, Family, Emptied, KernelSafe;
    ghost var v1 := k.St();
    Member(v, v1, ls, i);
    var l := ls[i];
    var r, sz;
    ghost var full;
    r, sz, full := Growproc(k, l.pd, l.sz, n);
    var l' := Live(l.pd, sz, l.grows + [(l.sz, n)]);
    EmptiedSnoc(l, sz, (l.sz, n));
    EmptyLacksZero(k.St(), l.pd);
    KernelKept(v1, k.St(), l.pd);
    FamilyFrames(k.data, v, v1, k.St(), ls, i, l');
    ls' := ls[i := l'];
  }

  method GuardStep(k: Kmem, ls: seq<Live>, i: nat, uva: nat, ghost v: V) returns (ok: bool)
    requires k.Valid() && Family(v, k.St(), ls) && i < |ls| && uva < KERNBASE
    modifies k`freelist, k`free, k`role, k.mem
    ensures k.Valid() && Family(v, k.St(), ls)
    ensures ok <==> !Stops(old(k.St()), ls, Guard(i, uva))
    ensures !ok ==> k.St() == old(k.St())
  {
    hide Inv, Pte, P, Below, Space, Frames, Chain, Family, Emptied, KernelSafe;
    ghost var v1 := k.St();
    Member(v, v1, ls, i);
    ok := Clearpteu(k, ls[i].pd, uva);
    SameSpaces(v1, k.St(), ls[i].pd);
    assert UPAGES > 0;
    UserPage(uva);
    KernelKept(v1, k.St(), ls[i].pd);
    FamilyFrames(k.data, v, v1, k.St(), ls, i, ls[i]);
    assert ls[i := ls[i]] == ls;
  }

  lemma ForkExact(data: nat, v1: V, v2: V, l: Live, d: nat)
    requires Copied(data, v1, v2, l.pd, d, Up(l.sz)) && l.sz < KERNBASE && UPAGES + EXTPAGE < data < UPAGES + TOP
    ensures FreshSpace(v1, v2, d) && Exact(v2, Live(d, l.sz, []))
  {
    CopySpace(data, v1, v2, l.pd, d, l.sz);
    CopiedKernel(data, v1, v2, l.pd, d, Up(l.sz));
    forall w: nat | w < UPAGES && w * PGSIZE >= l.sz ensures !P(Pte(v2, d, w)) {
      assert !(w * PGSIZE < l.sz);
    }
  }

  /** Everything below the size is there, unless the space was emptied. */
  lemma PresentIff(v: V, l: Live)
    requires |v.mem| == TOP && Exact(v, l)
    ensures PresentTo(v, l.pd, Up(l.sz)) <==> !Emptied(l)
  {
    if Emptied(l) {
      assert 0 < Up(l.sz);
    } else {
      forall w: nat | w < Up(l.sz) ensures P(Pte(v, l.pd, w)) {
        assert w < UPAGES && w * PGSIZE < l.sz;
      }
    }
  }

  /** fork's copyuvm; ok is false where it panics, which takes an emptied space. */
  method ForkStep(k: Kmem, ls: seq<Live>, i: nat, ghost v: V) returns (ok: bool, ls': seq<Live>, ghost full: V)
    requires k.Valid() && Family(v, k.St(), ls) && i < |ls|
    modifies k`freelist, k`free, k`role, k.mem
    ensures ok ==> k.Valid() && Family(v, k.St(), ls') && Next(ls, Fork(i), ls')
    ensures !ok ==> Emptied(ls[i])
    ensures ok && ls' == ls ==> CopyRanOut(k.data, old(k.St()), full, ls[i].pd, Up(ls[i].sz))
  {
    hide Inv, Pte, P, FreshSpace, Copied, Unchanged, Below, Chain, Family, Exact, Emptied, CopyRanOut, KernelBits;
    ghost var v1 := k.St();
    var l := ls[i];
    Member(v, v1, ls, i);
    PresentIff(v1, l);
    var d;
    ghost var m;
    ok, d, m, full := Copyuvm(k, l.pd, l.sz);
    ls' := ls;
    if !ok {
      return;
    }
    if d == 0 {
      FamilySame(k.data, v, v1, k.St(), ls);
      return;
    }
    ForkExact(k.data, v1, k.St(), l, d);
    FamilyGrows(k.data, v, v1, k.St(), ls, Live(d, l.sz, []));
    ls' := ls + [Live(d, l.sz, [])];
  }

  /** exit, and the wait that frees the space. */
  method ExitStep(k: Kmem, ls: seq<Live>, i: nat, ghost v: V) returns (ls': seq<Live>)
    requires k.Valid() && Family(v, k.St(), ls) && i < |ls|
    modifies k`freelist, k`free, k`role, k.mem
    ensures k.Valid() && Family(v, k.St(), ls') && ls' == Without(ls, i)
  {
    hide Inv, Freed, Family, Exact, Chain;
    ghost var v1 := k.St();
    Member(v, v1, ls, i);
    Freevm(k, ls[i].pd);
    FamilyShrinks(k.data, v, v1, k.St(), ls, i);
    ls' := Without(ls, i);
  }

  /** One step of a run; ok is false where the source panics. */
  method RunStep(k: Kmem, ls: seq<Live>, s: Step, ghost v: V) returns (ok: bool, ls': seq<Live>)
    requires k.Valid() && Family(v, k.St(), ls) && StepOk(s)
    modifies k`freelist, k`free, k`role, k.mem
    ensures ok ==> k.Valid() && Family(v, k.St(), ls') && Next(ls, s, ls')
    ensures !ok ==> Stops(old(k.St()), ls, s) && Stops(k.St(), ls, s)
    ensures ok && Stops(old(k.St()), ls, s) ==> s.Fork? && ls' == ls
  {
    hide Inv, Family, Chain, Emptied;
    ok, ls' := true, ls;
    if s.i >= |ls| {
      return;                      // no such process
    }
    match s
    case Grow(i, n) => ls' := GrowStep(k, ls, i, n, v);
    case Guard(i, uva) => ok := GuardStep(k, ls, i, uva, v);
    case Fork(i) =>
      ghost var full;
      ok, ls', full := ForkStep(k, ls, i, v);
    case Exit(i) => ls' := ExitStep(k, ls, i, v);
  }

  // ---------- whole runs ----------

  /** The lists of live spaces along a run, from one new space on. */
  ghost predicate Traced(steps: seq<Step>, trace: seq<seq<Live>>, m: nat)
    ensures Traced(steps, trace, m) ==> |trace| == m + 1 && m <= |steps|
  {
    && |trace| == m + 1 && m <= |steps| && |trace[0]| == 1 && trace[0][0].sz == 0 && trace[0][0].grows == []
    && forall j :: 0 <= j < m ==> Next(trace[j], steps[j], trace[j + 1])
  }

  lemma TracedSnoc(steps: seq<Step>, trace: seq<seq<Live>>, m: nat, ls: seq<Live>)
    requires Traced(steps, trace, m) && m < |steps| && Next(trace[m], steps[m], ls)
    ensures Traced(steps, trace + [ls], m + 1)
  {
  }

  lemma {:induction false} PresentLacking(v: V, pd: nat, sz: nat, n: nat)
    requires |v.mem| == TOP && Below(v, pd, sz) && !P(Pte(v, pd, 0)) && sz > 0 && 1 <= n <= UPAGES
    ensures Present(v, pd, n) < Least(n, Up(sz))
  {
    if n > 1 {
      PresentLacking(v, pd, sz, n - 1);
    } else {
      assert Present(v, pd, 1) == Present(v, pd, 0);
    }
  }

  lemma CountExact(v: V, l: Live)
    requires |v.mem| == TOP && Exact(v, l)
    ensures Present(v, l.pd, UPAGES) == Up(l.sz) <==> !Emptied(l)
  {
    hide Emptied;
    if Emptied(l) {
      PresentLacking(v, l.pd, l.sz, UPAGES);
    } else {
      CountIsCeil(v, l.pd, l.sz);
    }
  }

  /** countphysicalpages of every live space. */
  method CountAll(k: Kmem, ls: seq<Live>, ghost v: V) returns (counts: seq<int>)
    requires k.Valid() && Family(v, k.St(), ls)
    ensures |counts| == |ls|
    ensures forall i :: 0 <= i < |ls| ==> (counts[i] == Up(ls[i].sz) <==> !Emptied(ls[i]))
  {
    hide Inv, Family, Exact, Emptied, Present, Chain;
    counts := [];
    while |counts| < |ls|
      invariant |counts| <= |ls|
      invariant forall i :: 0 <= i < |counts| ==> (counts[i] == Up(ls[i].sz) <==> !Emptied(ls[i]))
    {
      var l := ls[|counts|];
      Member(v, k.St(), ls, |counts|);
      CountExact(k.St(), l);
      var count := Countphysicalpages(k, l.pd);
      counts := counts + [count];
    }
  }

  method FreeAll(k: Kmem, ls0: seq<Live>, ghost v: V)
    requires k.Valid() && Family(v, k.St(), ls0)
    modifies k`freelist, k`free, k`role, k.mem
    ensures k.Valid() && Unchanged(v, k.St())
  {
    hide Inv, Family, Chain, Unchanged;
    var ls := ls0;
    while ls != []
      invariant k.Valid() && Family(v, k.St(), ls)
      decreases |ls|
    {
      ls := ExitStep(k, ls, 0, v);
    }
    FamilyEnds(v, k.St());
  }

  /** setupkvm, then any run of growproc, clearpteu, fork and exit by any number of
      processes, some with failures for want of memory, then freevm of all that are
      left.  Before that each live space's count is ceil(sz / PGSIZE) exactly when none
      of its growproc calls was by minus the whole size; afterwards the free pages are
      exactly those at the start and no page in use has changed. */
  method Lifetimes(k: Kmem, steps: seq<Step>) returns (ok: bool, counts: seq<int>, ghost trace: seq<seq<Live>>)
    requires k.Valid() && forall s :: s in steps ==> StepOk(s)
    modifies k`freelist, k`free, k`role, k.mem
    ensures ok && trace != [] ==> Traced(steps, trace, |steps|) && |counts| == |trace[|steps|]|
    ensures ok && trace != [] ==>
              forall i :: 0 <= i < |counts| ==> var l := trace[|steps|][i]; (counts[i] == Up(l.sz) <==> !Emptied(l))
    ensures ok ==> k.Valid() && Unchanged(old(k.St()), k.St())
    ensures !ok ==> exists m: nat ::
              Traced(steps, trace, m) && m < |steps| && Stops(k.St(), trace[m], steps[m])
  {
    hide Inv, FreshSpace, KernelPart, Unchanged, Family, Traced, Emptied, Next, Chain, Stops;
    ghost var v := k.St();
    var pd;
    ghost var full;
    pd, full := Setupkvm(k);
    ok, counts, trace := true, [], [];
    if pd == 0 {
      return;
    }
    var ls := [Live(pd, 0, [])];
    FamilyStarts(k.data, v, k.St(), pd);
    trace := [ls];
    TracedStart(steps, ls);
    var i := 0;
    while i < |steps|
      invariant 0 <= i <= |steps| && k.Valid() && Family(v, k.St(), ls)
      invariant Traced(steps, trace, i) && |trace| == i + 1 && trace[i] == ls
    {
      var ls';
      ok, ls' := RunStep(k, ls, steps[i], v);
      if !ok {
        assert Stops(k.St(), trace[i], steps[i]);
        return;
      }
      TracedSnoc(steps, trace, i, ls');
      trace := trace + [ls'];
      ls, i := ls', i + 1;
    }
    counts := CountAll(k, ls, v);
    FreeAll(k, ls, v);
  }

  lemma TracedStart(steps: seq<Step>, ls: seq<Live>)
    requires |ls| == 1 && ls[0].sz == 0 && ls[0].grows == []
    ensures Traced(steps, [ls], 0)
  {
  }

  lemma NewExact(data: nat, v: V, v1: V, pd: nat)
    requires UPAGES + EXTPAGE < data < UPAGES + TOP && FreshSpace(v, v1, pd) && KernelPart(data, v1, pd, 4)
    ensures |v1.mem| == TOP && Exact(v1, Live(pd, 0, []))
  {
    hide Pte, KernelBits, KernelPart;
    KernelPartBits(data, v1, pd);
    forall w: nat | UPAGES <= w < 1024 * 1024 ensures Shielded(w, Pte(v1, pd, w)) {
      BitsShield(data, w, Pte(v1, pd, w));
    }
  }

  lemma FamilyStarts(data: nat, v: V, v1: V, pd: nat)
    requires UPAGES + EXTPAGE < data < UPAGES + TOP && FreshSpace(v, v1, pd) && KernelPart(data, v1, pd, 4)
    requires Inv(data, v)
    ensures Family(v, v1, [Live(pd, 0, [])])
  {
    hide Inv, Exact, FreshSpace, KernelPart, Pte;
    var l := Live(pd, 0, []);
    NewExact(data, v, v1, pd);
    NoFamily(data, v);
    FamilyGrows(data, v, v, v1, [], l);
    assert [] + [l] == [l];
  }
}
