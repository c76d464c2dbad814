/** itrunc (fs.c), slot by slot. */
module FsTrunc {
  import opened Blocks
  import opened Params
  import opened FsState
  import opened FsContent
  import opened FsLog
  import opened Bitmap

  /** Part way through truncating inode i: the slots with k in `gone` have given
      their blocks back (and are clear, or dead until the indirect pointer is
      cleared); nothing else has changed. */
  ghost predicate Truncating(sb: Sb, st0: St, st: St, i: nat, gone: set<nat>, dead: set<Slot>) {
    && Inv(sb, st, dead) && OnlyAddrs(st0, st, i)
    && (forall t: Slot :: t.inum != i || t.k !in gone ==> Agree(st0, st, t))
    && (forall t: Slot :: t.inum == i && t.k in gone ==> At(st, t) == 0 || t in dead)
    && OwnLess(st0.own, st.own, i, gone)
  }

  /** Exactly the blocks of the gone slots have left the owned set. */
  ghost predicate OwnLess(own0: map<nat, Slot>, own: map<nat, Slot>, i: nat, gone: set<nat>) {
    && (forall b :: b in own <==> b in own0 && (own0[b].inum != i || own0[b].k !in gone))
    && (forall b :: b in own ==> own[b] == own0[b])
  }

  lemma TruncStart(sb: Sb, st: St, i: nat)
    requires Inv(sb, st, {})
    ensures Truncating(sb, st, st, i, {}, {})
  {
  }

  /** A slot that holds nothing. */
  lemma TruncSkip(sb: Sb, st0: St, st: St, i: nat, gone: set<nat>, dead: set<Slot>, k: nat)
    requires Truncating(sb, st0, st, i, gone, dead) && At(st, Slot(i, k)) == 0
    ensures Truncating(sb, st0, st, i, gone + {k}, dead)
  {
    forall b | b in st.own ensures st0.own[b].inum != i || st0.own[b].k != k {
      assert At(st, st.own[b]) == b && sb.datastart <= b;
    }
  }

  /** bfree of the slot's block. */
  lemma TruncFree(sb: Sb, st0: St, st: St, st1: St, i: nat, gone: set<nat>, dead: set<Slot>, k: nat)
    requires Truncating(sb, st0, st, i, gone, dead) && Slot(i, k) !in dead && At(st, Slot(i, k)) != 0
    requires Inv(sb, st1, dead + {Slot(i, k)}) && (forall t :: Agree(st, st1, t)) && |st.store| == |st1.store|
    requires st1.inodes == st.inodes && st1.own == st.own - {At(st, Slot(i, k))}
    ensures Truncating(sb, st0, st1, i, gone + {k}, dead + {Slot(i, k)})
  {
    var s := Slot(i, k);
    assert Owns(st, s);
    forall t: Slot | t.inum != i || t.k !in gone + {k} ensures Agree(st0, st1, t) {
      assert Agree(st0, st, t) && Agree(st, st1, t);
    }
    forall t: Slot | t.inum == i && t.k in gone + {k} ensures At(st1, t) == 0 || t in dead + {s} {
      assert Agree(st, st1, t);
    }
    forall b | b in st.own && b != At(st, s) ensures st0.own[b].inum != i || st0.own[b].k != k {
      assert At(st, st.own[b]) == b;
    }
  }

  /** addrs[k] = 0 after the bfree. */
  lemma TruncClear(sb: Sb, st0: St, st: St, i: nat, gone: set<nat>, k: nat)
    requires Truncating(sb, st0, st, i, gone, {Slot(i, k)}) && k in gone && k < NDIRECT && i in st.inodes
    ensures Truncating(sb, st0, SetSlot(st, Slot(i, k), 0), i, gone, {})
  {
    var s := Slot(i, k);
    var st1 := SetSlot(st, s, 0);
    ClearKeepsInv(sb, st, s, {s});
    assert {s} - {s} == {};
    forall t: Slot | t.inum != i || t.k !in gone ensures Agree(st0, st1, t) {
      assert Agree(st0, st, t) && Agree(st, st1, t);
    }
    forall t: Slot | t.inum == i && t.k in gone ensures At(st1, t) == 0 {
      assert t == s || Agree(st, st1, t);
    }
  }

  /** addrs[NDIRECT] = 0 after every entry and the indirect block have been freed. */
  lemma TruncClearIndirect(sb: Sb, st0: St, st: St, i: nat, dead: set<Slot>)
    requires Truncating(sb, st0, st, i, All(), dead) && i in st.inodes
    requires forall t :: t in dead ==> t.inum == i && t.k >= NDIRECT
    ensures Truncating(sb, st0, SetSlot(st, Slot(i, NDIRECT), 0), i, All(), {})
  {
    var st1 := SetSlot(st, Slot(i, NDIRECT), 0);
    ClearIndirectKeepsInv(sb, st, i, dead);
    forall t: Slot | t.inum != i || t.k !in All() ensures Agree(st0, st1, t) {
      assert Agree(st0, st, t);
      assert t.inum != i || t.k < NDIRECT ==> Agree(st, st1, t);
    }
    forall t: Slot | t.inum == i && t.k in All() ensures At(st1, t) == 0 {
      assert t.k < NDIRECT ==> Agree(st, st1, t);
    }
  }

  function All(): set<nat> {
    Range(0, SLOTS)
  }

  lemma AllSlots(gone: set<nat>)
    requires gone == Range(0, NDIRECT) + Range(12, SLOTS)
    ensures gone + {NDIRECT} == All()
  {
  }

  /** The buffer read before the loop still shows the entries not yet freed. */
  lemma StillThere(sb: Sb, st0: St, st1: St, st: St, i: nat, gone1: set<nat>, gone: set<nat>, dead: set<Slot>, ind: nat,
      j: nat)
    requires Truncating(sb, st0, st1, i, gone1, {}) && Truncating(sb, st0, st, i, gone, dead)
    requires j < NINDIRECT && j + 12 !in gone1 && j + 12 !in gone
    requires i in st1.inodes && ind == Addr(st1, i, NDIRECT) != 0
    ensures ind < |st1.store|
    ensures Word(st1.store[ind], j) == At(st, Slot(i, j + 12)) == At(st0, Slot(i, j + 12))
  {
    var s := Slot(i, j + 12);
    assert At(st1, Slot(i, NDIRECT)) == ind;
    assert Agree(st0, st1, s) && Agree(st0, st, s);
  }

  /** Only the addresses, the size and possibly the type, now 0, have changed. */
  predicate SameFields(was: Inode, now: Inode) {
    now == was.(addrs := now.addrs, size := now.size, typ := now.typ) && (now.typ == was.typ || now.typ == 0)
  }

  /** The whole truncation: the inode's slots are empty, exactly its blocks are
      released, every other slot and its data are as before. */
  ghost predicate Truncated(sb: Sb, st0: St, st: St, i: nat) {
    && Inv(sb, st, {})
    && st.inodes.Keys == st0.inodes.Keys && (forall j :: j in st.inodes && j != i ==> st.inodes[j] == st0.inodes[j])
    && (i in st.inodes ==> SameFields(st0.inodes[i], st.inodes[i]))
    && (forall t: Slot :: t.inum == i ==> At(st, t) == 0)
    && (forall t: Slot :: t.inum != i ==> Agree(st0, st, t))
    && (forall b :: b in st.own <==> b in st0.own && st0.own[b].inum != i)
    && (forall b :: b in st.own ==> st.own[b] == st0.own[b])
  }

  lemma TruncDone(sb: Sb, st0: St, st: St, i: nat)
    requires Inv(sb, st0, {}) && Truncating(sb, st0, st, i, All(), {})
    ensures Truncated(sb, st0, st, i)
  {
    forall t: Slot | t.inum == i ensures At(st, t) == 0 {
      if t.k < SLOTS { assert t.k in All(); }
    }
    forall b | b in st0.own ensures st0.own[b].k in All() {
      assert At(st0, st0.own[b]) == b;
    }
  }

  lemma TruncatedInv(sb: Sb, st0: St, st: St, i: nat)
    requires Truncated(sb, st0, st, i)
    ensures Inv(sb, st, {})
  {
  }

  lemma TruncatingInv(sb: Sb, st0: St, st: St, i: nat, gone: set<nat>, dead: set<Slot>)
    requires Truncating(sb, st0, st, i, gone, dead)
    ensures Inv(sb, st, dead) && st.inodes.Keys == st0.inodes.Keys
    ensures forall s :: At(st, s) != 0 ==> At(st, s) < |st.store|
    ensures i in st.inodes ==> Addr(st, i, NDIRECT) == At(st, Slot(i, NDIRECT)) == st.inodes[i].addrs[NDIRECT]
    ensures i in st.inodes ==> st.inodes[i] == st0.inodes[i].(addrs := st.inodes[i].addrs)
  {
  }

  /** An inode without an indirect block has no entries to free. */
  lemma NoIndirect(sb: Sb, st0: St, st: St, i: nat)
    requires Inv(sb, st0, {}) && Truncating(sb, st0, st, i, Range(0, NDIRECT), {})
    requires i in st.inodes && st.inodes[i].addrs[NDIRECT] == 0
    ensures Truncating(sb, st0, st, i, All(), {})
  {
    forall t: Slot | t.inum == i && t.k in All() ensures At(st, t) == 0 {
      if t.k >= NDIRECT { assert Addr(st, i, NDIRECT) == 0; }
    }
    forall b | b in st.own ensures st0.own[b].inum != i || st0.own[b].k !in All() {
      var t := st.own[b];
      assert At(st, t) == b && sb.datastart <= b;
      assert t.inum != i || t.k !in All();
    }
  }

  /** The truncated file, once its size is 0, is empty; the others read as before. */
  lemma EmptyFile(sb: Sb, st0: St, st: St, i: nat)
    requires Truncated(sb, st0, st, i) && i in st.inodes && Inv(sb, st0, {})
    requires forall j :: j in st0.inodes ==> Mapped(st0, j)
    ensures var st1 := SetSize(st, i, 0);
            && Truncated(sb, st0, st1, i) && Inv(sb, st1, {}) && Content(st1, i) == [] && Mapped(st1, i)
            && st1.inodes.Keys == st0.inodes.Keys &&
               (forall j :: j in st0.inodes && j != i ==> st1.inodes[j] == st0.inodes[j])
            && forall j :: j in st0.inodes && j != i ==> Mapped(st1, j) && Content(st1, j) == Content(st0, j)
  {
    var st1 := SetSize(st, i, 0);
    SetSizeKeeps(sb, st, i, 0);
    forall t: Slot ensures At(st1, t) == At(st, t) && (t.inum != i ==> Agree(st0, st1, t)) {
      assert t.inum != i ==> Agree(st0, st, t);
    }
    forall j | j in st0.inodes && j != i ensures Mapped(st1, j) && Content(st1, j) == Content(st0, j) {
      SameFile(st0, st1, j);
    }
  }

  /** The free map after a truncation: exactly the inode's blocks became free. */
  lemma TruncatedMap(sb: Sb, st0: St, st: St, i: nat, b: nat)
    requires Inv(sb, st0, {}) && Truncated(sb, st0, st, i) && b < sb.size
    ensures Free(sb, st.store, b) <==> Free(sb, st0.store, b) || (b in st0.own && st0.own[b].inum == i)
  {
    assert MapRight(sb, st0, b) && MapRight(sb, st, b);
  }

  function SetType(st: St, i: nat, typ: nat): St
    requires i in st.inodes
  {
    St(st.store, st.inodes[i := st.inodes[i].(typ := typ)], st.own)
  }

  /** Marking the emptied inode free changes no content. */
  lemma SetTypeKeeps(sb: Sb, st0: St, st: St, i: nat)
    requires Truncated(sb, st0, st, i) && i in st.inodes
    requires forall j :: j in st.inodes ==> Mapped(st, j)
    ensures var st1 := SetType(st, i, 0);
            && Inv(sb, st1, {}) && Truncated(sb, st0, st1, i)
            && forall j :: j in st.inodes ==> Mapped(st1, j) && Content(st1, j) == Content(st, j)
  {
    var st1 := SetType(st, i, 0);
    forall t: Slot ensures At(st1, t) == At(st, t) && Agree(st, st1, t) {
      assert Addr(st1, t.inum, NDIRECT) == Addr(st, t.inum, NDIRECT);
    }
    forall t: Slot | t.inum != i ensures Agree(st0, st1, t) {
      assert Agree(st0, st, t);
    }
    SlotGone(sb, st, st1, {}, {});
    forall j | j in st.inodes ensures Mapped(st1, j) && Content(st1, j) == Content(st, j) {
      SameFile(st, st1, j);
    }
  }

  /** iupdate afterwards moves no slot. */
  lemma TruncatedStored(sb: Sb, st0: St, st: St, st1: St, i: nat)
    requires Truncated(sb, st0, st, i) && Inv(sb, st1, {}) && st1.inodes == st.inodes && st1.own == st.own
    requires forall t: Slot :: At(st1, t) == At(st, t) && Agree(st, st1, t)
    ensures Truncated(sb, st0, st1, i)
  {
    forall t: Slot | t.inum != i ensures Agree(st0, st1, t) {
      assert Agree(st0, st, t) && Agree(st, st1, t);
    }
  }

  // ---------- what itrunc logs ----------

  /** The map blocks that cover inode i's blocks in the slots `gone`. */
  ghost function MapsOf(sb: Sb, own: map<nat, Slot>, i: nat, gone: set<nat>): set<nat> {
    set b | b in own && own[b].inum == i && own[b].k in gone :: sb.BBlock(b)
  }

  /** The map blocks that cover all of inode i's blocks. */
  ghost function MapsFor(sb: Sb, own: map<nat, Slot>, i: nat): set<nat> {
    set b | b in own && own[b].inum == i :: sb.BBlock(b)
  }

  lemma MapsSkip(sb: Sb, st0: St, st: St, i: nat, gone: set<nat>, dead: set<Slot>, k: nat)
    requires Inv(sb, st0, {}) && Truncating(sb, st0, st, i, gone, dead) && At(st, Slot(i, k)) == 0
    ensures MapsOf(sb, st0.own, i, gone + {k}) == MapsOf(sb, st0.own, i, gone)
  {
    if k !in gone {
      assert Agree(st0, st, Slot(i, k));
      forall b | b in st0.own && st0.own[b].inum == i ensures st0.own[b].k != k {
        assert At(st0, st0.own[b]) == b && sb.datastart <= b;
      }
    }
  }

  lemma MapsFree(sb: Sb, st0: St, st: St, i: nat, gone: set<nat>, dead: set<Slot>, k: nat)
    requires Inv(sb, st0, {}) && Truncating(sb, st0, st, i, gone, dead) && k !in gone && At(st, Slot(i, k)) != 0
    ensures MapsOf(sb, st0.own, i, gone + {k}) == MapsOf(sb, st0.own, i, gone) + {sb.BBlock(At(st, Slot(i, k)))}
  {
    var s := Slot(i, k);
    assert Agree(st0, st, s);
    assert Owns(st0, s);
    forall b | b in st0.own && st0.own[b] == s ensures b == At(st, s) {
      assert At(st0, st0.own[b]) == b;
    }
  }

  /** What a truncation under way has logged: the map blocks of the slots gone. */
  ghost predicate TruncLogs(sb: Sb, st0: St, store: Disk, log0: set<nat>, logged: set<nat>, i: nat, gone: set<nat>) {
    logged == log0 + MapsOf(sb, st0.own, i, gone) && Quiet(sb, st0.store, store, log0, logged)
  }

  lemma LogsStart(sb: Sb, st0: St, log0: set<nat>, i: nat)
    ensures TruncLogs(sb, st0, st0.store, log0, log0, i, {})
  {
    assert log0 + MapsOf(sb, st0.own, i, {}) == log0;
    QuietNone(sb, st0.store, log0);
  }

  lemma LogsSkip(sb: Sb, st0: St, st: St, log0: set<nat>, logged: set<nat>, i: nat, gone: set<nat>, dead: set<Slot>,
      k: nat)
    requires TruncLogs(sb, st0, st.store, log0, logged, i, gone)
    requires Inv(sb, st0, {}) && Truncating(sb, st0, st, i, gone, dead) && At(st, Slot(i, k)) == 0
    ensures TruncLogs(sb, st0, st.store, log0, logged, i, gone + {k})
  {
    MapsSkip(sb, st0, st, i, gone, dead, k);
  }

  lemma LogsFree(sb: Sb, st0: St, st: St, store: Disk, log0: set<nat>, logged: set<nat>, logged': set<nat>, i: nat,
                 gone: set<nat>, dead: set<Slot>, k: nat)
    requires TruncLogs(sb, st0, st.store, log0, logged, i, gone)
    requires Inv(sb, st0, {}) && Truncating(sb, st0, st, i, gone, dead) && k !in gone && At(st, Slot(i, k)) != 0
    requires logged' == logged + {sb.BBlock(At(st, Slot(i, k)))} && Quiet(sb, st.store, store, logged, logged')
    ensures TruncLogs(sb, st0, store, log0, logged', i, gone + {k})
  {
    MapsFree(sb, st0, st, i, gone, dead, k);
    QuietTwice(sb, st0.store, st.store, store, log0, logged, logged');
  }

  lemma LogsEnd(sb: Sb, st0: St, store: Disk, log0: set<nat>, logged: set<nat>, i: nat)
    requires Inv(sb, st0, {}) && TruncLogs(sb, st0, store, log0, logged, i, All())
    ensures logged == log0 + MapsFor(sb, st0.own, i)
    ensures Wrote(sb, st0.store, store, log0, logged) && InodesStill(sb, st0.store, store)
  {
    forall b | b in st0.own ensures st0.own[b].k in All() {
      assert At(st0, st0.own[b]) == b && sb.datastart <= b;
    }
    assert MapsOf(sb, st0.own, i, All()) == MapsFor(sb, st0.own, i);
  }

  lemma LogsNoIndirect(sb: Sb, st0: St, st: St, log0: set<nat>, logged: set<nat>, i: nat)
    requires TruncLogs(sb, st0, st.store, log0, logged, i, Range(0, NDIRECT))
    requires Inv(sb, st0, {}) && Truncating(sb, st0, st, i, Range(0, NDIRECT), {})
    requires i in st.inodes && st.inodes[i].addrs[NDIRECT] == 0
    ensures TruncLogs(sb, st0, st.store, log0, logged, i, All())
  {
    assert Agree(st0, st, Slot(i, NDIRECT)) && Addr(st0, i, NDIRECT) == At(st0, Slot(i, NDIRECT)) == 0;
    forall b | b in st0.own && st0.own[b].inum == i && st0.own[b].k in All() ensures st0.own[b].k < NDIRECT {
      assert At(st0, st0.own[b]) == b && sb.datastart <= b;
    }
    assert MapsOf(sb, st0.own, i, All()) == MapsOf(sb, st0.own, i, Range(0, NDIRECT));
  }

  /** An itrunc, and so an iput, fits one transaction exactly when the inode's blocks
      lie under at most nine map blocks. */
  lemma TruncFitsIff(sb: Sb, st0: St, i: nat)
    requires Inv(sb, st0, {}) && i < sb.ninodes
    ensures |MapsFor(sb, st0.own, i) + {sb.IBlock(i)}| <= MAXOPBLOCKS <==> |MapsFor(sb, st0.own, i)| <= 9
  {
    forall b | b in st0.own ensures sb.BBlock(b) != sb.IBlock(i) {
      BBlockInRange(sb, b);
    }
    assert sb.IBlock(i) !in MapsFor(sb, st0.own, i);
  }

  /** On a disk of at most nine map blocks every truncation fits. */
  lemma SmallDiskTruncFits(sb: Sb, st0: St, i: nat)
    requires Inv(sb, st0, {}) && sb.size <= 9 * BPB
    ensures |MapsFor(sb, st0.own, i)| <= 9
  {
    var maps := Range(sb.bmapstart, sb.bmapstart + 9);
    forall x | x in MapsFor(sb, st0.own, i) ensures x in maps {
      var b :| b in st0.own && sb.BBlock(b) == x;
    }
    RangeSize(sb.bmapstart, sb.bmapstart + 9);
    SubsetSize(MapsFor(sb, st0.own, i), maps);
  }
}
