/** The state the inode layer works on (fs.c): blocks as bread returns them, the
    inodes in memory, and, as ghost bookkeeping, who owns each data block. */
module FsState {
  import opened Blocks
  import opened Params
  import opened Bitmap

  const NDIRECT := 11
  const NINDIRECT := 128
  const MAXFILE := 139      // NDIRECT + NINDIRECT
  const SLOTS := 140

  /** The superblock's numbers, with datastart, the first block after the metadata,
      and what the blocks that nothing here writes hold. */
  datatype Sb = Sb(size: nat, ninodes: nat, logstart: nat, nlog: nat, inodestart: nat, bmapstart: nat,
                   datastart: nat, meta: Disk) {
    /** Boot and super blocks, log, inodes, free map and data follow one another. */
    predicate Ok() {
      && 0 < logstart && logstart + nlog <= inodestart && inodestart + (ninodes + 7) / 8 <= bmapstart
      && bmapstart + (size + BPB - 1) / BPB <= datastart <= size < TWO32
    }

    /** A block that is not part of the log. */
    predicate Home(x: nat) {
      x < size && !(logstart <= x < logstart + nlog)
    }

    predicate InodeBlock(x: nat) {
      inodestart <= x < inodestart + (ninodes + 7) / 8
    }

    predicate MapBlock(x: nat) {
      bmapstart <= x < bmapstart + (size + BPB - 1) / BPB
    }

    predicate Fixed(x: nat) {
      x < datastart && Home(x) && !InodeBlock(x) && !MapBlock(x)
    }

    /** BBLOCK */
    function BBlock(b: nat): nat {
      b / BPB + bmapstart
    }

    /** IBLOCK, with 8 inodes of 64 bytes to a block */
    function IBlock(inum: nat): nat {
      inum / 8 + inodestart
    }
  }

  datatype Inode = Inode(typ: nat, major: nat, minor: nat, nlink: nat, size: nat, addrs: seq<nat>, mode: nat)

  /** A place that can hold a block number: addrs[k] for k < 12 (k == NDIRECT is
      the indirect pointer), entry k - 12 of the indirect block for k >= 12. */
  datatype Slot = Slot(inum: nat, k: nat)

  datatype St = St(store: Disk, inodes: map<nat, Inode>, own: map<nat, Slot>)

  function SlotOfBlock(bn: nat): nat {
    if bn < NDIRECT then bn else bn + 1
  }

  predicate HasAddrs(st: St, i: nat) {
    i in st.inodes && |st.inodes[i].addrs| == NDIRECT + 1
  }

  function Addr(st: St, i: nat, k: nat): nat {
    if HasAddrs(st, i) && k <= NDIRECT then st.inodes[i].addrs[k] else 0
  }

  /** Entry j of the block at address a, read as an indirect block. */
  function Entry(store: Disk, a: nat, j: nat): nat
    requires j < NINDIRECT
  {
    if a != 0 && a < |store| then Word(store[a], j) else 0
  }

  /** The block number in a slot, 0 when there is none. */
  function At(st: St, s: Slot): nat {
    if s.k <= NDIRECT then Addr(st, s.inum, s.k)
    else if s.k < SLOTS then Entry(st.store, Addr(st, s.inum, NDIRECT), s.k - NDIRECT - 1)
    else 0
  }

  predicate BitSet(sb: Sb, store: Disk, b: nat)
    requires sb.BBlock(b) < |store|
  {
    BlockBit(store[sb.BBlock(b)], b % BPB)
  }

  lemma BBlockInRange(sb: Sb, b: nat)
    requires sb.Ok() && b < sb.size
    ensures sb.bmapstart <= sb.BBlock(b) < sb.datastart && sb.MapBlock(sb.BBlock(b))
    ensures sb.Home(sb.BBlock(b)) && !sb.InodeBlock(sb.BBlock(b))
  {
  }

  /** The boot and super blocks never change. */
  ghost predicate MetaKept(sb: Sb, store: Disk) {
    |sb.meta| == |store| && forall x: nat :: x < |store| && sb.Fixed(x) ==> store[x] == sb.meta[x]
  }

  /** Every nonzero slot outside `dead` owns its block and no two slots share one;
      the free map has exactly the metadata and the owned blocks set. */
  ghost predicate Inv(sb: Sb, st: St, dead: set<Slot>)
    ensures Inv(sb, st, dead) ==> sb.Ok() && |st.store| == sb.size &&
                                  forall i :: i in st.inodes ==> |st.inodes[i].addrs| == NDIRECT + 1
  {
    && sb.Ok() && |st.store| == sb.size
    && (forall i :: i in st.inodes ==> |st.inodes[i].addrs| == NDIRECT + 1)
    && (forall s :: At(st, s) != 0 ==> sb.datastart <= At(st, s) < sb.size)
    && (forall s :: At(st, s) != 0 && s !in dead ==> Owns(st, s))
    && (forall b :: b in st.own ==> sb.datastart <= b < sb.size && At(st, st.own[b]) == b && st.own[b] !in dead)
    && MapExact(sb, st) && MetaKept(sb, st.store)
  }

  predicate Owns(st: St, s: Slot) {
    At(st, s) in st.own && st.own[At(st, s)] == s
  }

  ghost predicate MapExact(sb: Sb, st: St)
    requires sb.Ok() && |st.store| == sb.size
  {
    forall b: nat :: b < sb.size ==> MapRight(sb, st, b)
  }

  ghost predicate MapRight(sb: Sb, st: St, b: nat)
    requires sb.Ok() && |st.store| == sb.size && b < sb.size
  {
    sb.BBlock(b) < |st.store| && (BitSet(sb, st.store, b) <==> b < sb.datastart || b in st.own)
  }

  lemma SlotInRange(sb: Sb, st: St, dead: set<Slot>, s: Slot)
    requires Inv(sb, st, dead)
    ensures At(st, s) != 0 ==> sb.datastart <= At(st, s) < sb.size
  {
  }

  /** No block number is held by two slots. */
  lemma NoSharing(sb: Sb, st: St, s: Slot, t: Slot)
    requires Inv(sb, st, {}) && At(st, s) != 0 && At(st, s) == At(st, t)
    ensures s == t
  {
    assert Owns(st, s) && Owns(st, t);
  }

  /** Slot s and, for a data slot, the block it names are the same in st and st'. */
  ghost predicate Agree(st: St, st': St, s: Slot) {
    && At(st', s) == At(st, s)
    && (At(st, s) != 0 && s.k != NDIRECT && At(st, s) < |st.store| ==>
          |st'.store| == |st.store| && st'.store[At(st, s)] == st.store[At(st, s)])
  }

  ghost predicate AgreeExcept(st: St, st': St, s: Slot) {
    forall t :: t != s ==> Agree(st, st', t)
  }

  // ---------- the steps ----------

  /** balloc's two writes: the bit, then the zeroed block. */
  function Taken(sb: Sb, store: Disk, b: nat): (r: Disk)
    requires sb.BBlock(b) < |store| && b < |store|
    ensures |r| == |store|
  {
    store[sb.BBlock(b) := SetBlockBit(store[sb.BBlock(b)], b % BPB)][b := ZeroBlock()]
  }

  /** bfree's write. */
  function Given(sb: Sb, store: Disk, b: nat): (r: Disk)
    requires sb.BBlock(b) < |store|
    ensures |r| == |store|
  {
    store[sb.BBlock(b) := ClearBlockBit(store[sb.BBlock(b)], b % BPB)]
  }

  function SetAddr(ip: Inode, k: nat, b: nat): Inode
    requires k < |ip.addrs|
  {
    ip.(addrs := ip.addrs[k := b])
  }

  function SetEntry(store: Disk, ind: nat, j: nat, b: nat): (r: Disk)
    requires j < WORDS && b < TWO32
    ensures |r| == |store|
  {
    if ind < |store| then store[ind := SetWord(store[ind], j, b)] else store
  }

  /** Put block number b into slot s. */
  function SetSlot(st: St, s: Slot, b: nat): St
    requires s.inum in st.inodes && |st.inodes[s.inum].addrs| == NDIRECT + 1 && s.k < SLOTS && b < TWO32
  {
    if s.k <= NDIRECT then St(st.store, st.inodes[s.inum := SetAddr(st.inodes[s.inum], s.k, b)], st.own)
    else St(SetEntry(st.store, st.inodes[s.inum].addrs[NDIRECT], s.k - NDIRECT - 1, b), st.inodes, st.own)
  }

  /** Allocate b for slot s. */
  function Alloc(sb: Sb, st: St, b: nat, s: Slot): St
    requires sb.BBlock(b) < |st.store| && b < |st.store| && b < TWO32
    requires s.inum in st.inodes && |st.inodes[s.inum].addrs| == NDIRECT + 1 && s.k < SLOTS
  {
    SetSlot(St(Taken(sb, st.store, b), st.inodes, st.own[b := s]), s, b)
  }

  lemma TakenBits(sb: Sb, store: Disk, b: nat, x: nat)
    requires sb.Ok() && |store| == sb.size && sb.datastart <= b < sb.size && x < sb.size
    ensures sb.BBlock(x) < |store|
    ensures BitSet(sb, Taken(sb, store, b), x) <==> x == b || BitSet(sb, store, x)
  {
    BBlockInRange(sb, b);
    BBlockInRange(sb, x);
    if sb.BBlock(b) == sb.BBlock(x) {
      SetBlockBitBits(store[sb.BBlock(b)], b % BPB, x % BPB);
    }
  }

  lemma GivenBits(sb: Sb, store: Disk, b: nat, x: nat)
    requires sb.Ok() && |store| == sb.size && b < sb.size && x < sb.size
    ensures sb.BBlock(x) < |store| && sb.BBlock(b) < |store|
    ensures BitSet(sb, Given(sb, store, b), x) <==> x != b && BitSet(sb, store, x)
  {
    BBlockInRange(sb, b);
    BBlockInRange(sb, x);
    if sb.BBlock(b) == sb.BBlock(x) {
      ClearBlockBitBits(store[sb.BBlock(b)], b % BPB, x % BPB);
    }
  }

  /** The slot is one an allocation may fill: empty, and with its indirect block in place. */
  predicate Fillable(st: St, s: Slot) {
    && s.inum in st.inodes && |st.inodes[s.inum].addrs| == NDIRECT + 1 && s.k < SLOTS && At(st, s) == 0
    && (s.k > NDIRECT ==> st.inodes[s.inum].addrs[NDIRECT] != 0)
  }

  /** A block of the file system whose bit is clear. */
  predicate Free(sb: Sb, store: Disk, b: nat)
    ensures Free(sb, store, b) ==> b < sb.size
  {
    b < sb.size && sb.BBlock(b) < |store| && !BitSet(sb, store, b)
  }

  /** A block is free when bit b % 8 of byte b % 4096 / 8 of its map block is clear. */
  lemma FreeIff(sb: Sb, store: Disk, b: nat)
    requires sb.Ok() && |store| == sb.size && b < sb.size
    ensures sb.bmapstart + b / 4096 < sb.datastart && Pow2(b % 8) > 0
    ensures Free(sb, store, b) <==> store[sb.bmapstart + b / 4096][b % 4096 / 8] as int / Pow2(b % 8) % 2 == 0
  {
    hide BlockBit, Pow2;
    BBlockInRange(sb, b);
    ModEight(b);
    BlockBitWeight(store[sb.BBlock(b)], b % BPB);
    assert BitSet(sb, store, b) <==> BlockBit(store[sb.BBlock(b)], b % BPB);
  }

  lemma ModEight(b: nat)
    ensures b % 4096 % 8 == b % 8
  {
    assert b == 8 * (512 * (b / 4096)) + b % 4096;
  }

  /** Bit bi of the map block that covers b, a multiple of BPB. */
  lemma FreeBit(sb: Sb, store: Disk, b: nat, bi: nat)
    requires sb.Ok() && |store| == sb.size && b % BPB == 0 && bi < BPB && b + bi < sb.size
    ensures sb.BBlock(b + bi) == sb.BBlock(b) < sb.datastart && (b + bi) % BPB == bi
    ensures Free(sb, store, b + bi) <==> !BlockBit(store[sb.BBlock(b)], bi)
  {
    BBlockInRange(sb, b);
    assert (b + bi) / BPB == b / BPB;
  }

  lemma FreeIsUnowned(sb: Sb, st: St, b: nat)
    requires Inv(sb, st, {}) && Free(sb, st.store, b)
    ensures sb.datastart <= b && b !in st.own && sb.BBlock(b) < sb.datastart
    ensures forall s :: At(st, s) != b
    ensures forall s :: At(st, s) != 0 ==> sb.datastart <= At(st, s) < sb.size
  {
    assert MapRight(sb, st, b);
    BBlockInRange(sb, b);
    forall s | At(st, s) != 0 ensures sb.datastart <= At(st, s) < sb.size && At(st, s) != b {
      assert Owns(st, s);
    }
  }

  /** What an indirect block's entries read after an allocation for slot s: an entry
      of an indirect block, or an address. */
  lemma AllocEntriesInd(sb: Sb, st: St, b: nat, s: Slot, t: Slot)
    requires Inv(sb, st, {}) && Free(sb, st.store, b) && Fillable(st, s) && NDIRECT < t.k < SLOTS && NDIRECT < s.k
    ensures b < TWO32 && sb.BBlock(b) < |st.store|
    ensures At(Alloc(sb, st, b, s), t) == if t == s then b else At(st, t)
  {
    hide Inv, BitSet, Word, SetWord, Free;
    FreeIsUnowned(sb, st, b);
    var j := t.k - NDIRECT - 1;
    var ind, sind := Slot(t.inum, NDIRECT), Slot(s.inum, NDIRECT);
    assert At(st, ind) == Addr(st, t.inum, NDIRECT);
    assert At(st, sind) == st.inodes[s.inum].addrs[NDIRECT];
    WordOfSetWord(Taken(sb, st.store, b)[At(st, sind)], s.k - NDIRECT - 1, b, j);
    if t.inum != s.inum && At(st, ind) == At(st, sind) { NoSharing(sb, st, ind, sind); }
  }

  lemma AllocEntriesAddr(sb: Sb, st: St, b: nat, s: Slot, t: Slot)
    requires Inv(sb, st, {}) && Free(sb, st.store, b) && Fillable(st, s) && NDIRECT < t.k < SLOTS && s.k <= NDIRECT
    ensures b < TWO32 && sb.BBlock(b) < |st.store|
    ensures At(Alloc(sb, st, b, s), t) == At(st, t)
  {
    hide Inv, BitSet, Word, SetWord, Free;
    FreeIsUnowned(sb, st, b);
    assert At(st, Slot(t.inum, NDIRECT)) == Addr(st, t.inum, NDIRECT);
    ZeroBlockWords(t.k - NDIRECT - 1);
  }

  lemma AllocEntries(sb: Sb, st: St, b: nat, s: Slot, t: Slot)
    requires Inv(sb, st, {}) && Free(sb, st.store, b) && Fillable(st, s) && NDIRECT < t.k < SLOTS
    ensures b < TWO32 && sb.BBlock(b) < |st.store|
    ensures At(Alloc(sb, st, b, s), t) == if t == s then b else At(st, t)
  {
    hide Inv, At, Free, Alloc;
    if s.k > NDIRECT {
      AllocEntriesInd(sb, st, b, s, t);
    } else {
      AllocEntriesAddr(sb, st, b, s, t);
    }
  }

  /** The block allocated for one slot leaves every other slot and its data alone. */
  lemma AllocAt(sb: Sb, st: St, b: nat, s: Slot, t: Slot)
    requires Inv(sb, st, {}) && Free(sb, st.store, b) && Fillable(st, s)
    ensures b < TWO32 && sb.BBlock(b) < |st.store|
    ensures var st' := Alloc(sb, st, b, s);
            if t == s then At(st', t) == b else Agree(st, st', t)
  {
    FreeIsUnowned(sb, st, b);
    if t.k > NDIRECT && t.k < SLOTS {
      AllocEntries(sb, st, b, s, t);
    }
    if s.k > NDIRECT && t.k != NDIRECT && At(st, t) != 0 && At(st, t) == At(st, Slot(s.inum, NDIRECT)) {
      NoSharing(sb, st, t, Slot(s.inum, NDIRECT));
    }
  }

  lemma AllocKeepsMeta(sb: Sb, st: St, b: nat, s: Slot)
    requires Inv(sb, st, {}) && Free(sb, st.store, b) && Fillable(st, s)
    ensures b < TWO32 && sb.BBlock(b) < |st.store| && MetaKept(sb, Alloc(sb, st, b, s).store)
  {
    FreeIsUnowned(sb, st, b);
    BBlockInRange(sb, b);
    if s.k > NDIRECT { assert Owns(st, Slot(s.inum, NDIRECT)); }
  }

  lemma AllocKeepsMap(sb: Sb, st: St, b: nat, s: Slot)
    requires Inv(sb, st, {}) && Free(sb, st.store, b) && Fillable(st, s)
    ensures b < TWO32 && sb.BBlock(b) < |st.store| && MapExact(sb, Alloc(sb, st, b, s))
  {
    hide MetaKept;
    FreeIsUnowned(sb, st, b);
    var st' := Alloc(sb, st, b, s);
    forall x: nat | x < sb.size ensures MapRight(sb, st', x) {
      assert MapRight(sb, st, x);
      TakenBits(sb, st.store, b, x);
      BBlockInRange(sb, x);
      if s.k > NDIRECT { assert Owns(st, Slot(s.inum, NDIRECT)); }
    }
  }

  /** Owners are exact again, given that only slot s has changed. */
  lemma AllocKeepsOwners(sb: Sb, st: St, b: nat, s: Slot, st': St)
    requires Inv(sb, st, {}) && sb.datastart <= b < sb.size && b !in st.own && st'.own == st.own[b := s]
    requires forall t :: if t == s then At(st', t) == b else Agree(st, st', t)
    requires At(st, s) == 0
    ensures forall t :: At(st', t) != 0 ==> Owns(st', t) && sb.datastart <= At(st', t) < sb.size
    ensures forall x :: x in st'.own ==> sb.datastart <= x < sb.size && At(st', st'.own[x]) == x
  {
    hide MetaKept, MapExact, At;
    forall t | At(st', t) != 0 ensures Owns(st', t) && sb.datastart <= At(st', t) < sb.size {
      if t != s { assert Agree(st, st', t) && Owns(st, t); }
    }
    forall x | x in st'.own ensures sb.datastart <= x < sb.size && At(st', st'.own[x]) == x {
      if x != b { assert Agree(st, st', st.own[x]); }
    }
  }

  /** Allocation keeps the ownership invariant and touches nothing else. */
  lemma AllocKeepsInv(sb: Sb, st: St, b: nat, s: Slot)
    requires Inv(sb, st, {}) && Free(sb, st.store, b) && Fillable(st, s)
    ensures sb.datastart <= b < sb.size && b !in st.own && sb.BBlock(b) < |st.store|
    ensures var st' := Alloc(sb, st, b, s);
            Inv(sb, st', {}) && At(st', s) == b && AgreeExcept(st, st', s)
  {
    hide MetaKept, MapExact, At, Agree, Free, Taken;
    FreeIsUnowned(sb, st, b);
    AllocKeepsMeta(sb, st, b, s);
    AllocKeepsMap(sb, st, b, s);
    var st' := Alloc(sb, st, b, s);
    forall t ensures if t == s then At(st', t) == b else Agree(st, st', t) {
      AllocAt(sb, st, b, s, t);
    }
    AllocKeepsOwners(sb, st, b, s, st');
  }

  /** bfree of slot s's block: the block leaves the owned set, the slot is dead
      until it is cleared, and no slot or data block changes. */
  lemma FreeKeepsInv(sb: Sb, st: St, s: Slot, dead: set<Slot>)
    requires Inv(sb, st, dead) && At(st, s) != 0 && s !in dead
    ensures sb.BBlock(At(st, s)) < |st.store| && BitSet(sb, st.store, At(st, s))
    ensures var st' := St(Given(sb, st.store, At(st, s)), st.inodes, st.own - {At(st, s)});
            Inv(sb, st', dead + {s}) && forall t :: Agree(st, st', t)
  {
    var b := At(st, s);
    assert Owns(st, s) && MapRight(sb, st, b);
    BBlockInRange(sb, b);
    var st' := St(Given(sb, st.store, b), st.inodes, st.own - {b});
    forall t ensures Agree(st, st', t) {
      assert t.k > NDIRECT ==> Addr(st', t.inum, NDIRECT) == Addr(st, t.inum, NDIRECT) == At(st, Slot(t.inum, NDIRECT));
    }
    forall x: nat | x < sb.size ensures MapRight(sb, st', x) {
      assert MapRight(sb, st, x);
      GivenBits(sb, st.store, b, x);
      BBlockInRange(sb, x);
    }
    forall t | At(st', t) != 0 ensures sb.datastart <= At(st', t) < sb.size && (t !in dead + {s} ==> Owns(st', t)) {
      assert Agree(st, st', t) && (t !in dead ==> Owns(st, t));
    }
    forall x | x in st'.own
        ensures sb.datastart <= x < sb.size && At(st', st'.own[x]) == x && st'.own[x] !in dead + {s} {
      assert Agree(st, st', st.own[x]);
    }
  }

  /** Clearing a direct slot whose block has been freed. */
  lemma ClearKeepsInv(sb: Sb, st: St, s: Slot, dead: set<Slot>)
    requires Inv(sb, st, dead) && s in dead && s.k < NDIRECT && s.inum in st.inodes
    ensures var st' := SetSlot(st, s, 0);
            Inv(sb, st', dead - {s}) && At(st', s) == 0 && AgreeExcept(st, st', s)
  {
    var st' := SetSlot(st, s, 0);
    forall t: Slot | t != s ensures Agree(st, st', t) {
      assert t.k > NDIRECT ==> Addr(st', t.inum, NDIRECT) == Addr(st, t.inum, NDIRECT);
    }
    SlotGone(sb, st, st', dead, dead - {s});
  }

  /** Clearing the indirect pointer takes all its entries away. */
  lemma ClearIndirectKeepsInv(sb: Sb, st: St, i: nat, dead: set<Slot>)
    requires Inv(sb, st, dead) && i in st.inodes
    requires forall t: Slot :: t.inum == i && t.k >= NDIRECT && At(st, t) != 0 ==> t in dead
    requires forall t: Slot :: t in dead ==> t.inum == i && t.k >= NDIRECT
    ensures var st' := SetSlot(st, Slot(i, NDIRECT), 0);
            && Inv(sb, st', {})
            && (forall t: Slot :: t.inum == i && t.k >= NDIRECT ==> At(st', t) == 0)
            && (forall t: Slot :: t.inum != i || t.k < NDIRECT ==> Agree(st, st', t))
  {
    var st' := SetSlot(st, Slot(i, NDIRECT), 0);
    forall t: Slot | t.inum != i || t.k < NDIRECT ensures Agree(st, st', t) {
      assert t.k > NDIRECT ==> Addr(st', t.inum, NDIRECT) == Addr(st, t.inum, NDIRECT);
    }
    SlotGone(sb, st, st', dead, {});
  }

  /** Slots only disappear, and those that do were dead. */
  lemma SlotGone(sb: Sb, st: St, st': St, dead: set<Slot>, dead': set<Slot>)
    requires Inv(sb, st, dead) && dead' <= dead && st'.store == st.store && st'.own == st.own
    requires forall i :: i in st'.inodes ==> |st'.inodes[i].addrs| == NDIRECT + 1
    requires forall t :: At(st', t) == At(st, t) || (At(st', t) == 0 && t in dead)
    requires forall t :: At(st', t) != 0 && t in dead ==> t in dead'
    ensures Inv(sb, st', dead')
  {
    forall x: nat | x < sb.size ensures MapRight(sb, st', x) {
      assert MapRight(sb, st, x);
    }
    forall t | At(st', t) != 0 && t !in dead' ensures Owns(st', t) {
      assert Owns(st, t);
    }
    forall x | x in st'.own ensures sb.datastart <= x < sb.size && At(st', st'.own[x]) == x {
      assert At(st, st.own[x]) == x;
    }
  }

  /** New data for one data slot's block. */
  lemma WriteKeepsInv(sb: Sb, st: St, s: Slot, data: Block)
    requires Inv(sb, st, {}) && At(st, s) != 0 && s.k != NDIRECT
    ensures At(st, s) < |st.store|
    ensures var st' := St(st.store[At(st, s) := data], st.inodes, st.own);
            Inv(sb, st', {}) && At(st', s) == At(st, s) && AgreeExcept(st, st', s)
  {
    var b := At(st, s);
    assert Owns(st, s);
    var st' := St(st.store[b := data], st.inodes, st.own);
    forall t ensures At(st', t) == At(st, t) && (t != s ==> Agree(st, st', t)) {
      if t.k > NDIRECT && At(st, Slot(t.inum, NDIRECT)) == b { NoSharing(sb, st, s, Slot(t.inum, NDIRECT)); }
      if t != s && At(st, t) == b { NoSharing(sb, st, s, t); }
    }
    forall x: nat | x < sb.size ensures MapRight(sb, st', x) {
      assert MapRight(sb, st, x);
      BBlockInRange(sb, x);
    }
    forall t | At(st', t) != 0 ensures Owns(st', t) {
      assert Owns(st, t);
    }
  }
}
