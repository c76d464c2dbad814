/** Counting the blocks one writei gives to log_write (fs.c, and the chunk size in
    filewrite, file.c). */
module FsBill {
  import opened Blocks
  import opened Params
  import opened FsState
  import opened FsContent
  import opened FsLog

  /** The blocks bmap logs: nothing for a block that is there; otherwise the new
      block, its bitmap block, the indirect block, and the latter's bitmap block
      when it is new too. */
  ghost function BmapLogs(sb: Sb, was: St, now: St, i: nat, bn: nat): set<nat> {
    if BlockOf(was, i, bn) != 0 then {}
    else {sb.BBlock(BlockOf(now, i, bn)), BlockOf(now, i, bn)} +
         (if bn < NDIRECT then {} else IndirectLogs(sb, Addr(was, i, NDIRECT), Addr(now, i, NDIRECT)))
  }

  ghost function IndirectLogs(sb: Sb, was: nat, now: nat): set<nat> {
    if was != 0 then {now} else {sb.BBlock(now), now}
  }

  /** A covering of the logged blocks: those logged before, data blocks (one a round), bitmap blocks (one
      a new block) and the indirect block. */
  datatype Bill = Bill(base: set<nat>, data: set<nat>, maps: set<nat>, rounds: nat, added: nat)

  ghost predicate Paid(bill: Bill, logged: set<nat>, ind0: nat, ind: nat) {
    && logged <= bill.base + bill.data + bill.maps + {ind}
    && |bill.data| <= bill.rounds
    && |bill.maps| <= bill.added + (if ind0 == 0 && ind != 0 then 1 else 0)
    && (ind == 0 ==> logged <= bill.base + bill.data + bill.maps)
    && (ind0 != 0 ==> ind == ind0)
  }

  /** One round of writei costs one data block and, if the block is new, one
      bitmap block; the indirect block is charged once. */
  lemma PayRound(sb: Sb, bill: Bill, logged: set<nat>, st: St, st1: St, i: nat, bn: nat, ind0: nat)
      returns (bill': Bill)
    requires Paid(bill, logged, ind0, Addr(st, i, NDIRECT)) && Grown(st, st1, i, bn)
    ensures Paid(bill', logged + BmapLogs(sb, st, st1, i, bn) + {BlockOf(st1, i, bn)}, ind0, Addr(st1, i, NDIRECT))
    ensures bill'.base == bill.base && bill'.rounds == bill.rounds + 1
    ensures bill'.added == bill.added + if BlockOf(st, i, bn) != 0 then 0 else 1
  {
    var ind, ind1, a := Addr(st, i, NDIRECT), Addr(st1, i, NDIRECT), BlockOf(st1, i, bn);
    assert ind != 0 ==> Agree(st, st1, Slot(i, NDIRECT));
    assert ind1 == At(st1, Slot(i, NDIRECT)) && ind == At(st, Slot(i, NDIRECT));
    var data := bill.data + {a};
    if BlockOf(st, i, bn) != 0 {
      bill' := Bill(bill.base, data, bill.maps, bill.rounds + 1, bill.added);
    } else {
      var more := {sb.BBlock(a)} + if ind == 0 && ind1 != 0 then {sb.BBlock(ind1)} else {};
      bill' := Bill(bill.base, data, bill.maps + more, bill.rounds + 1, bill.added + 1);
    }
  }

  lemma SizeOfUnion(a: set<nat>, b: set<nat>)
    ensures |a + b| <= |a| + |b|
  {
    assert a + b == a + (b - a);
    assert |a + b| == |a| + |b - a|;
    SubsetSize(b - a, b);
  }

  /** The total with the inode's block: rounds + added + 3 at most. */
  lemma Total(bill: Bill, logged: set<nat>, ind0: nat, ind: nat, iblock: nat)
    requires Paid(bill, logged, ind0, ind) && bill.base == {}
    ensures forall more :: logged <= more <= logged + {iblock} ==> |more| <= bill.rounds + bill.added + 3
  {
    var cover := bill.data + bill.maps + {ind};
    SizeOfUnion(bill.data, bill.maps);
    SizeOfUnion(bill.data + bill.maps, {ind});
    SizeOfUnion(logged, {iblock});
    SubsetSize(logged, cover);
    forall more | logged <= more <= logged + {iblock} ensures |more| <= |logged + {iblock}| {
      SubsetSize(more, logged + {iblock});
    }
  }

  /** The loop's progress in rounds: after the first, every round starts a block. */
  predicate Rounds(off: nat, tot: nat, n: nat, rounds: nat) {
    if rounds == 0 then tot == 0
    else
      && (off / BSIZE + rounds - 1) * BSIZE < off + tot <= (off / BSIZE + rounds) * BSIZE
      && (tot < n ==> off + tot == (off / BSIZE + rounds) * BSIZE)
  }

  lemma RoundsStep(off: nat, tot: nat, n: nat, rounds: nat, m: nat)
    requires Rounds(off, tot, n, rounds) && tot < n
    requires m == if n - tot < BSIZE - (off + tot) % BSIZE then n - tot else BSIZE - (off + tot) % BSIZE
    ensures Rounds(off, tot + m, n, rounds + 1)
    ensures (off + tot) / BSIZE == off / BSIZE + rounds
    ensures rounds == 0 ==> tot == 0
  {
  }

  /** A chunk of at most 3 * 512 bytes takes 3 rounds, or 4 when it starts inside
      a block; that first block is then already there. */
  lemma ChunkRounds(off: nat, n: nat, rounds: nat, added: nat)
    requires Rounds(off, n, n, rounds) && n <= 3 * BSIZE
    requires added <= rounds && (off % BSIZE != 0 && rounds > 0 ==> added <= rounds - 1)
    ensures rounds + added + 3 <= 10
  {
  }

  lemma FirstBill(logged: set<nat>, off: nat, n: nat, ind: nat)
    ensures Paid(Bill(logged, {}, {}, 0, 0), logged, ind, ind) && Rounds(off, 0, n, 0)
  {
  }

  // ---------- the least a writei logs ----------

  /** What a touched block costs: itself, and if it is new its map block and, beyond the
      direct ones, the indirect block. */
  ghost predicate ChargedBlock(sb: Sb, st0: St, st: St, i: nat, logged: set<nat>, bn: nat) {
    && BlockOf(st, i, bn) != 0 && BlockOf(st, i, bn) in logged
    && (BlockOf(st0, i, bn) == 0 ==>
          sb.BBlock(BlockOf(st, i, bn)) in logged && (bn >= NDIRECT ==> Addr(st, i, NDIRECT) in logged))
  }

  /** n bytes written from offset off on have been charged for, a new indirect block's
      map block included. */
  ghost predicate Charged(sb: Sb, st0: St, st: St, i: nat, off: nat, n: nat, logged: set<nat>) {
    && (forall bn: nat :: Touched(off, n, bn) ==> ChargedBlock(sb, st0, st, i, logged, bn))
    && (Addr(st0, i, NDIRECT) == 0 && Addr(st, i, NDIRECT) != 0 ==> sb.BBlock(Addr(st, i, NDIRECT)) in logged)
  }

  lemma ChargedNothing(sb: Sb, st: St, i: nat, off: nat, logged: set<nat>)
    ensures Charged(sb, st, st, i, off, 0, logged)
  {
  }

  lemma ChargedKept(sb: Sb, st0: St, st: St, st': St, i: nat, off: nat, n: nat, logged: set<nat>, logged': set<nat>)
    requires Charged(sb, st0, st, i, off, n, logged) && logged <= logged'
    requires forall t: Slot :: At(st', t) == At(st, t)
    ensures Charged(sb, st0, st', i, off, n, logged')
  {
    assert At(st', Slot(i, NDIRECT)) == At(st, Slot(i, NDIRECT));
    forall bn: nat | Touched(off, n, bn) ensures ChargedBlock(sb, st0, st', i, logged', bn) {
      assert ChargedBlock(sb, st0, st, i, logged, bn);
    }
  }

  /** One round of writei's loop. */
  lemma ChargeRound(sb: Sb, st0: St, st: St, st1: St, i: nat, src: seq<byte>, off: nat, tot: nat, m: nat,
                    logged: set<nat>, logged': set<nat>)
    requires Written(st0, st, i, src, off, tot) && 0 < m <= BSIZE - (off + tot) % BSIZE
    requires Charged(sb, st0, st, i, off, tot, logged) && Grown(st, st1, i, (off + tot) / BSIZE)
    requires (off + tot) / BSIZE < MAXFILE
    requires logged' == logged + BmapLogs(sb, st, st1, i, (off + tot) / BSIZE) + {BlockOf(st1, i, (off + tot) / BSIZE)}
    ensures Charged(sb, st0, st1, i, off, tot + m, logged')
  {
    var b, end := (off + tot) / BSIZE, tot + m;
    var ind := Slot(i, NDIRECT);
    assert At(st, ind) == Addr(st, i, NDIRECT) && At(st1, ind) == Addr(st1, i, NDIRECT);
    assert Addr(st, i, NDIRECT) != 0 ==> Agree(st, st1, ind);
    forall bn: nat | Touched(off, end, bn) ensures ChargedBlock(sb, st0, st1, i, logged', bn) {
      TouchedStep(off, tot, m, bn);
      assert BlockRight(st0, st, i, off, tot, bn);
      if Touched(off, tot, bn) {
        assert ChargedBlock(sb, st0, st, i, logged, bn);
        assert Agree(st, st1, Slot(i, SlotOfBlock(bn)));
        ChargedIndirect(sb, st0, st, i, logged, bn);
      }
    }
  }

  /** A block beyond the direct ones has its indirect block in place. */
  lemma ChargedIndirect(sb: Sb, st0: St, st: St, i: nat, logged: set<nat>, bn: nat)
    requires ChargedBlock(sb, st0, st, i, logged, bn)
    ensures bn >= NDIRECT ==> Addr(st, i, NDIRECT) != 0
  {
  }

  lemma ChargedIndirectToo(sb: Sb, st0: St, st: St, i: nat, off: nat, logged: set<nat>, bn: nat)
    requires Charged(sb, st0, st, i, off, 3 * BSIZE, logged) && Touched(off, 3 * BSIZE, bn) && bn >= NDIRECT
    ensures Addr(st, i, NDIRECT) != 0
  {
    assert ChargedBlock(sb, st0, st, i, logged, bn);
    ChargedIndirect(sb, st0, st, i, logged, bn);
  }

  /** A chunk that starts inside block b, with three new blocks after it that reach the
      indirect ones for the first time, all four new blocks under different map blocks. */
  ghost predicate WorstChunk(sb: Sb, st0: St, st: St, i: nat, off: nat, b: nat) {
    && off % BSIZE != 0 && b == off / BSIZE && NDIRECT <= b + 3 < MAXFILE
    && BlockOf(st0, i, b + 1) == BlockOf(st0, i, b + 2) == BlockOf(st0, i, b + 3) == Addr(st0, i, NDIRECT) == 0
    && var m1, m2, m3 := MapOf(sb, st, i, b + 1), MapOf(sb, st, i, b + 2), MapOf(sb, st, i, b + 3);
       var m := sb.BBlock(Addr(st, i, NDIRECT));
       m1 != m2 && m1 != m3 && m2 != m3 && m != m1 && m != m2 && m != m3
  }

  /** The map block over block bn of a file. */
  function MapOf(sb: Sb, st: St, i: nat, bn: nat): nat {
    sb.BBlock(BlockOf(st, i, bn))
  }

  /** Such a chunk that makes the file grow meets the bound of MAXOPBLOCKS exactly. */
  lemma TenBlocks(sb: Sb, st0: St, st: St, i: nat, off: nat, b: nat, logged: set<nat>)
    requires Inv(sb, st, {}) && Charged(sb, st0, st, i, off, 3 * BSIZE, logged) && WorstChunk(sb, st0, st, i, off, b)
    requires sb.IBlock(i) in logged && i < sb.ninodes && |logged| <= MAXOPBLOCKS
    ensures |logged| == MAXOPBLOCKS
  {
    hide Inv, At, BlockOf, Touched, Addr;
    var b1, b2, b3, ind := b + 1, b + 2, b + 3, Addr(st, i, NDIRECT);
    FourTouched(off, b);
    assert ChargedBlock(sb, st0, st, i, logged, b) && ChargedBlock(sb, st0, st, i, logged, b1);
    assert ChargedBlock(sb, st0, st, i, logged, b2) && ChargedBlock(sb, st0, st, i, logged, b3);
    ChargedIndirect(sb, st0, st, i, logged, b3);
    var data := FiveBlocks(sb, st, i, b);
    var maps := {MapOf(sb, st, i, b1), MapOf(sb, st, i, b2), MapOf(sb, st, i, b3), sb.BBlock(ind)};
    FourNumbers(MapOf(sb, st, i, b1), MapOf(sb, st, i, b2), MapOf(sb, st, i, b3), sb.BBlock(ind));
    TenApart(sb, data, maps, sb.IBlock(i), logged);
  }

  /** Four blocks of a file in a row, with the indirect block. */
  lemma FiveBlocks(sb: Sb, st: St, i: nat, b: nat) returns (data: set<nat>)
    requires Inv(sb, st, {}) && BlockOf(st, i, b) != 0 && BlockOf(st, i, b + 1) != 0
    requires BlockOf(st, i, b + 2) != 0 && BlockOf(st, i, b + 3) != 0 && Addr(st, i, NDIRECT) != 0
    ensures data == {BlockOf(st, i, b), BlockOf(st, i, b + 1), BlockOf(st, i, b + 2), BlockOf(st, i, b + 3),
                     Addr(st, i, NDIRECT)}
    ensures |data| == 5 && forall x :: x in data ==> sb.datastart <= x
    ensures sb.bmapstart <= MapOf(sb, st, i, b + 1) < sb.datastart
    ensures sb.bmapstart <= MapOf(sb, st, i, b + 2) < sb.datastart
    ensures sb.bmapstart <= MapOf(sb, st, i, b + 3) < sb.datastart
    ensures sb.bmapstart <= sb.BBlock(Addr(st, i, NDIRECT)) < sb.datastart
  {
    hide Inv, At, BlockOf, Addr;
    var b1, b2, b3, ind := b + 1, b + 2, b + 3, Addr(st, i, NDIRECT);
    FileBlocksDiffer(sb, st, i, b, b1);
    FileBlocksDiffer(sb, st, i, b, b2);
    FileBlocksDiffer(sb, st, i, b, b3);
    FileBlocksDiffer(sb, st, i, b1, b2);
    FileBlocksDiffer(sb, st, i, b1, b3);
    FileBlocksDiffer(sb, st, i, b2, b3);
    BBlockInRange(sb, BlockOf(st, i, b1));
    BBlockInRange(sb, BlockOf(st, i, b2));
    BBlockInRange(sb, BlockOf(st, i, b3));
    BBlockInRange(sb, ind);
    data := {BlockOf(st, i, b), BlockOf(st, i, b1), BlockOf(st, i, b2), BlockOf(st, i, b3), ind};
    FiveNumbers(BlockOf(st, i, b), BlockOf(st, i, b1), BlockOf(st, i, b2), BlockOf(st, i, b3), ind);
  }

  lemma FourNumbers(a: nat, b: nat, c: nat, d: nat)
    requires a != b && a != c && a != d && b != c && b != d && c != d
    ensures |{a, b, c, d}| == 4
  {
  }

  lemma FiveNumbers(a: nat, b: nat, c: nat, d: nat, e: nat)
    requires a != b && a != c && a != d && b != c && b != d && c != d && e !in {a, b, c, d}
    ensures |{a, b, c, d, e}| == 5
  {
    FourNumbers(a, b, c, d);
    assert {a, b, c, d, e} == {a, b, c, d} + {e};
  }

  lemma FourTouched(off: nat, b: nat)
    requires off % BSIZE != 0 && b == off / BSIZE
    ensures Touched(off, 3 * BSIZE, b) && Touched(off, 3 * BSIZE, b + 1)
    ensures Touched(off, 3 * BSIZE, b + 2) && Touched(off, 3 * BSIZE, b + 3)
  {
  }

  /** Two blocks of a file, and its indirect block, are different and lie in the data
      area. */
  lemma FileBlocksDiffer(sb: Sb, st: St, i: nat, bn: nat, bm: nat)
    requires Inv(sb, st, {}) && bn < bm && BlockOf(st, i, bn) != 0 && BlockOf(st, i, bm) != 0
    requires Addr(st, i, NDIRECT) != 0
    ensures BlockOf(st, i, bn) != BlockOf(st, i, bm)
    ensures BlockOf(st, i, bn) != Addr(st, i, NDIRECT) && BlockOf(st, i, bm) != Addr(st, i, NDIRECT)
    ensures sb.datastart <= BlockOf(st, i, bn) < sb.size && sb.datastart <= BlockOf(st, i, bm) < sb.size
    ensures sb.datastart <= Addr(st, i, NDIRECT) < sb.size
  {
    var s, t, ind := Slot(i, SlotOfBlock(bn)), Slot(i, SlotOfBlock(bm)), Slot(i, NDIRECT);
    assert At(st, ind) == Addr(st, i, NDIRECT);
    if At(st, s) == At(st, t) { NoSharing(sb, st, s, t); }
    if At(st, s) == At(st, ind) { NoSharing(sb, st, s, ind); }
    if At(st, t) == At(st, ind) { NoSharing(sb, st, t, ind); }
  }

  lemma TenApart(sb: Sb, data: set<nat>, maps: set<nat>, iblock: nat, logged: set<nat>)
    requires forall x :: x in data ==> sb.datastart <= x
    requires forall x :: x in maps ==> sb.bmapstart <= x < sb.datastart
    requires iblock < sb.bmapstart <= sb.datastart && data <= logged && maps <= logged && iblock in logged
    ensures |logged| >= |data| + |maps| + 1
  {
    assert data !! maps && iblock !in data + maps;
    assert |data + maps| == |data| + |maps|;
    SubsetSize(data + maps + {iblock}, logged);
  }

  // ---------- the worst chunk, told before it is written ----------

  /** The four lowest free blocks, each under a map block of its own. */
  ghost predicate LowestFour(sb: Sb, store: Disk, f: seq<nat>) {
    && |f| == 4 && (forall j :: 0 <= j < 4 ==> Free(sb, store, f[j]))
    && (forall j, k :: 0 <= j < k < 4 ==> f[j] < f[k] && sb.BBlock(f[j]) != sb.BBlock(f[k]))
    && forall x: nat :: Free(sb, store, x) ==> x in f || f[3] < x
  }

  /** A chunk that starts inside a block and makes the file grow, into three blocks and an
      indirect block that are not there yet. */
  ghost predicate WorstStart(sb: Sb, st: St, i: nat, off: nat, f: seq<nat>) {
    && i in st.inodes && off % BSIZE != 0 && off <= st.inodes[i].size < off + 3 * BSIZE
    && LowestFour(sb, st.store, f)
    && var b := off / BSIZE;
       && NDIRECT <= b + 3 < MAXFILE
       && BlockOf(st, i, b + 1) == BlockOf(st, i, b + 2) == BlockOf(st, i, b + 3) == Addr(st, i, NDIRECT) == 0
  }

  /** What only file i's missing blocks tell of two states. */
  ghost predicate Extended(sb: Sb, st0: St, st: St, i: nat, off: nat) {
    && Inv(sb, st0, {}) && Inv(sb, st, {}) && BlocksRight(st0, st, i, off, 3 * BSIZE)
    && (forall t: Slot :: t.inum != i ==> Agree(st0, st, t)) && Addr(st0, i, NDIRECT) == 0
  }

  /** The block number of a slot that is not the indirect pointer. */
  function BlockOfSlot(k: nat): nat {
    if k < NDIRECT then k else k - 1
  }

  lemma NewBlock(sb: Sb, st0: St, st: St, i: nat, off: nat, s: Slot)
    requires Extended(sb, st0, st, i, off) && At(st, s) != 0 && At(st0, s) == 0
    ensures Free(sb, st0.store, At(st, s)) && !Free(sb, st.store, At(st, s))
  {
    var x := At(st, s);
    assert Owns(st, s);
    assert MapRight(sb, st, x) && MapRight(sb, st0, x);
    if x in st0.own {
      var t := st0.own[x];
      if t.inum != i {
        assert Agree(st0, st, t);
      } else {
        assert At(st0, Slot(i, NDIRECT)) == 0;
        assert t == Slot(i, SlotOfBlock(BlockOfSlot(t.k)));
        assert BlockRight(st0, st, i, off, 3 * BSIZE, BlockOfSlot(t.k));
      }
      NoSharing(sb, st, s, t);
    }
  }

  lemma OnlyNew(sb: Sb, st0: St, st: St, i: nat, off: nat, x: nat)
    requires Extended(sb, st0, st, i, off) && Free(sb, st0.store, x) && !Free(sb, st.store, x)
    ensures x == Addr(st, i, NDIRECT) != 0 ||
            exists bn: nat :: Touched(off, 3 * BSIZE, bn) && BlockOf(st0, i, bn) == 0 && x == BlockOf(st, i, bn)
  {
    FreeIsUnowned(sb, st0, x);
    assert MapRight(sb, st, x);
    var s := st.own[x];
    assert At(st, s) == x && At(st0, s) != x;
    assert s.inum != i ==> Agree(st0, st, s);
    if s.k != NDIRECT {
      var bn := BlockOfSlot(s.k);
      assert s == Slot(i, SlotOfBlock(bn));
      assert BlockRight(st0, st, i, off, 3 * BSIZE, bn);
    }
  }

  /** Four blocks that came into use, all that did, are the four lowest. */
  lemma FourLowest(sb: Sb, store: Disk, store': Disk, f: seq<nat>, ns: set<nat>)
    requires LowestFour(sb, store, f) && Lowest(sb, store, store') && |ns| == 4
    requires forall x :: x in ns <==> Free(sb, store, x) && !Free(sb, store', x)
    ensures forall x :: x in ns ==> x in f
  {
    hide Free;
    var fs := {f[0], f[1], f[2], f[3]};
    FourNumbers(f[0], f[1], f[2], f[3]);
    forall j | 0 <= j < 4 ensures f[j] in ns {
      if f[j] !in ns {
        forall x | x in ns ensures x in fs - {f[j]} {
          assert x < f[j] <= f[3];
          assert x in f;
        }
        SubsetSize(ns, fs - {f[j]});
      }
    }
    if x :| x in ns && x !in f {
      SubsetSize(fs + {x}, ns);
    }
  }

  lemma MapsApart(sb: Sb, store: Disk, f: seq<nat>, x: nat, y: nat)
    requires LowestFour(sb, store, f) && x in f && y in f && x != y
    ensures sb.BBlock(x) != sb.BBlock(y)
  {
    var j :| 0 <= j < 4 && f[j] == x;
    var k :| 0 <= k < 4 && f[k] == y;
  }

  /** Before such a chunk is written it can be told that it will be the worst. */
  lemma WorstFollows(sb: Sb, st0: St, st: St, i: nat, off: nat, f: seq<nat>)
    requires Extended(sb, st0, st, i, off) && WorstStart(sb, st0, i, off, f) && Mapped(st0, i)
    requires Lowest(sb, st0.store, st.store) && Addr(st, i, NDIRECT) != 0
    ensures WorstChunk(sb, st0, st, i, off, off / BSIZE)
  {
    hide Inv, At, Free, BlockOf, Addr, Lowest, LowestFour, BlocksRight;
    var b := off / BSIZE;
    var b1, b2, b3, ind := BlockOf(st, i, b + 1), BlockOf(st, i, b + 2), BlockOf(st, i, b + 3), Addr(st, i, NDIRECT);
    NewOnes(sb, st0, st, i, off);
    FourNumbers(b1, b2, b3, ind);
    FourLowest(sb, st0.store, st.store, f, {b1, b2, b3, ind});
    MapsApart(sb, st0.store, f, b1, b2);
    MapsApart(sb, st0.store, f, b1, b3);
    MapsApart(sb, st0.store, f, b1, ind);
    MapsApart(sb, st0.store, f, b2, b3);
    MapsApart(sb, st0.store, f, b2, ind);
    MapsApart(sb, st0.store, f, b3, ind);
  }

  /** The blocks it brings into use. */
  lemma NewOnes(sb: Sb, st0: St, st: St, i: nat, off: nat)
    requires Extended(sb, st0, st, i, off) && Mapped(st0, i) && Addr(st, i, NDIRECT) != 0
    requires off % BSIZE != 0 && off <= st0.inodes[i].size && off / BSIZE + 3 < MAXFILE
    requires forall bn: nat :: off / BSIZE < bn <= off / BSIZE + 3 ==> BlockOf(st0, i, bn) == 0
    ensures var b := off / BSIZE;
            var b1, b2, b3 := BlockOf(st, i, b + 1), BlockOf(st, i, b + 2), BlockOf(st, i, b + 3);
            var ind := Addr(st, i, NDIRECT);
            && b1 != b2 && b1 != b3 && b1 != ind && b2 != b3 && b2 != ind && b3 != ind
            && forall x :: x in {b1, b2, b3, ind} <==> Free(sb, st0.store, x) && !Free(sb, st.store, x)
  {
    hide Inv, Free, Addr, At, BlockOf, Touched, BlocksRight;
    var b := off / BSIZE;
    FourTouched(off, b);
    assert BlockOf(st0, i, b) != 0;
    NewData(sb, st0, st, i, off, b + 1);
    NewData(sb, st0, st, i, off, b + 2);
    NewData(sb, st0, st, i, off, b + 3);
    AddrIsAt(st0, i);
    AddrIsAt(st, i);
    NewBlock(sb, st0, st, i, off, Slot(i, NDIRECT));
    FileBlocksDiffer(sb, st, i, b + 1, b + 2);
    FileBlocksDiffer(sb, st, i, b + 1, b + 3);
    FileBlocksDiffer(sb, st, i, b + 2, b + 3);
    forall x: nat | Free(sb, st0.store, x) && !Free(sb, st.store, x)
      ensures x in {BlockOf(st, i, b + 1), BlockOf(st, i, b + 2), BlockOf(st, i, b + 3), Addr(st, i, NDIRECT)} {
      OnlyNew(sb, st0, st, i, off, x);
      if x != Addr(st, i, NDIRECT) {
        var bn: nat :| Touched(off, 3 * BSIZE, bn) && BlockOf(st0, i, bn) == 0 && x == BlockOf(st, i, bn);
        TouchedFour(off, b, bn);
      }
    }
  }

  lemma NewData(sb: Sb, st0: St, st: St, i: nat, off: nat, bn: nat)
    requires Extended(sb, st0, st, i, off) && Touched(off, 3 * BSIZE, bn) && bn < MAXFILE && BlockOf(st0, i, bn) == 0
    ensures BlockOf(st, i, bn) != 0
    ensures Free(sb, st0.store, BlockOf(st, i, bn)) && !Free(sb, st.store, BlockOf(st, i, bn))
  {
    hide Inv, Free, Addr, At, Touched;
    assert BlockRight(st0, st, i, off, 3 * BSIZE, bn);
    NewBlock(sb, st0, st, i, off, Slot(i, SlotOfBlock(bn)));
  }

  lemma AddrIsAt(st: St, i: nat)
    ensures At(st, Slot(i, NDIRECT)) == Addr(st, i, NDIRECT)
  {
  }

  lemma TouchedFour(off: nat, b: nat, bn: nat)
    requires off % BSIZE != 0 && b == off / BSIZE && Touched(off, 3 * BSIZE, bn)
    ensures b <= bn <= b + 3
  {
  }
}
