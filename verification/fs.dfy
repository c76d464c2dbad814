/** The block allocator, block map, readi, writei, truncate and iput (fs.c).

    `store` is what bread returns for each block, which the cache makes the last
    value given to log_write; `logged` collects the blocks given to log_write
    since begin_op, `calls` the calls themselves, and `history` the transactions ended
    by end_op.  Where fs.c panics a method returns ok == false and the machine is taken
    to have stopped.  The panics below fs.c, of bread for want of a buffer and of
    log_write, are not in this file: mount.dfy runs these methods over the log and the
    cache, and says when those panics occur. */
module Fs {
  import opened Blocks
  import opened Bitmap
  import opened FsState
  import opened FsContent
  import opened FsBill
  import opened FsTrunc
  import opened FsLog
  import opened FsInode
  import opened Params

  class FileSys {
    const sb: Sb
    var store: Disk
    var inodes: map<nat, Inode>       // in memory, by inode number
    var ref: map<nat, nat>            // ip->ref
    var cached: set<nat>              // ip->valid
    ghost var own: map<nat, Slot>
    ghost var logged: set<nat>
    ghost var base: Disk              // the blocks when the operation began
    var calls: seq<Write>             // its calls of log_write, oldest first
    ghost var history: seq<Tx>

    ghost function StOf(): St
      reads this`store, this`inodes, this`own
    {
      St(store, inodes, own)
    }

    ghost predicate Traced()
      reads this`store, this`logged, this`base, this`calls
    {
      CalledSince(base, calls, store, logged)
    }

    /** Ownership is exact, every file's blocks are in place, and the inodes on
        disk are those in memory. */
    ghost predicate Valid()
      reads this`store, this`inodes, this`own
      ensures Valid() ==> forall i :: i in inodes ==> inodes[i].size <= MAXBYTES
    {
      Good(sb, StOf())
    }

    /** A formatted disk: only the metadata is in use, and every inode is free. */
    constructor (sb: Sb)
      requires sb.Ok() && |sb.meta| == sb.size
      ensures this.sb == sb && Valid() && logged == {} && history == [] && own == map[] && cached == {}
      ensures forall i :: i in inodes <==> 0 <= i < sb.ninodes
      ensures forall i :: i in inodes ==> inodes[i].typ == 0 && inodes[i].size == 0
      ensures forall b: nat :: b < sb.size ==> (Free(sb, store, b) <==> sb.datastart <= b)
      ensures |store| == sb.size && forall b: nat :: b < sb.size && !sb.Home(b) ==> store[b] == ZeroBlock()
    {
      hide Good, Inv, MetaKept, Free, BitSet;
      this.sb := sb;
      store := Blank(sb);
      inodes := EmptyInodes(sb.ninodes);
      own, logged, history, ref, cached, base, calls := map[], {}, [], map[], {}, [], [];
      new;
      var b := 0;
      BlankBits(sb);
      while b < sb.datastart
        invariant 0 <= b <= sb.datastart && |store| == sb.size && Marked(sb, store, b)
        invariant inodes == EmptyInodes(sb.ninodes)
        invariant own == map[] && logged == {} && history == [] && cached == {}
      {
        BBlockInRange(sb, b);
        MarkNext(sb, store, b);
        store := store[sb.BBlock(b) := SetBlockBit(store[sb.BBlock(b)], b % BPB)];
        b := b + 1;
      }
      Formatted(sb, store, inodes);
    }

    /** A disk that holds the sound file system st, as ilock reads its inodes. */
    constructor Mounted(sb: Sb, d: Disk, ghost st: St)
      requires Good(sb, st) && st.store == d && AllInodes(sb, st)
      ensures this.sb == sb && Valid() && StOf() == st && logged == {} && history == [] && ref == map[]
    {
      hide Inv, Mapped, Fits, WordsAt, WordsOf;
      this.sb, store := sb, d;
      inodes := ReadInodes(sb, d);
      own, logged, history, ref, cached, base, calls := st.own, {}, [], map[], {}, [], [];
      new;
      InodesRead(sb, st);
    }

    /** log_write of the buffer that holds block b: the only way a block changes. */
    method LogWrite(b: nat, data: Block)
      requires sb.Ok() && |store| == sb.size && sb.Home(b)
      modifies this`store, this`logged, this`calls
      ensures store == old(store)[b := data] && logged == old(logged) + {b}
      ensures Wrote(sb, old(store), store, old(logged), logged)
      ensures !sb.InodeBlock(b) ==> Quiet(sb, old(store), store, old(logged), logged)
      ensures old(Traced()) ==> Traced()
    {
      QuietOne(sb, store, logged, b, data);
      if Traced() {
        CallOne(base, calls, store, logged, b, data);
      }
      calls := calls + [Write(b, data)];
      store := store[b := data];
      logged := logged + {b};
    }

    ghost predicate SomeFree()
      reads this
    {
      exists b :: Free(sb, store, b)
    }

    method Bzero(bno: nat)
      requires sb.Ok() && |store| == sb.size && sb.datastart <= bno < sb.size
      modifies this`store, this`logged, this`calls
      ensures store == old(store)[bno := ZeroBlock()] && logged == old(logged) + {bno}
      ensures Quiet(sb, old(store), store, old(logged), logged)
      ensures old(Traced()) ==> Traced()
    {
      hide Traced;
      DataBlock(sb, bno);
      LogWrite(bno, ZeroBlock());
    }

    /** balloc's two writes, once a clear bit is found. */
    method TakeBlock(b: nat, bi: nat)
      requires Inv(sb, StOf(), {}) && b % BPB == 0 && bi < BPB && Free(sb, store, b + bi)
      modifies this`store, this`logged, this`calls
      ensures b + bi < sb.size && sb.BBlock(b + bi) < sb.size && store == Taken(sb, old(store), b + bi)
      ensures logged == old(logged) + {sb.BBlock(b + bi), b + bi}
      ensures Quiet(sb, old(store), store, old(logged), logged)
      ensures old(Traced()) ==> Traced()
    {
      hide Traced, Inv, Free, BlockBit, SetBlockBit, Quiet, Wrote;
      FreeBit(sb, store, b, bi);
      BBlockInRange(sb, b);
      FreeIsUnowned(sb, StOf(), b + bi);
      LogWrite(sb.BBlock(b), SetBlockBit(store[sb.BBlock(b)], bi));
      ghost var store1, logged1 := store, logged;
      Bzero(b + bi);
      QuietTwice(sb, old(store), store1, store, old(logged), logged1, logged);
    }

    /** balloc: the lowest free block, its bit set and its contents zeroed. */
    method Balloc() returns (ok: bool, r: nat)
      requires Inv(sb, StOf(), {})
      modifies this`store, this`logged, this`calls
      ensures ok <==> old(SomeFree())
      ensures ok ==> Free(sb, old(store), r) && forall x: nat :: x < r ==> !Free(sb, old(store), x)
      ensures ok ==> r < sb.size && sb.BBlock(r) < sb.size && store == Taken(sb, old(store), r)
      ensures ok ==> logged == old(logged) + {sb.BBlock(r), r}
      ensures Quiet(sb, old(store), store, old(logged), logged)
      ensures !ok ==> store == old(store) && logged == old(logged) && !SomeFree()
      ensures old(Traced()) ==> Traced()
    {
      hide Traced, Inv, Free, BlockBit, SetBlockBit, Quiet, Wrote, Taken;
      QuietNone(sb, store, logged);
      var b := 0;
      while b < sb.size
        invariant b % BPB == 0 && store == old(store) && logged == old(logged)
        invariant forall x: nat :: x < b ==> !Free(sb, store, x)
        invariant old(Traced()) ==> Traced()
        decreases sb.size - b
      {
        BBlockInRange(sb, b);
        var bp := store[sb.BBlock(b)];
        var bi := 0;
        while bi < BPB && b + bi < sb.size
          invariant 0 <= bi <= BPB && store == old(store) && logged == old(logged)
          invariant forall x: nat :: x < b + bi ==> !Free(sb, store, x)
          invariant old(Traced()) ==> Traced()
        {
          FreeBit(sb, store, b, bi);
          if !BlockBit(bp, bi) {
            assert Free(sb, store, b + bi) && SomeFree();
            TakeBlock(b, bi);
            return true, b + bi;
          }
          bi := bi + 1;
        }
        b := b + BPB;
      }
      return false, 0;
    }

    /** bfree of the block in slot s; "freeing free block" cannot happen. */
    method Bfree(b: nat, ghost s: Slot, ghost dead: set<Slot>)
      requires Inv(sb, StOf(), dead) && s !in dead && b != 0 && At(StOf(), s) == b
      modifies this`store, this`own, this`logged, this`calls
      ensures Inv(sb, StOf(), dead + {s}) && forall t :: Agree(old(StOf()), StOf(), t)
      ensures own == old(own) - {b} && logged == old(logged) + {sb.BBlock(b)}
      ensures Quiet(sb, old(store), store, old(logged), logged)
      ensures old(Traced()) ==> Traced()
    {
      hide Traced;
      FreeKeepsInv(sb, StOf(), s, dead);
      SlotInRange(sb, StOf(), dead, s);
      BBlockInRange(sb, b);
      var bi := b % BPB;
      var bp := store[sb.BBlock(b)];
      assert BlockBit(bp, bi);       // the source's panic test
      LogWrite(sb.BBlock(b), ClearBlockBit(bp, bi));
      own := own - {b};
    }

    /** Give a freshly allocated block to an empty slot. */
    method FillSlot(s: Slot) returns (ok: bool, b: nat)
      requires Inv(sb, StOf(), {}) && Fillable(StOf(), s)
      modifies this`store, this`inodes, this`own, this`logged, this`calls
      ensures ok <==> old(SomeFree())
      ensures !ok ==> !SomeFree()
      ensures ok ==> Inv(sb, StOf(), {}) && At(StOf(), s) == b && Filled(old(StOf()), StOf(), s)
      ensures ok ==> logged == old(logged) + {sb.BBlock(b), b} +
                       (if s.k > NDIRECT then {Addr(old(StOf()), s.inum, NDIRECT)} else {})
      ensures Taking(sb, old(store), store, old(logged), logged)
      ensures old(Traced()) ==> Traced()
    {
      hide Traced, Inv, Free, Taken, Taking, Wrote;
      TakingNone(sb, store, logged);
      ok, b := Balloc();
      if !ok {
        return;
      }
      AllocKeepsInv(sb, old(StOf()), b, s);
      TakingBlock(sb, old(store), store, old(logged), logged, b);
      own := own[b := s];
      if s.k <= NDIRECT {
        inodes := inodes[s.inum := SetAddr(inodes[s.inum], s.k, b)];
      } else {
        var a := inodes[s.inum].addrs[NDIRECT];
        SlotInRange(sb, old(StOf()), {}, Slot(s.inum, NDIRECT));
        ghost var store1, logged1 := store, logged;
        TakingData(sb, store, logged, a, SetWord(store[a], s.k - NDIRECT - 1, b));
        LogWrite(a, SetWord(store[a], s.k - NDIRECT - 1, b));
        TakingTwice(sb, old(store), store1, store, old(logged), logged1, logged);
      }
      assert StOf() == Alloc(sb, old(StOf()), b, s);
    }

    /** bmap: the block holding block bn of inode inum, allocated if need be. */
    method Bmap(inum: nat, bn: nat) returns (ok: bool, addr: nat)
      requires Inv(sb, StOf(), {}) && inum in inodes
      modifies this`store, this`inodes, this`own, this`logged, this`calls
      ensures ok ==> bn < MAXFILE && Inv(sb, StOf(), {}) && Grown(old(StOf()), StOf(), inum, bn)
      ensures ok ==> addr == BlockOf(StOf(), inum, bn) && sb.datastart <= addr < sb.size
      ensures ok ==> logged == old(logged) + BmapLogs(sb, old(StOf()), StOf(), inum, bn)
      ensures !ok ==> bn >= MAXFILE || !SomeFree()
      ensures bn < MAXFILE && BlockOf(old(StOf()), inum, bn) != 0 ==>
              ok && StOf() == old(StOf()) && logged == old(logged)
      ensures Taking(sb, old(store), store, old(logged), logged)
      ensures old(Traced()) ==> Traced()
    {
      hide Traced, Inv, BitSet, Grown, Filled, BmapLogs, Taking;
      TakingNone(sb, store, logged);
      ok, addr := true, 0;
      if bn < NDIRECT {
        ok, addr := BmapDirect(inum, bn);
      } else if bn < MAXFILE {
        ok, addr := BmapIndirect(inum, bn);
      } else {
        ok := false;         // bmap: out of range
      }
    }

    method BmapDirect(inum: nat, bn: nat) returns (ok: bool, addr: nat)
      requires Inv(sb, StOf(), {}) && inum in inodes && bn < NDIRECT
      modifies this`store, this`inodes, this`own, this`logged, this`calls
      ensures ok ==> Inv(sb, StOf(), {}) && Grown(old(StOf()), StOf(), inum, bn)
      ensures ok ==> addr == BlockOf(StOf(), inum, bn) && sb.datastart <= addr < sb.size
      ensures ok ==> logged == old(logged) + BmapLogs(sb, old(StOf()), StOf(), inum, bn)
      ensures !ok ==> !SomeFree()
      ensures BlockOf(old(StOf()), inum, bn) != 0 ==> ok && StOf() == old(StOf()) && logged == old(logged)
      ensures Taking(sb, old(store), store, old(logged), logged)
      ensures old(Traced()) ==> Traced()
    {
      hide Traced, Inv, BitSet, Grown, Taking;
      TakingNone(sb, store, logged);
      ok, addr := true, inodes[inum].addrs[bn];
      assert addr == BlockOf(StOf(), inum, bn);
      if addr == 0 {
        ok, addr := FillSlot(Slot(inum, bn));
      }
      if ok {
        FilledDirect(old(StOf()), StOf(), inum, bn);
        SlotInRange(sb, StOf(), {}, Slot(inum, bn));
      }
    }

    method BmapIndirect(inum: nat, bn: nat) returns (ok: bool, addr: nat)
      requires Inv(sb, StOf(), {}) && inum in inodes && NDIRECT <= bn < MAXFILE
      modifies this`store, this`inodes, this`own, this`logged, this`calls
      ensures ok ==> Inv(sb, StOf(), {}) && Grown(old(StOf()), StOf(), inum, bn)
      ensures ok ==> addr == BlockOf(StOf(), inum, bn) && sb.datastart <= addr < sb.size
      ensures ok ==> logged == old(logged) + BmapLogs(sb, old(StOf()), StOf(), inum, bn)
      ensures !ok ==> !SomeFree()
      ensures BlockOf(old(StOf()), inum, bn) != 0 ==> ok && StOf() == old(StOf()) && logged == old(logged)
      ensures Taking(sb, old(store), store, old(logged), logged)
      ensures old(Traced()) ==> Traced()
    {
      hide Traced, Inv, BitSet, Grown, Taking;
      TakingNone(sb, store, logged);
      ghost var was := StOf();
      var ind := inodes[inum].addrs[NDIRECT];
      assert ind == At(was, Slot(inum, NDIRECT));
      ok, addr := true, 0;
      if ind == 0 {
        ok, ind := FillSlot(Slot(inum, NDIRECT));
        if !ok {
          return;
        }
      }
      ghost var mid, logged1 := StOf(), logged;
      SlotInRange(sb, StOf(), {}, Slot(inum, NDIRECT));
      addr := Word(store[ind], bn - NDIRECT);
      assert addr == BlockOf(mid, inum, bn);
      assert mid == was || Agree(was, mid, Slot(inum, bn + 1));
      if addr == 0 {
        ok, addr := FillSlot(Slot(inum, bn + 1));
        TakingTwice(sb, old(store), mid.store, store, old(logged), logged1, logged);
      }
      if ok {
        FilledIndirect(was, mid, StOf(), inum, bn);
        SlotInRange(sb, StOf(), {}, Slot(inum, bn + 1));
      }
    }

    // ---------- readi and writei ----------

    /** readi of a regular file: -1 past the end or on 32-bit overflow, else the
        clipped slice; nothing is allocated, logged or changed. */
    method Readi(inum: nat, off0: nat, n0: nat) returns (ok: bool, r: int, dst: seq<byte>)
      requires Valid() && inum in inodes && off0 < TWO32 && n0 < TWO32
      modifies this`store, this`inodes, this`own, this`logged, this`calls
      ensures ok && StOf() == old(StOf()) && logged == old(logged) && Valid()
      ensures off0 > inodes[inum].size || off0 + n0 >= TWO32 ==> r == -1 && dst == []
      ensures off0 <= inodes[inum].size && off0 + n0 < TWO32 ==>
                r == |dst| && dst == Content(StOf(), inum)[off0..Least(off0 + n0, inodes[inum].size)]
      ensures old(Traced()) ==> Traced()
    {
      hide Traced, Inv, BitSet, Grown, At, Taking, OnDisk, ByteAt, Mapped, BmapLogs, Fits;
      var ip := inodes[inum];
      dst, ok := [], true;
      if off0 > ip.size || (off0 + n0) % TWO32 < off0 {
        return true, -1, [];
      }
      var n := n0;
      if off0 + n > ip.size {
        n := ip.size - off0;
      }
      ghost var c := Content(StOf(), inum);
      var tot, off := 0, off0;
      while tot < n
        invariant 0 <= tot <= n && off == off0 + tot && dst == c[off0..off]
        invariant StOf() == old(StOf()) && logged == old(logged) && Valid()
        invariant old(Traced()) ==> Traced()
        decreases n - tot
      {
        assert BlockOf(StOf(), inum, off / BSIZE) != 0 by { MappedByte(StOf(), inum, off); }
        var addr;
        ok, addr := Bmap(inum, off / BSIZE);
        assert ok;
        var bp := store[addr];
        var m := Least(n - tot, BSIZE - off % BSIZE);
        SliceOfBlock(StOf(), inum, off, m);
        dst := dst + bp[off % BSIZE..off % BSIZE + m];
        tot, off := tot + m, off + m;
      }
      r := n;
    }

    /** iupdate: the inode's fields go to its place in its block. */
    method Iupdate(inum: nat)
      requires sb.Ok() && |store| == sb.size && inum in inodes && inum < sb.ninodes && Fits(inodes[inum])
      modifies this`store, this`logged, this`calls
      ensures sb.IBlock(inum) < |old(store)| && logged == old(logged) + {sb.IBlock(inum)}
      ensures store == old(store)[sb.IBlock(inum) := WithInode(old(store)[sb.IBlock(inum)], inum % 8, inodes[inum])]
      ensures Wrote(sb, old(store), store, old(logged), logged)
      ensures old(Traced()) ==> Traced()
    {
      hide Traced;
      IBlockInRange(sb, inum);
      LogWrite(sb.IBlock(inum), WithInode(store[sb.IBlock(inum)], inum % 8, inodes[inum]));
    }

    /** The body of writei's loop. */
    method WriteiRound(inum: nat, src: seq<byte>, ghost off0: nat, ghost st0: St, tot: nat, off: nat, m: nat,
                       ghost bill: Bill, ghost ind0: nat)
      returns (ok: bool, ghost bill': Bill)
      requires Inv(sb, StOf(), {}) && inum in inodes && Written(st0, StOf(), inum, src, off0, tot)
      requires off == off0 + tot && tot + m <= |src| && 0 < m <= BSIZE - off % BSIZE && off < MAXBYTES
      requires Paid(bill, logged, ind0, Addr(StOf(), inum, NDIRECT))
      requires Charged(sb, st0, StOf(), inum, off0, tot, logged)
      modifies this`store, this`inodes, this`own, this`logged, this`calls
      ensures !ok ==> !SomeFree()
      ensures ok ==>
              Inv(sb, StOf(), {}) && inodes.Keys == old(inodes.Keys) && Written(st0, StOf(), inum, src, off0, tot + m)
      ensures ok ==> Paid(bill', logged, ind0, Addr(StOf(), inum, NDIRECT))
      ensures ok ==> Charged(sb, st0, StOf(), inum, off0, tot + m, logged)
      ensures ok ==> bill'.base == bill.base && bill'.rounds == bill.rounds + 1
      ensures ok ==> bill'.added == bill.added + if BlockOf(old(StOf()), inum, off / BSIZE) != 0 then 0 else 1
      ensures BlockOf(old(StOf()), inum, off / BSIZE) != 0 ==> inodes == old(inodes)
      ensures Taking(sb, old(store), store, old(logged), logged)
      ensures old(Traced()) ==> Traced()
    {
      hide Traced, Inv, BitSet, Grown, At, BmapLogs, Written, Paid, Taking, Wrote, Charged;
      var addr;
      ok, addr := Bmap(inum, off / BSIZE);
      bill' := bill;
      if ok {
        ghost var st1, logged1 := StOf(), logged;
        bill' := PayRound(sb, bill, old(logged), old(StOf()), st1, inum, off / BSIZE, ind0);
        WriteRound(sb, st0, old(StOf()), st1, inum, src, off0, tot, m);
        ghost var paid := logged + {addr};
        ChargeRound(sb, st0, old(StOf()), st1, inum, src, off0, tot, m, old(logged), paid);
        TakingData(sb, store, logged, addr, Splice(store[addr], src, tot, off % BSIZE, m));
        LogWrite(addr, Splice(store[addr], src, tot, off % BSIZE, m));
        ChargedKept(sb, st0, st1, StOf(), inum, off0, tot + m, paid, logged);
        TakingTwice(sb, old(store), st1.store, store, old(logged), logged1, logged);
      }
    }

    /** writei's loop, run to the end or to a panic. */
    method WriteiLoop(inum: nat, src: seq<byte>, off0: nat) returns (ok: bool, off: nat, ghost bill: Bill)
      requires Valid() && inum in inodes && off0 <= inodes[inum].size && off0 + |src| <= MAXBYTES
      modifies this`store, this`inodes, this`own, this`logged, this`calls
      ensures !ok ==> !SomeFree()
      ensures ok ==> off == off0 + |src| && Inv(sb, StOf(), {}) && Written(old(StOf()), StOf(), inum, src, off0, |src|)
      ensures ok && off <= old(inodes)[inum].size ==> inodes == old(inodes)
      ensures ok ==> bill.base == old(logged)
      ensures ok ==> Paid(bill, logged, Addr(old(StOf()), inum, NDIRECT), Addr(StOf(), inum, NDIRECT))
      ensures ok ==> Charged(sb, old(StOf()), StOf(), inum, off0, |src|, logged)
      ensures ok ==> Rounds(off0, |src|, |src|, bill.rounds) && bill.added <= bill.rounds
      ensures ok && off0 % BSIZE != 0 && bill.rounds > 0 ==> bill.added <= bill.rounds - 1
      ensures Taking(sb, old(store), store, old(logged), logged)
      ensures old(Traced()) ==> Traced()
    {
      hide Traced, Inv, BitSet, At, Written, Paid, Rounds, Taking, OnDisk, Charged;
      ghost var st0 := StOf();
      ghost var ind0 := Addr(st0, inum, NDIRECT);
      var n, tot := |src|, 0;
      ok, off, bill := true, off0, Bill(logged, {}, {}, 0, 0);
      WrittenNothing(st0, inum, src, off0);
      ChargedNothing(sb, st0, inum, off0, logged);
      FirstBill(logged, off0, n, ind0);
      TakingNone(sb, store, logged);
      while tot < n
        invariant 0 <= tot <= n && off == off0 + tot && inodes.Keys == old(inodes.Keys)
        invariant Inv(sb, StOf(), {}) && Written(st0, StOf(), inum, src, off0, tot)
        invariant Charged(sb, st0, StOf(), inum, off0, tot, logged)
        invariant off0 + n <= st0.inodes[inum].size ==> inodes == old(inodes)
        invariant Paid(bill, logged, ind0, Addr(StOf(), inum, NDIRECT)) && bill.base == old(logged)
        invariant Rounds(off0, tot, n, bill.rounds) && bill.added <= bill.rounds
        invariant off0 % BSIZE != 0 && bill.rounds > 0 ==> bill.added <= bill.rounds - 1
        invariant Taking(sb, old(store), store, old(logged), logged)
        invariant old(Traced()) ==> Traced()
        decreases n - tot
      {
        ghost var store1, logged1 := store, logged;
        var m := Least(n - tot, BSIZE - off % BSIZE);
        RoundsStep(off0, tot, n, bill.rounds, m);
        BlockThere(st0, StOf(), inum, src, off0, tot);
        ok, bill := WriteiRound(inum, src, off0, st0, tot, off, m, bill, ind0);
        TakingTwice(sb, old(store), store1, store, old(logged), logged1, logged);
        if !ok {
          return;
        }
        tot, off := tot + m, off + m;
      }
    }

    /** Rounds below the old size, and a first round that starts inside a block,
        find their block already allocated. */
    lemma BlockThere(st0: St, st: St, inum: nat, src: seq<byte>, off0: nat, tot: nat)
      requires Written(st0, st, inum, src, off0, tot) && Mapped(st0, inum) && off0 <= st0.inodes[inum].size
      ensures off0 + tot < st0.inodes[inum].size ==> BlockOf(st, inum, (off0 + tot) / BSIZE) != 0
      ensures tot == 0 && off0 % BSIZE != 0 ==> BlockOf(st, inum, (off0 + tot) / BSIZE) != 0
    {
      var bn := (off0 + tot) / BSIZE;
      if bn * BSIZE < st0.inodes[inum].size {
        InsideMapped(st0, st, inum, src, off0, tot, bn);
      }
    }

    /** writei's end: a file that has grown gets its new size, on disk too. */
    method WriteiEnd(inum: nat, src: seq<byte>, off0: nat, off: nat, ghost st0: St)
      requires Good(sb, st0) && Inv(sb, StOf(), {}) && Written(st0, StOf(), inum, src, off0, |src|)
      requires off == off0 + |src| <= MAXBYTES && inum in st0.inodes && off0 <= st0.inodes[inum].size
      requires off <= st0.inodes[inum].size ==> inodes == st0.inodes
      requires InodesStill(sb, st0.store, store)
      modifies this`inodes, this`store, this`logged, this`calls
      ensures Valid() && inodes.Keys == st0.inodes.Keys && old(logged) <= logged <= old(logged) + {sb.IBlock(inum)}
      ensures Wrote(sb, old(store), store, old(logged), logged)
      ensures inum in inodes && Content(StOf(), inum) == Overwritten(Content(st0, inum), off0, src)
      ensures forall j :: j in inodes && j != inum ==> Content(StOf(), j) == Content(st0, j)
      ensures forall t: Slot :: t.inum != inum ==> Agree(st0, StOf(), t)
      ensures forall t: Slot :: At(StOf(), t) == At(old(StOf()), t)
      ensures |src| > 0 && off > st0.inodes[inum].size ==> sb.IBlock(inum) in logged
      ensures Lowest(sb, old(store), store)
      ensures old(Traced()) ==> Traced()
    {
      hide Traced, Inv, BitSet, At, Agree, Written, Mapped, Content, Overwritten, OnDisk, Wrote, WithInode, Fits,
           Lowest;
      WriteDone(st0, StOf(), inum, src, off0);
      WrittenAgree(st0, StOf(), inum, src, off0);
      QuietNone(sb, store, logged);
      LowestNone(sb, store);
      if |src| > 0 && off > inodes[inum].size {
        ghost var st1 := StOf();
        SetSizeKeeps(sb, st1, inum, off);
        inodes := inodes[inum := inodes[inum].(size := off)];
        StillFits(sb, StOf(), inum, st0.inodes[inum]);
        Updated(sb, st0, StOf(), inum);
        ghost var st2 := StOf();
        IBlockInRange(sb, inum);
        LowestElsewhere(sb, store, sb.IBlock(inum), WithInode(store[sb.IBlock(inum)], inum % 8, inodes[inum]));
        Iupdate(inum);
        AgreeChain(st0, st1, st2, StOf(), inum);
      } else {
        NotUpdated(sb, st0, StOf());
      }
    }

    /** writei of a regular file: all of src or nothing (-1).  The content becomes
        old[..off] + src + old[off+n..], every other file reads as before and keeps
        its blocks, every block that changes is logged, and a chunk of at most 3
        blocks' bytes logs at most MAXOPBLOCKS blocks.  The only panic of fs.c is
        running out of disk blocks; bget's and log_write's are in Bio and Log. */
    method Writei(inum: nat, src: seq<byte>, off0: nat) returns (ok: bool, r: int)
      requires Valid() && inum in inodes && off0 < TWO32 && |src| < TWO32
      modifies this`store, this`inodes, this`own, this`logged, this`calls
      ensures !ok ==> !SomeFree()
      ensures ok ==> Valid() && inodes.Keys == old(inodes.Keys)
      ensures r == -1 <==> off0 > old(inodes)[inum].size || off0 + |src| >= TWO32 || off0 + |src| > MAXBYTES
      ensures r == -1 ==> ok && StOf() == old(StOf()) && logged == old(logged)
      ensures ok && r != -1 ==>
              r == |src| && Content(StOf(), inum) == Overwritten(old(Content(StOf(), inum)), off0, src)
      ensures ok ==> forall j :: j in inodes && j != inum ==> Content(StOf(), j) == old(Content(StOf(), j))
      ensures ok ==> forall t: Slot :: t.inum != inum ==> Agree(old(StOf()), StOf(), t)
      ensures Wrote(sb, old(store), store, old(logged), logged)
      ensures ok && old(logged) == {} && |src| <= 3 * BSIZE ==> |logged| <= MAXOPBLOCKS
      ensures ok && r != -1 ==> Charged(sb, old(StOf()), StOf(), inum, off0, |src|, logged)
      ensures ok && r > 0 && off0 + |src| > old(inodes)[inum].size ==> sb.IBlock(inum) in logged
      ensures ok && r != -1 ==> BlocksRight(old(StOf()), StOf(), inum, off0, |src|)
      ensures Lowest(sb, old(store), store)
      ensures old(Traced()) ==> Traced()
    {
      hide Traced, Inv, BitSet, At, Written, Paid, Rounds, Mapped, Content, Overwritten, Addr, SomeFree, Wrote,
           OnDisk, Charged;
      var n := |src|;
      ok, r := true, -1;
      QuietNone(sb, store, logged);
      LowestNone(sb, store);
      if off0 > inodes[inum].size || (off0 + n) % TWO32 < off0 {
        return;
      }
      if off0 + n > MAXFILE * BSIZE {
        return;
      }
      ghost var st0 := StOf();
      r := n;
      var off;
      ghost var bill;
      ok, off, bill := WriteiLoop(inum, src, off0);
      if !ok {
        return;
      }
      if |src| <= 3 * BSIZE && bill.base == {} {
        ChunkRounds(off0, n, bill.rounds, bill.added);
        Total(bill, logged, Addr(st0, inum, NDIRECT), Addr(StOf(), inum, NDIRECT), sb.IBlock(inum));
      }
      ghost var st1, store1, logged1 := StOf(), store, logged;
      WriteiEnd(inum, src, off0, off, st0);
      ChargedKept(sb, st0, st1, StOf(), inum, off0, n, logged1, logged);
      WroteTwice(sb, st0.store, store1, store, old(logged), logged1, logged);
      LowestTwice(sb, st0.store, store1, store);
      SameBlocks(st0, st1, StOf(), inum, src, off0, n);
    }

    /** A readi right after a writei of the same stretch returns the bytes written. */
    method WriteThenRead(inum: nat, src: seq<byte>, off: nat) returns (ok: bool, n: int, r: int, dst: seq<byte>)
      requires Valid() && inum in inodes && off < TWO32 && |src| < TWO32
      modifies this`store, this`inodes, this`own, this`logged, this`calls
      ensures ok && n != -1 ==> r == n == |src| && dst == src
      ensures !ok ==> !SomeFree()
      ensures old(Traced()) ==> Traced()
    {
      hide Traced, Good, SomeFree, Wrote, Overwritten, Content;
      r, dst := -1, [];
      ghost var was := Content(StOf(), inum);
      ok, n := Writei(inum, src, off);
      if ok {
        if n != -1 { ReadBack(was, off, src); }
        ok, r, dst := Readi(inum, off, |src|);
      }
    }

    /** A chunk that starts inside a block, reaches the indirect blocks for the first time
        and makes the file grow, where the four lowest free blocks lie under four
        different map blocks: it logs exactly MAXOPBLOCKS blocks. */
    method WriteWorst(inum: nat, src: seq<byte>, off0: nat, ghost f: seq<nat>) returns (ok: bool, r: int)
      requires Valid() && |src| == 3 * BSIZE && logged == {} && WorstStart(sb, StOf(), inum, off0, f)
      modifies this`store, this`inodes, this`own, this`logged, this`calls
      ensures !ok ==> !SomeFree()
      ensures ok ==> r == |src| && |logged| == MAXOPBLOCKS
    {
      hide Traced, Inv, OnDisk, At, Content, Overwritten, Wrote, Charged, WorstChunk, SomeFree, BlocksRight, Lowest,
           LowestFour, BlockOf, Mapped;
      InodeNumber(sb, StOf(), inum);
      ghost var st0 := StOf();
      ok, r := Writei(inum, src, off0);
      if ok {
        FourTouched(off0, off0 / BSIZE);
        ChargedIndirectToo(sb, st0, StOf(), inum, off0, logged, off0 / BSIZE + 3);
        WorstFollows(sb, st0, StOf(), inum, off0, f);
        TenBlocks(sb, st0, StOf(), inum, off0, off0 / BSIZE, logged);
      }
    }

    // ---------- itrunc ----------

    /** One turn of itrunc's loop over the direct blocks. */
    method TruncDirect(inum: nat, i: nat, ghost st0: St, ghost log0: set<nat>)
      requires inum in inodes && i < NDIRECT && Truncating(sb, st0, StOf(), inum, Range(0, i), {}) && Inv(sb, st0, {})
      requires TruncLogs(sb, st0, store, log0, logged, inum, Range(0, i))
      modifies this`store, this`inodes, this`own, this`logged, this`calls
      ensures Truncating(sb, st0, StOf(), inum, Range(0, i + 1), {})
      ensures |inodes[inum].addrs| == |old(inodes[inum].addrs)| && inodes.Keys == old(inodes.Keys)
      ensures TruncLogs(sb, st0, store, log0, logged, inum, Range(0, i + 1))
      ensures old(Traced()) ==> Traced()
    {
      hide Traced, Inv, Agree, OwnLess, Entry, Quiet, TruncLogs;
      var b := inodes[inum].addrs[i];
      var s := Slot(inum, i);
      assert Range(0, i) + {i} == Range(0, i + 1);
      if b != 0 {
        ghost var st, logged1 := StOf(), logged;
        Bfree(b, s, {});
        LogsFree(sb, st0, st, store, log0, logged1, logged, inum, Range(0, i), {}, i);
        TruncFree(sb, st0, st, StOf(), inum, Range(0, i), {}, i);
        assert {} + {s} == {s};
        TruncClear(sb, st0, StOf(), inum, Range(0, i + 1), i);
        inodes := inodes[inum := SetAddr(inodes[inum], i, 0)];
      } else {
        LogsSkip(sb, st0, StOf(), log0, logged, inum, Range(0, i), {}, i);
        TruncSkip(sb, st0, StOf(), inum, Range(0, i), {}, i);
      }
    }

    /** One turn of itrunc's loop over the entries of the indirect block. */
    method TruncEntry(inum: nat, a: Block, j: nat, ghost st0: St, ghost log0: set<nat>, ghost gone: set<nat>,
                      ghost dead: set<Slot>)
      returns (ghost dead': set<Slot>)
      requires j < NINDIRECT && Slot(inum, j + 12) !in dead && Truncating(sb, st0, StOf(), inum, gone, dead)
      requires Word(a, j) == At(StOf(), Slot(inum, j + 12)) == At(st0, Slot(inum, j + 12))
      requires Inv(sb, st0, {}) && j + 12 !in gone && TruncLogs(sb, st0, store, log0, logged, inum, gone)
      modifies this`store, this`own, this`logged, this`calls
      ensures Truncating(sb, st0, StOf(), inum, gone + {j + 12}, dead')
      ensures dead' == dead || dead' == dead + {Slot(inum, j + 12)}
      ensures TruncLogs(sb, st0, store, log0, logged, inum, gone + {j + 12})
      ensures old(Traced()) ==> Traced()
    {
      hide Traced, Inv, Agree, OwnLess, Entry, At, Quiet, TruncLogs;
      var s := Slot(inum, j + 12);
      dead' := dead;
      if Word(a, j) != 0 {
        ghost var st, logged1 := StOf(), logged;
        Bfree(Word(a, j), s, dead);
        LogsFree(sb, st0, st, store, log0, logged1, logged, inum, gone, dead, j + 12);
        TruncFree(sb, st0, st, StOf(), inum, gone, dead, j + 12);
        dead' := dead + {s};
      } else {
        LogsSkip(sb, st0, StOf(), log0, logged, inum, gone, dead, j + 12);
        TruncSkip(sb, st0, StOf(), inum, gone, dead, j + 12);
      }
    }

    /** itrunc's second half: the indirect block's entries, then the block itself. */
    method TruncIndirect(inum: nat, ghost st0: St, ghost log0: set<nat>)
      requires inum in inodes && Truncating(sb, st0, StOf(), inum, Range(0, NDIRECT), {})
      requires inodes[inum].addrs[NDIRECT] != 0 && Inv(sb, st0, {})
      requires TruncLogs(sb, st0, store, log0, logged, inum, Range(0, NDIRECT))
      modifies this`store, this`inodes, this`own, this`logged, this`calls
      ensures Truncating(sb, st0, StOf(), inum, All(), {})
      ensures TruncLogs(sb, st0, store, log0, logged, inum, All())
      ensures old(Traced()) ==> Traced()
    {
      hide Traced, Inv, Agree, OwnLess, Entry, At, Truncating, Range, All, TruncLogs;
      TruncatingInv(sb, st0, StOf(), inum, Range(0, NDIRECT), {});
      var ind := inodes[inum].addrs[NDIRECT];
      assert ind == Addr(StOf(), inum, NDIRECT);
      var a := store[ind];
      ghost var st1 := StOf();
      ghost var gone, dead: set<Slot> := Range(0, NDIRECT), {};
      var j := 0;
      while j < NINDIRECT
        invariant 0 <= j <= NINDIRECT && inodes == st1.inodes
        invariant gone == Range(0, NDIRECT) + Range(12, 12 + j)
        invariant Truncating(sb, st0, StOf(), inum, gone, dead)
        invariant forall t :: t in dead ==> t.inum == inum && 12 <= t.k < 12 + j
        invariant TruncLogs(sb, st0, store, log0, logged, inum, gone)
        invariant old(Traced()) ==> Traced()
      {
        StillThere(sb, st0, st1, StOf(), inum, Range(0, NDIRECT), gone, dead, ind, j);
        dead := TruncEntry(inum, a, j, st0, log0, gone, dead);
        gone := gone + {j + 12};
        j := j + 1;
      }
      FreeIndirect(inum, ind, st0, log0, gone, dead);
    }

    /** bfree of the indirect block and addrs[NDIRECT] = 0. */
    method FreeIndirect(inum: nat, ind: nat, ghost st0: St, ghost log0: set<nat>, ghost gone: set<nat>,
        ghost dead: set<Slot>)
      requires inum in inodes && ind != 0 && ind == Addr(StOf(), inum, NDIRECT) && Inv(sb, st0, {})
      requires gone == Range(0, NDIRECT) + Range(12, SLOTS) && Truncating(sb, st0, StOf(), inum, gone, dead)
      requires forall t :: t in dead ==> t.inum == inum && t.k > NDIRECT
      requires TruncLogs(sb, st0, store, log0, logged, inum, gone)
      modifies this`store, this`inodes, this`own, this`logged, this`calls
      ensures Truncating(sb, st0, StOf(), inum, All(), {})
      ensures TruncLogs(sb, st0, store, log0, logged, inum, All())
      ensures old(Traced()) ==> Traced()
    {
      hide Traced, Inv, Agree, OwnLess, Entry, Range, All, Quiet, TruncLogs;
      var s := Slot(inum, NDIRECT);
      ghost var st, logged1 := StOf(), logged;
      Bfree(ind, s, dead);
      LogsFree(sb, st0, st, store, log0, logged1, logged, inum, gone, dead, NDIRECT);
      TruncFree(sb, st0, st, StOf(), inum, gone, dead, NDIRECT);
      AllSlots(gone);
      TruncClearIndirect(sb, st0, StOf(), inum, dead + {s});
      inodes := inodes[inum := SetAddr(inodes[inum], NDIRECT, 0)];
    }

    /** itrunc's end: size 0, on disk too. */
    method ItruncEnd(inum: nat, ghost st0: St)
      requires Truncating(sb, st0, StOf(), inum, All(), {}) && Good(sb, st0) && inum in st0.inodes
      requires InodesStill(sb, st0.store, store)
      modifies this`inodes, this`store, this`logged, this`calls
      ensures Valid() && Truncated(sb, st0, StOf(), inum)
      ensures inodes.Keys == st0.inodes.Keys && inum in inodes && Content(StOf(), inum) == []
      ensures inodes[inum] == st0.inodes[inum].(addrs := inodes[inum].addrs, size := 0)
      ensures forall j :: j in inodes && j != inum ==> Content(StOf(), j) == Content(st0, j)
      ensures Wrote(sb, old(store), store, old(logged), logged) && logged == old(logged) + {sb.IBlock(inum)}
      ensures old(Traced()) ==> Traced()
    {
      hide Traced, Inv, Agree, OwnLess, At, Content, Mapped, Truncating, Truncated, Range, All, OnDisk, Wrote,
           InodesStill;
      TruncatingInv(sb, st0, StOf(), inum, All(), {});
      TruncDone(sb, st0, StOf(), inum);
      EmptyFile(sb, st0, StOf(), inum);
      inodes := inodes[inum := inodes[inum].(size := 0)];
      StoreEmptied(inum, st0, st0);
    }

    /** iupdate of an inode with no blocks left, in a state that follows the sound one
        `base`. */
    method StoreEmptied(inum: nat, ghost st0: St, ghost base: St)
      requires Truncated(sb, st0, StOf(), inum) && inum in inodes && inodes[inum].size == 0
      requires Good(sb, base) && InodesStill(sb, base.store, store) && inodes.Keys == base.inodes.Keys
      requires forall j :: j in inodes && j != inum ==> inodes[j] == base.inodes[j]
      requires SameFields(base.inodes[inum], inodes[inum])
      requires forall j :: j in inodes ==> Mapped(StOf(), j)
      modifies this`store, this`logged, this`calls
      ensures Valid() && Truncated(sb, st0, StOf(), inum)
      ensures forall j :: j in inodes ==> Content(StOf(), j) == old(Content(StOf(), j))
      ensures Wrote(sb, old(store), store, old(logged), logged) && logged == old(logged) + {sb.IBlock(inum)}
      ensures old(Traced()) ==> Traced()
    {
      hide Traced, Inv, Agree, At, Content, Mapped, Truncated, OnDisk, Wrote, WithInode, InodesStill, Fits;
      ghost var st := StOf();
      assert Inv(sb, st, {}) by { TruncatedInv(sb, st0, st, inum); }
      StillFits(sb, st, inum, base.inodes[inum]);
      Updated(sb, base, st, inum);
      Iupdate(inum);
      TruncatedStored(sb, st0, st, StOf(), inum);
    }

    /** itrunc: exactly the inode's blocks are freed, its size becomes 0, no other
        file changes, and the blocks logged are the inode's and the map blocks over
        the blocks freed. */
    method Itrunc(inum: nat)
      requires Valid() && inum in inodes
      modifies this`store, this`inodes, this`own, this`logged, this`calls
      ensures Valid() && inodes.Keys == old(inodes.Keys)
      ensures Truncated(sb, old(StOf()), StOf(), inum) && inum in inodes && Content(StOf(), inum) == []
      ensures inodes[inum] == old(inodes)[inum].(addrs := inodes[inum].addrs, size := 0)
      ensures forall j :: j in inodes && j != inum ==> Content(StOf(), j) == old(Content(StOf(), j))
      ensures logged == old(logged) + MapsFor(sb, old(own), inum) + {sb.IBlock(inum)}
      ensures Wrote(sb, old(store), store, old(logged), logged)
      ensures old(Traced()) ==> Traced()
    {
      hide Traced, Inv, Agree, OwnLess, At, Content, Mapped, Truncating, Truncated, Range, All, OnDisk, TruncLogs,
           Wrote;
      ghost var st0, log0 := StOf(), logged;
      TruncStart(sb, st0, inum);
      LogsStart(sb, st0, log0, inum);
      assert Range(0, 0) == {};
      var i := 0;
      while i < NDIRECT
        invariant 0 <= i <= NDIRECT && inum in inodes && TruncLogs(sb, st0, store, log0, logged, inum, Range(0, i))
        invariant Truncating(sb, st0, StOf(), inum, Range(0, i), {})
        invariant old(Traced()) ==> Traced()
      {
        TruncDirect(inum, i, st0, log0);
        i := i + 1;
      }
      TruncatingInv(sb, st0, StOf(), inum, Range(0, NDIRECT), {});
      if inodes[inum].addrs[NDIRECT] != 0 {
        TruncIndirect(inum, st0, log0);
      } else {
        LogsNoIndirect(sb, st0, StOf(), log0, logged, inum);
        NoIndirect(sb, st0, StOf(), inum);
      }
      LogsEnd(sb, st0, store, log0, logged, inum);
      ghost var store1, logged1 := store, logged;
      ItruncEnd(inum, st0);
      WroteTwice(sb, st0.store, store1, store, log0, logged1, logged);
    }

    /** iput's inner branch: truncate, mark free, on disk too.  The truncation fits one
        transaction exactly when the inode's blocks lie under at most nine map blocks. */
    method FreeInode(inum: nat)
      requires Valid() && inum in inodes
      modifies this`store, this`inodes, this`own, this`logged, this`calls, this`cached
      ensures Valid() && inodes.Keys == old(inodes.Keys) && cached == old(cached) - {inum}
      ensures Truncated(sb, old(StOf()), StOf(), inum) && inum in inodes && Content(StOf(), inum) == []
      ensures inodes[inum] == old(inodes)[inum].(addrs := inodes[inum].addrs, size := 0, typ := 0)
      ensures forall j :: j in inodes && j != inum ==> inodes[j] == old(inodes)[j]
      ensures forall j :: j in inodes && j != inum ==> Content(StOf(), j) == old(Content(StOf(), j))
      ensures logged == old(logged) + MapsFor(sb, old(own), inum) + {sb.IBlock(inum)}
      ensures old(logged) == {} ==> (|logged| <= MAXOPBLOCKS <==> |MapsFor(sb, old(own), inum)| <= 9)
      ensures Wrote(sb, old(store), store, old(logged), logged)
      ensures old(Traced()) ==> Traced()
    {
      hide Traced, Inv, Agree, At, Content, Mapped, Truncated, OnDisk, Wrote, MapsFor, Fits, WithInode, BlockOf,
           OwnLess;
      ghost var st0, log0 := StOf(), logged;
      InodeNumber(sb, st0, inum);
      TruncFitsIff(sb, st0, inum);
      Itrunc(inum);
      ghost var st1, log1 := StOf(), logged;
      SetTypeKeeps(sb, st0, st1, inum);
      inodes := inodes[inum := inodes[inum].(typ := 0)];
      QuietNone(sb, store, logged);
      StoreEmptied(inum, st0, st1);
      cached := cached - {inum};
      WroteTwice(sb, st0.store, st1.store, store, log0, log1, logged);
      assert {} + MapsFor(sb, st0.own, inum) == MapsFor(sb, st0.own, inum);
    }

    /** iput: an inode that has been read in, has no links left and is dropped by its last
        holder is freed, its blocks too; in every other case only the reference goes. */
    method Iput(inum: nat)
      requires Valid() && inum in inodes && inum in ref && ref[inum] >= 1
      modifies this`store, this`inodes, this`own, this`logged, this`calls, this`ref, this`cached
      ensures Valid() && inodes.Keys == old(inodes.Keys) && ref == old(ref)[inum := old(ref)[inum] - 1]
      ensures inum in inodes
      ensures old(inum in cached && inodes[inum].nlink == 0 && ref[inum] == 1) ==>
                && inodes[inum] == old(inodes)[inum].(addrs := inodes[inum].addrs, size := 0, typ := 0)
                && Content(StOf(), inum) == [] && Truncated(sb, old(StOf()), StOf(), inum)
                && cached == old(cached) - {inum}
                && logged == old(logged) + MapsFor(sb, old(own), inum) + {sb.IBlock(inum)}
                && (old(logged) == {} ==> (|logged| <= MAXOPBLOCKS <==> |MapsFor(sb, old(own), inum)| <= 9))
      ensures old(!(inum in cached && inodes[inum].nlink == 0 && ref[inum] == 1)) ==>
                StOf() == old(StOf()) && cached == old(cached) && logged == old(logged)
      ensures old(inodes)[inum].nlink > 0 ==>
                Content(StOf(), inum) == old(Content(StOf(), inum)) && logged == old(logged)
      ensures forall j :: j in inodes && j != inum ==> Content(StOf(), j) == old(Content(StOf(), j))
      ensures forall j :: j in inodes && j != inum ==> inodes[j] == old(inodes)[j]
      ensures Wrote(sb, old(store), store, old(logged), logged)
      ensures old(Traced()) ==> Traced()
    {
      hide Traced, Inv, Content, Truncated, Wrote, MapsFor, Good;
      QuietNone(sb, store, logged);
      if inum in cached && inodes[inum].nlink == 0 {
        var r := ref[inum];
        if r == 1 {
          FreeInode(inum);
        }
      }
      ref := ref[inum := ref[inum] - 1];
    }

    /** Any number of iputs, of inodes held as often as they are dropped: a file with a
        link keeps its bytes, and one without is emptied exactly when it has been read in
        and its last reference goes. */
    method IputAll(inums: seq<nat>)
      requires Valid() && ref.Keys <= inodes.Keys
      requires forall i :: i in inums ==> i in ref && multiset(inums)[i] <= ref[i]
      modifies this`store, this`inodes, this`own, this`logged, this`calls, this`ref, this`cached
      ensures Valid() && inodes.Keys == old(inodes.Keys) && ref.Keys == old(ref.Keys)
      ensures forall i :: i in ref ==> ref[i] + multiset(inums)[i] == old(ref)[i]
      ensures forall i :: i in inodes && old(inodes)[i].nlink > 0 ==> Content(StOf(), i) == old(Content(StOf(), i))
      ensures forall i :: i in inodes && old(inodes)[i].nlink == 0 ==>
                Content(StOf(), i) == if i in inums && i in old(cached) && old(ref)[i] == multiset(inums)[i] then []
                                      else old(Content(StOf(), i))
    {
      hide Traced, Inv, Content, Truncated, Wrote, MapsFor, Good, Dropped, Freed;
      ghost var st0, cached0, ref0 := StOf(), cached, ref;
      var n := 0;
      NoneDropped(st0, cached0, ref0);
      assert multiset(inums[..0]) == multiset{};
      while n < |inums|
        invariant 0 <= n <= |inums| && Valid()
        invariant Dropped(st0, cached0, ref0, multiset(inums[..n]), StOf(), cached, ref)
      {
        PutCounts(inums, n);
        var x := inums[n];
        ghost var st, held, c := StOf(), cached, ref;
        StillHeld(st0, cached0, ref0, multiset(inums[..n]), st, held, c, x);
        Iput(x);
        OneDropped(st0, cached0, ref0, multiset(inums[..n]), st, held, c, StOf(), cached, ref, x);
        n := n + 1;
      }
      assert inums[..|inums|] == inums;
      DroppedAll(st0, cached0, ref0, multiset(inums), StOf(), cached, ref);
    }

    // ---------- transactions ----------

    /** begin_op, as an operation sees it: nothing logged yet. */
    method BeginOp()
      modifies this`logged, this`base, this`calls
      ensures logged == {} && base == store && Traced()
    {
      NoWrites(store);
      logged, base, calls := {}, store, [];
    }

    /** end_op: what was logged, and the state, become the next transaction. */
    method EndOp()
      modifies this`history
      ensures history == old(history) + [Tx(logged, StOf())]
    {
      history := history + [Tx(logged, StOf())];
    }
  }

  // ---------- many iputs ----------

  /** `gone` references have been dropped. */
  ghost predicate Dropped(st0: St, cached0: set<nat>, ref0: map<nat, nat>, gone: multiset<nat>, st: St,
                          cached: set<nat>, ref: map<nat, nat>) {
    && st.inodes.Keys == st0.inodes.Keys && ref.Keys == ref0.Keys
    && (forall i :: i in ref ==> ref[i] + gone[i] == ref0[i])
    && forall i :: i in st.inodes ==> DroppedOne(st0, cached0, ref0, gone, st, cached, i)
  }

  ghost predicate Freed(st0: St, cached0: set<nat>, ref0: map<nat, nat>, gone: multiset<nat>, i: nat)
    requires i in st0.inodes
  {
    i in gone && i in cached0 && st0.inodes[i].nlink == 0 && i in ref0 && ref0[i] == gone[i]
  }

  ghost predicate DroppedOne(st0: St, cached0: set<nat>, ref0: map<nat, nat>, gone: multiset<nat>, st: St,
                             cached: set<nat>, i: nat)
    requires i in st.inodes && i in st0.inodes
  {
    var freed := Freed(st0, cached0, ref0, gone, i);
    && st.inodes[i].nlink == st0.inodes[i].nlink && (i in cached <==> i in cached0 && !freed)
    && Content(st, i) == if freed then [] else Content(st0, i)
  }

  lemma NoneDropped(st: St, cached: set<nat>, ref: map<nat, nat>)
    ensures Dropped(st, cached, ref, multiset{}, st, cached, ref)
  {
  }

  lemma DroppedAll(st0: St, cached0: set<nat>, ref0: map<nat, nat>, gone: multiset<nat>, st: St, cached: set<nat>,
                   ref: map<nat, nat>)
    requires Dropped(st0, cached0, ref0, gone, st, cached, ref)
    ensures st.inodes.Keys == st0.inodes.Keys && ref.Keys == ref0.Keys
    ensures forall i :: i in ref ==> ref[i] + gone[i] == ref0[i]
    ensures forall i :: i in st.inodes && st0.inodes[i].nlink > 0 ==> Content(st, i) == Content(st0, i)
    ensures forall i :: i in st.inodes && st0.inodes[i].nlink == 0 && i in gone && i in ref0 ==>
              Content(st, i) == if i in cached0 && ref0[i] == gone[i] then [] else Content(st0, i)
    ensures forall i :: i in st.inodes && i !in gone ==> Content(st, i) == Content(st0, i)
  {
    hide Content;
    forall i | i in st.inodes ensures DroppedOne(st0, cached0, ref0, gone, st, cached, i) {}
  }

  lemma StillHeld(st0: St, cached0: set<nat>, ref0: map<nat, nat>, gone: multiset<nat>, st: St, cached: set<nat>,
                  ref: map<nat, nat>, x: nat)
    requires Dropped(st0, cached0, ref0, gone, st, cached, ref) && x in ref0 && gone[x] < ref0[x]
    ensures x in ref && ref[x] >= 1 && st.inodes.Keys == st0.inodes.Keys && ref.Keys == ref0.Keys
  {
    hide DroppedOne;
  }

  /** One iput more. */
  lemma OneDropped(st0: St, cached0: set<nat>, ref0: map<nat, nat>, gone: multiset<nat>, st: St, cached: set<nat>,
                   ref: map<nat, nat>, st': St, cached': set<nat>, ref': map<nat, nat>, x: nat)
    requires Dropped(st0, cached0, ref0, gone, st, cached, ref) && x in st.inodes && x in ref && ref[x] >= 1
    requires st'.inodes.Keys == st.inodes.Keys && ref' == ref[x := ref[x] - 1]
    requires forall j :: j in st.inodes && j != x ==> st'.inodes[j] == st.inodes[j] && Content(st', j) == Content(st, j)
    requires if x in cached && st.inodes[x].nlink == 0 && ref[x] == 1 then
               st'.inodes[x].nlink == 0 && Content(st', x) == [] && cached' == cached - {x}
             else st' == st && cached' == cached
    ensures Dropped(st0, cached0, ref0, gone + multiset{x}, st', cached', ref')
  {
    hide Content;
    var more := gone + multiset{x};
    forall i | i in st'.inodes ensures DroppedOne(st0, cached0, ref0, more, st', cached', i) {
      assert DroppedOne(st0, cached0, ref0, gone, st, cached, i);
    }
  }

  lemma PutCounts(inums: seq<nat>, n: nat)
    requires n < |inums|
    ensures multiset(inums[..n + 1]) == multiset(inums[..n]) + multiset{inums[n]}
    ensures multiset(inums[..n])[inums[n]] < multiset(inums)[inums[n]] && inums[n] in inums
  {
    assert inums[..n + 1] == inums[..n] + [inums[n]];
    assert inums == inums[..n + 1] + inums[n + 1..];
    assert multiset(inums) == multiset(inums[..n + 1]) + multiset(inums[n + 1..]);
  }
}
