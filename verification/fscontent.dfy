/** What an inode's blocks mean: a byte sequence (bmap, readi and writei in fs.c). */
module FsContent {
  import opened Blocks
  import opened Params
  import opened FsState

  const MAXBYTES := 71168      // MAXFILE * BSIZE

  /** The block holding block bn of file i, 0 when there is none. */
  function BlockOf(st: St, i: nat, bn: nat): nat {
    At(st, Slot(i, SlotOfBlock(bn)))
  }

  function ByteAt(st: St, i: nat, o: nat): byte {
    if 0 < BlockOf(st, i, o / BSIZE) < |st.store| then st.store[BlockOf(st, i, o / BSIZE)][o % BSIZE] else 0
  }

  /** Every block below the inode's size is allocated. */
  ghost predicate Mapped(st: St, i: nat) {
    && i in st.inodes && st.inodes[i].size <= MAXBYTES
    && forall bn: nat :: bn * BSIZE < st.inodes[i].size ==> BlockOf(st, i, bn) != 0
  }

  /** The file's bytes. */
  function Content(st: St, i: nat): (c: seq<byte>)
    requires i in st.inodes
    ensures |c| == st.inodes[i].size
  {
    seq(st.inodes[i].size, o requires 0 <= o => ByteAt(st, i, o))
  }

  lemma SameBytes(st: St, st': St, i: nat, o: nat)
    requires forall t: Slot :: t.inum == i ==> Agree(st, st', t)
    ensures |st'.store| == |st.store| ==> ByteAt(st', i, o) == ByteAt(st, i, o)
  {
    assert Agree(st, st', Slot(i, SlotOfBlock(o / BSIZE)));
  }

  /** A file none of whose slots changed reads the same. */
  lemma SameFile(st: St, st': St, i: nat)
    requires i in st.inodes && i in st'.inodes && st'.inodes[i].size == st.inodes[i].size
    requires |st'.store| == |st.store| && Mapped(st, i)
    requires forall t: Slot :: t.inum == i ==> Agree(st, st', t)
    ensures Content(st', i) == Content(st, i) && Mapped(st', i)
  {
    forall o | 0 <= o < st.inodes[i].size ensures Content(st', i)[o] == Content(st, i)[o] {
      SameBytes(st, st', i, o);
    }
    forall bn: nat | bn * BSIZE < st.inodes[i].size ensures BlockOf(st', i, bn) != 0 {
      assert BlockOf(st, i, bn) != 0 && Agree(st, st', Slot(i, SlotOfBlock(bn)));
    }
  }

  /** A stretch of the content inside one block. */
  lemma SliceOfBlock(st: St, i: nat, off: nat, m: nat)
    requires i in st.inodes && off + m <= st.inodes[i].size && off % BSIZE + m <= BSIZE
    requires 0 < BlockOf(st, i, off / BSIZE) < |st.store|
    ensures Content(st, i)[off..off + m] == st.store[BlockOf(st, i, off / BSIZE)][off % BSIZE..off % BSIZE + m]
  {
    var a, b := Content(st, i)[off..off + m], st.store[BlockOf(st, i, off / BSIZE)][off % BSIZE..off % BSIZE + m];
    forall x | 0 <= x < m ensures a[x] == b[x] {
      assert (off + x) / BSIZE == off / BSIZE && (off + x) % BSIZE == off % BSIZE + x;
    }
  }

  ghost predicate OnlyAddrs(st: St, st': St, i: nat) {
    && st'.inodes.Keys == st.inodes.Keys && |st'.store| == |st.store|
    && (forall j :: j in st.inodes && j != i ==> st'.inodes[j] == st.inodes[j])
    && (i in st.inodes ==> st'.inodes[i] == st.inodes[i].(addrs := st'.inodes[i].addrs))
  }

  /** bmap's effect: block bn is there, every slot in use is as before, and nothing
      else appeared but possibly, beyond the direct blocks, the indirect one. */
  ghost predicate Grown(st: St, st': St, i: nat, bn: nat)
    ensures Grown(st, st', i, bn) ==> st'.inodes.Keys == st.inodes.Keys
  {
    && OnlyAddrs(st, st', i)
    && BlockOf(st', i, bn) != 0
    && (BlockOf(st, i, bn) != 0 ==> st' == st)
    && (forall t: Slot :: t.inum != i || At(st, t) != 0 ==> Agree(st, st', t))
    && (forall t: Slot :: t.inum == i && t.k != SlotOfBlock(bn) && (t.k != NDIRECT || bn < NDIRECT) ==>
          At(st', t) == At(st, t))
  }

  /** One allocation into slot s. */
  ghost predicate Filled(st: St, st': St, s: Slot) {
    OnlyAddrs(st, st', s.inum) && AgreeExcept(st, st', s) && At(st', s) != 0
  }

  lemma FilledDirect(st: St, st': St, i: nat, bn: nat)
    requires bn < NDIRECT
    requires if BlockOf(st, i, bn) != 0 then st' == st else Filled(st, st', Slot(i, bn))
    ensures Grown(st, st', i, bn)
  {
    forall t: Slot | t.inum != i || At(st, t) != 0 ensures Agree(st, st', t) {}
    forall t: Slot | t.inum == i && t.k != bn ensures At(st', t) == At(st, t) {
      assert Agree(st, st', t);
    }
  }

  /** bmap beyond the direct blocks: the indirect block, then the entry. */
  lemma FilledIndirect(was: St, mid: St, now: St, i: nat, bn: nat)
    requires NDIRECT <= bn < MAXFILE
    requires if Addr(was, i, NDIRECT) != 0 then mid == was else Filled(was, mid, Slot(i, NDIRECT))
    requires if BlockOf(mid, i, bn) != 0 then now == mid else Filled(mid, now, Slot(i, bn + 1))
    ensures Grown(was, now, i, bn) && Addr(now, i, NDIRECT) == Addr(mid, i, NDIRECT)
  {
    var e := Slot(i, bn + 1);
    assert BlockOf(mid, i, bn) == At(mid, e);
    assert now == mid || Agree(mid, now, Slot(i, NDIRECT));
    forall t: Slot | t.inum != i || At(was, t) != 0 ensures Agree(was, now, t) {
      assert mid == was || Agree(was, mid, t);
      assert now == mid || t == e || Agree(mid, now, t);
      if t == e { assert mid == was || Agree(was, mid, e); }
    }
    forall t: Slot | t.inum == i && t.k != bn + 1 && t.k != NDIRECT ensures At(now, t) == At(was, t) {
      assert mid == was || Agree(was, mid, t);
      assert now == mid || Agree(mid, now, t);
    }
  }

  // ---------- writei, part way ----------

  /** `tot` bytes of src have been written to file i from offset off on. */
  ghost predicate Written(st0: St, st: St, i: nat, src: seq<byte>, off: nat, tot: nat) {
    && tot <= |src| && OnlyAddrs(st0, st, i)
    && (forall t: Slot :: t.inum != i ==> Agree(st0, st, t))
    && BlocksRight(st0, st, i, off, tot) && BytesRight(st0, st, i, src, off, tot)
  }

  ghost predicate BlocksRight(st0: St, st: St, i: nat, off: nat, tot: nat) {
    forall bn: nat :: BlockRight(st0, st, i, off, tot, bn)
  }

  ghost predicate BytesRight(st0: St, st: St, i: nat, src: seq<byte>, off: nat, tot: nat) {
    forall o: nat :: ByteRight(st0, st, i, src, off, tot, o)
  }

  predicate Touched(off: nat, tot: nat, bn: nat) {
    tot > 0 && off / BSIZE <= bn && bn * BSIZE < off + tot
  }

  ghost predicate BlockRight(st0: St, st: St, i: nat, off: nat, tot: nat, bn: nat) {
    if BlockOf(st0, i, bn) != 0 then BlockOf(st, i, bn) == BlockOf(st0, i, bn)
    else BlockOf(st, i, bn) != 0 <==> Touched(off, tot, bn) && bn < MAXFILE
  }

  ghost predicate ByteRight(st0: St, st: St, i: nat, src: seq<byte>, off: nat, tot: nat, o: nat) {
    if off <= o < off + tot && tot <= |src| then ByteAt(st, i, o) == src[o - off]
    else BlockOf(st0, i, o / BSIZE) != 0 ==> ByteAt(st, i, o) == ByteAt(st0, i, o)
  }

  /** memmove of m bytes of src, from src[tot], into a block at offset off + tot. */
  function Splice(b: Block, src: seq<byte>, tot: nat, at: nat, m: nat): Block
    requires tot + m <= |src| && at + m <= BSIZE
  {
    b[..at] + src[tot..tot + m] + b[at + m..]
  }

  function WriteBlock(st: St, i: nat, bn: nat, data: Block): St {
    if BlockOf(st, i, bn) < |st.store| then St(st.store[BlockOf(st, i, bn) := data], st.inodes, st.own) else st
  }

  lemma WrittenNothing(st: St, i: nat, src: seq<byte>, off: nat)
    ensures Written(st, st, i, src, off, 0)
  {
  }

  lemma SameBlocks(st0: St, st: St, st': St, i: nat, src: seq<byte>, off: nat, tot: nat)
    requires Written(st0, st, i, src, off, tot) && forall t: Slot :: At(st', t) == At(st, t)
    ensures BlocksRight(st0, st', i, off, tot)
  {
    forall bn: nat ensures BlockRight(st0, st', i, off, tot, bn) {
      assert BlockRight(st0, st, i, off, tot, bn);
    }
  }

  /** Block bn exists after bmap and the rest of Written still holds. */
  lemma GrownKeeps(st0: St, st: St, st1: St, i: nat, src: seq<byte>, off: nat, tot: nat, m: nat)
    requires Written(st0, st, i, src, off, tot) && tot + m <= |src| && 0 < m <= BSIZE - (off + tot) % BSIZE
    requires Grown(st, st1, i, (off + tot) / BSIZE) && (off + tot) / BSIZE < MAXFILE
    ensures OnlyAddrs(st0, st1, i)
    ensures forall t: Slot :: t.inum != i ==> Agree(st0, st1, t)
    ensures BlocksRight(st0, st1, i, off, tot + m) && BytesRight(st0, st1, i, src, off, tot)
  {
    var end := tot + m;
    var b := (off + tot) / BSIZE;
    forall t: Slot | t.inum != i ensures Agree(st0, st1, t) {
      assert Agree(st0, st, t) && Agree(st, st1, t);
    }
    forall bn: nat ensures BlockRight(st0, st1, i, off, end, bn) {
      assert BlockRight(st0, st, i, off, tot, bn);
      TouchedStep(off, tot, m, bn);
      if bn != b {
        assert SlotOfBlock(bn) != SlotOfBlock(b) && SlotOfBlock(bn) != NDIRECT;
        assert At(st1, Slot(i, SlotOfBlock(bn))) == At(st, Slot(i, SlotOfBlock(bn)));
      } else if BlockOf(st0, i, bn) != 0 {
        assert st1 == st;
      }
    }
    forall o: nat ensures ByteRight(st0, st1, i, src, off, tot, o) {
      assert ByteRight(st0, st, i, src, off, tot, o);
      assert BlockRight(st0, st, i, off, tot, o / BSIZE);
      if BlockOf(st, i, o / BSIZE) != 0 {
        assert Agree(st, st1, Slot(i, SlotOfBlock(o / BSIZE)));
      } else if off <= o < off + tot {
        TouchedByte(off, tot, o);
      }
    }
  }

  lemma TouchedStep(off: nat, tot: nat, m: nat, bn: nat)
    requires 0 < m <= BSIZE - (off + tot) % BSIZE
    ensures Touched(off, tot + m, bn) <==> Touched(off, tot, bn) || bn == (off + tot) / BSIZE
  {
  }

  lemma TouchedByte(off: nat, tot: nat, o: nat)
    requires off <= o < off + tot
    ensures Touched(off, tot, o / BSIZE)
  {
  }

  /** One round of writei's loop: bmap, then m bytes into the block. */
  lemma WriteRound(sb: Sb, st0: St, st: St, st1: St, i: nat, src: seq<byte>, off: nat, tot: nat, m: nat)
    requires Inv(sb, st1, {})
    requires Written(st0, st, i, src, off, tot) && tot + m <= |src| && 0 < m <= BSIZE - (off + tot) % BSIZE
    requires Grown(st, st1, i, (off + tot) / BSIZE) && (off + tot) / BSIZE < MAXFILE
    ensures var bn, at := (off + tot) / BSIZE, (off + tot) % BSIZE;
            && 0 < BlockOf(st1, i, bn) < |st1.store|
            && var st2 := WriteBlock(st1, i, bn, Splice(st1.store[BlockOf(st1, i, bn)], src, tot, at, m));
               && Inv(sb, st2, {}) && Written(st0, st2, i, src, off, tot + m)
               && forall t: Slot :: At(st2, t) == At(st1, t)
  {
    hide Inv, ByteAt, Word, Touched;
    var bn, at := (off + tot) / BSIZE, (off + tot) % BSIZE;
    var s := Slot(i, SlotOfBlock(bn));
    var b := At(st1, s);
    SlotInRange(sb, st1, {}, s);
    var data := Splice(st1.store[b], src, tot, at, m);
    var st2 := WriteBlock(st1, i, bn, data);
    WriteKeepsInv(sb, st1, s, data);
    forall t: Slot ensures At(st2, t) == At(st1, t) {
      assert t == s || Agree(st1, st2, t);
    }
    GrownKeeps(st0, st, st1, i, src, off, tot, m);
    forall t: Slot | t.inum != i ensures Agree(st0, st2, t) {
      assert Agree(st0, st1, t) && Agree(st1, st2, t);
    }
    var end := tot + m;
    forall x: nat ensures BlockRight(st0, st2, i, off, end, x) {
      assert BlockRight(st0, st1, i, off, end, x);
      assert s == Slot(i, SlotOfBlock(x)) || Agree(st1, st2, Slot(i, SlotOfBlock(x)));
    }
    forall o: nat ensures ByteRight(st0, st2, i, src, off, end, o) {
      assert ByteRight(st0, st1, i, src, off, tot, o);
      SplicedByte(st1, st2, i, src, off, tot, m, o);
    }
  }

  /** A byte after the round: new inside the written stretch, else as before. */
  lemma SplicedByte(st1: St, st2: St, i: nat, src: seq<byte>, off: nat, tot: nat, m: nat, o: nat)
    requires tot + m <= |src| && 0 < m <= BSIZE - (off + tot) % BSIZE
    requires var bn, at := (off + tot) / BSIZE, (off + tot) % BSIZE;
             && bn < MAXFILE && 0 < BlockOf(st1, i, bn) < |st1.store|
             && st2 == WriteBlock(st1, i, bn, Splice(st1.store[BlockOf(st1, i, bn)], src, tot, at, m))
             && BlockOf(st2, i, bn) == BlockOf(st1, i, bn)
             && AgreeExcept(st1, st2, Slot(i, SlotOfBlock(bn)))
    ensures ByteAt(st2, i, o) == if off + tot <= o < off + tot + m then src[o - off] else ByteAt(st1, i, o)
  {
    var bn, at := (off + tot) / BSIZE, (off + tot) % BSIZE;
    if o / BSIZE == bn {
      var data := Splice(st1.store[BlockOf(st1, i, bn)], src, tot, at, m);
      var x := o % BSIZE;
      assert at <= x < at + m ==> data[x] == src[tot + (x - at)];
    } else {
      assert Agree(st1, st2, Slot(i, SlotOfBlock(o / BSIZE)));
    }
  }

  function SetSize(st: St, i: nat, size: nat): St
    requires i in st.inodes
  {
    St(st.store, st.inodes[i := st.inodes[i].(size := size)], st.own)
  }

  lemma SetSizeKeeps(sb: Sb, st: St, i: nat, size: nat)
    requires Inv(sb, st, {}) && i in st.inodes
    ensures Inv(sb, SetSize(st, i, size), {}) && forall t: Slot :: At(SetSize(st, i, size), t) == At(st, t)
  {
    var st' := SetSize(st, i, size);
    forall t: Slot ensures At(st', t) == At(st, t) {
      assert Addr(st', t.inum, NDIRECT) == Addr(st, t.inum, NDIRECT);
    }
    forall x: nat | x < sb.size ensures MapRight(sb, st', x) {
      assert MapRight(sb, st, x);
    }
    forall t | At(st', t) != 0 ensures Owns(st', t) {
      assert Owns(st, t);
    }
  }

  /** What a writei of src at off makes of the old content. */
  function Overwritten(old_: seq<byte>, off: nat, src: seq<byte>): (c: seq<byte>)
    requires off <= |old_|
    ensures |c| == if off + |src| <= |old_| then |old_| else off + |src|
  {
    old_[..off] + src + (if off + |src| <= |old_| then old_[off + |src|..] else [])
  }

  /** A read of the stretch just written returns it. */
  lemma ReadBack(old_: seq<byte>, off: nat, src: seq<byte>)
    requires off <= |old_|
    ensures off + |src| <= |Overwritten(old_, off, src)|
    ensures Overwritten(old_, off, src)[off..off + |src|] == src
    ensures forall x :: 0 <= x < |old_| && !(off <= x < off + |src|) ==> Overwritten(old_, off, src)[x] == old_[x]
  {
    var new_ := Overwritten(old_, off, src);
    forall x | 0 <= x < |src| ensures new_[off..off + |src|][x] == src[x] {
      assert new_[off + x] == src[x];
    }
  }

  /** Two writes, the second where the first ended, are one. */
  lemma OverwrittenTwice(old_: seq<byte>, off: nat, a: seq<byte>, b: seq<byte>)
    requires off <= |old_|
    ensures off + |a| <= |Overwritten(old_, off, a)|
    ensures Overwritten(Overwritten(old_, off, a), off + |a|, b) == Overwritten(old_, off, a + b)
  {
    var one := Overwritten(old_, off, a);
    assert one[..off + |a|] == old_[..off] + a;
    if off + |a| + |b| <= |old_| {
      assert one[off + |a| + |b|..] == old_[off + |a| + |b|..];
    }
  }

  /** The finished loop plus the size update: file i reads old[..off] + src +
      old[off+n..], every other file reads as before. */
  lemma WriteDone(st0: St, st: St, i: nat, src: seq<byte>, off: nat)
    requires Written(st0, st, i, src, off, |src|) && Mapped(st0, i)
    requires off <= st0.inodes[i].size && off + |src| <= MAXBYTES
    ensures i in st.inodes
    ensures var size := if off + |src| > st0.inodes[i].size then off + |src| else st0.inodes[i].size;
            var st' := SetSize(st, i, size);
            && Content(st', i) == Overwritten(Content(st0, i), off, src) && Mapped(st', i)
            && st.inodes[i].size == st0.inodes[i].size && (size == st.inodes[i].size ==> st' == st)
            && st'.inodes.Keys == st0.inodes.Keys &&
               (forall j :: j in st0.inodes && j != i ==> st'.inodes[j] == st0.inodes[j])
            && forall j :: j in st0.inodes && j != i && Mapped(st0, j) ==>
               Mapped(st', j) && Content(st', j) == Content(st0, j)
  {
    var size := if off + |src| > st0.inodes[i].size then off + |src| else st0.inodes[i].size;
    var st' := SetSize(st, i, size);
    forall t: Slot ensures At(st', t) == At(st, t) {
      assert Addr(st', t.inum, NDIRECT) == Addr(st, t.inum, NDIRECT);
    }
    var want := Overwritten(Content(st0, i), off, src);
    forall o | 0 <= o < size ensures Content(st', i)[o] == want[o] {
      assert ByteRight(st0, st, i, src, off, |src|, o);
      assert ByteAt(st', i, o) == ByteAt(st, i, o);
      if o < off || o >= off + |src| {
        MappedByte(st0, i, o);
      }
    }
    forall bn: nat | bn * BSIZE < size ensures BlockOf(st', i, bn) != 0 {
      assert BlockRight(st0, st, i, off, |src|, bn);
      if bn * BSIZE < st0.inodes[i].size {
        assert BlockOf(st0, i, bn) != 0;
      } else {
        assert off / BSIZE <= bn;
      }
    }
    forall j | j in st0.inodes && j != i && Mapped(st0, j)
        ensures Mapped(st', j) && Content(st', j) == Content(st0, j) {
      forall t: Slot | t.inum == j ensures Agree(st0, st', t) { assert Agree(st0, st, t); }
      SameFile(st0, st', j);
    }
  }

  lemma WrittenAgree(st0: St, st: St, i: nat, src: seq<byte>, off: nat)
    requires Written(st0, st, i, src, off, |src|)
    ensures (forall t: Slot :: t.inum != i ==> Agree(st0, st, t)) && st.inodes.Keys == st0.inodes.Keys
    ensures i in st.inodes && i in st0.inodes ==> st.inodes[i] == st0.inodes[i].(addrs := st.inodes[i].addrs)
    ensures forall j :: j in st.inodes && j != i ==> st.inodes[j] == st0.inodes[j]
  {
  }

  /** Slots that agree step by step agree over all. */
  lemma AgreeChain(st0: St, st1: St, st2: St, st3: St, i: nat)
    requires forall t: Slot :: t.inum != i ==> Agree(st0, st1, t)
    requires |st1.store| == |st2.store| && st2.store == st1.store && forall t: Slot :: At(st2, t) == At(st1, t)
    requires forall t: Slot :: At(st3, t) == At(st2, t) && Agree(st2, st3, t)
    ensures forall t: Slot :: t.inum != i ==> Agree(st0, st3, t)
  {
    forall t: Slot | t.inum != i ensures Agree(st0, st3, t) {
      assert Agree(st0, st1, t) && Agree(st2, st3, t);
    }
  }

  lemma MappedByte(st: St, i: nat, o: nat)
    requires Mapped(st, i) && o < st.inodes[i].size
    ensures BlockOf(st, i, o / BSIZE) != 0
  {
    var bn := o / BSIZE;
    assert bn * BSIZE < st.inodes[i].size;
  }

  /** A block below the size is there throughout the write. */
  lemma InsideMapped(st0: St, st: St, i: nat, src: seq<byte>, off: nat, tot: nat, bn: nat)
    requires Written(st0, st, i, src, off, tot) && Mapped(st0, i) && bn * BSIZE < st0.inodes[i].size
    ensures BlockOf(st, i, bn) != 0
  {
    assert BlockOf(st0, i, bn) != 0;
    assert BlockRight(st0, st, i, off, tot, bn);
  }
}
