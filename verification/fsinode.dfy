/** Inodes on disk (struct dinode in fs.h, iupdate and ilock in fs.c): eight to a
    block, sixteen words each. */
module FsInode {
  import opened Blocks
  import opened Params
  import opened Bitmap
  import opened FsState
  import opened FsContent
  import opened FsLog

  const INODEWORDS := 16

  /** The fields fit the widths of struct dinode. */
  predicate Fits(ip: Inode) {
    && ip.typ < 0x1_0000 && ip.major < 0x1_0000 && ip.minor < 0x1_0000 && ip.nlink < 0x1_0000
    && ip.size < TWO32 && ip.mode < TWO32 && |ip.addrs| == NDIRECT + 1
    && forall k :: 0 <= k <= NDIRECT ==> ip.addrs[k] < TWO32
  }

  /** struct dinode as words: two pairs of shorts, the size, the addresses, the mode. */
  function WordsOf(ip: Inode): (ws: seq<nat>)
    requires Fits(ip)
    ensures |ws| == INODEWORDS && forall j :: 0 <= j < INODEWORDS ==> ws[j] < TWO32
  {
    [ip.typ + 0x1_0000 * ip.major, ip.minor + 0x1_0000 * ip.nlink, ip.size] + ip.addrs + [ip.mode]
  }

  function OfWords(ws: seq<nat>): Inode
    requires |ws| == INODEWORDS
  {
    Inode(ws[0] % 0x1_0000, ws[0] / 0x1_0000, ws[1] % 0x1_0000, ws[1] / 0x1_0000, ws[2], ws[3..15], ws[15])
  }

  lemma WordsRoundTrip(ip: Inode)
    requires Fits(ip)
    ensures OfWords(WordsOf(ip)) == ip
  {
    var ws := WordsOf(ip);
    assert ws[3..15] == ip.addrs;
    Halves(ip.typ, ip.major);
    Halves(ip.minor, ip.nlink);
  }

  lemma Halves(lo: nat, hi: nat)
    requires lo < 0x1_0000
    ensures (lo + 0x1_0000 * hi) % 0x1_0000 == lo && (lo + 0x1_0000 * hi) / 0x1_0000 == hi
  {
  }

  /** Word i of the block and those after it become ws. */
  function PutWords(b: Block, i: nat, ws: seq<nat>): Block
    requires i + |ws| <= WORDS && forall j :: 0 <= j < |ws| ==> ws[j] < TWO32
    decreases |ws|
  {
    if ws == [] then b else SetWord(PutWords(b, i, ws[..|ws| - 1]), i + |ws| - 1, ws[|ws| - 1])
  }

  lemma {:induction false} WordsPut(b: Block, i: nat, ws: seq<nat>, j: nat)
    requires i + |ws| <= WORDS && (forall x :: 0 <= x < |ws| ==> ws[x] < TWO32) && j < WORDS
    ensures Word(PutWords(b, i, ws), j) == if i <= j < i + |ws| then ws[j - i] else Word(b, j)
    decreases |ws|
  {
    if ws != [] {
      var n := |ws| - 1;
      WordsPut(b, i, ws[..n], j);
      WordOfSetWord(PutWords(b, i, ws[..n]), i + n, ws[n], j);
    }
  }

  /** The words of inode k. */
  function WordsAt(b: Block, k: nat): (ws: seq<nat>)
    requires k < 8
    ensures |ws| == INODEWORDS && forall j :: 0 <= j < INODEWORDS ==> ws[j] == Word(b, 16 * k + j)
  {
    seq<nat>(INODEWORDS, j requires 0 <= j < INODEWORDS => Word(b, 16 * k + j))
  }

  /** Inode k of a block. */
  function InodeIn(b: Block, k: nat): Inode
    requires k < 8
  {
    OfWords(WordsAt(b, k))
  }

  /** iupdate's assignments and memmove, on inode k of a block. */
  function WithInode(b: Block, k: nat, ip: Inode): Block
    requires k < 8 && Fits(ip)
  {
    PutWords(b, 16 * k, WordsOf(ip))
  }

  /** iupdate changes the words of its inode and of no other. */
  lemma WordsWritten(b: Block, k: nat, ip: Inode, m: nat)
    requires k < 8 && m < 8 && Fits(ip)
    ensures WordsAt(WithInode(b, k, ip), m) == if m == k then WordsOf(ip) else WordsAt(b, m)
  {
    hide Word, SetWord, WordsOf, PutWords;
    var b' := WithInode(b, k, ip);
    forall j: nat | j < INODEWORDS ensures WordsAt(b', m)[j] == if m == k then WordsOf(ip)[j] else WordsAt(b, m)[j] {
      assert m < k ==> 16 * m + j < 16 * k;
      assert m > k ==> 16 * m + j >= 16 * k + 16;
      WordsPut(b, 16 * k, WordsOf(ip), 16 * m + j);
    }
  }

  /** ilock reads back what iupdate wrote, and the other inodes of the block are
      untouched. */
  lemma InodeRoundTrip(b: Block, k: nat, ip: Inode, m: nat)
    requires k < 8 && m < 8 && Fits(ip)
    ensures InodeIn(WithInode(b, k, ip), m) == if m == k then ip else InodeIn(b, m)
  {
    hide WithInode, WordsAt, OfWords, WordsOf;
    WordsWritten(b, k, ip, m);
    WordsRoundTrip(ip);
  }

  /** The inodes on disk are those in memory. */
  ghost predicate OnDisk(sb: Sb, store: Disk, inodes: map<nat, Inode>) {
    forall i :: i in inodes ==> Stored(sb, store, i, inodes[i])
  }

  predicate Stored(sb: Sb, store: Disk, i: nat, ip: Inode) {
    i < sb.ninodes && sb.IBlock(i) < |store| && Fits(ip) && WordsAt(store[sb.IBlock(i)], i % 8) == WordsOf(ip)
  }

  lemma SplitWord(w: nat)
    requires w < TWO32
    ensures w % 0x1_0000 + 0x1_0000 * (w / 0x1_0000) == w && w / 0x1_0000 < 0x1_0000
  {
  }

  /** An inode is stored exactly when ilock would read it. */
  lemma StoredIff(sb: Sb, store: Disk, i: nat, ip: Inode)
    requires i < sb.ninodes && sb.IBlock(i) < |store| && Fits(ip)
    ensures Stored(sb, store, i, ip) <==> InodeIn(store[sb.IBlock(i)], i % 8) == ip
  {
    hide Word;
    var ws := WordsAt(store[sb.IBlock(i)], i % 8);
    WordsRoundTrip(ip);
    if OfWords(ws) == ip {
      SplitWord(ws[0]);
      SplitWord(ws[1]);
      assert ws == ws[..3] + ws[3..15] + [ws[15]];
      assert ws == WordsOf(ip);
    }
  }

  lemma IBlockInRange(sb: Sb, i: nat)
    requires sb.Ok() && i < sb.ninodes
    ensures sb.InodeBlock(sb.IBlock(i)) && sb.Home(sb.IBlock(i)) && sb.IBlock(i) < sb.datastart &&
            !sb.MapBlock(sb.IBlock(i))
  {
  }

  /** Every inode number has an inode. */
  ghost predicate AllInodes(sb: Sb, st: St) {
    forall i :: i in st.inodes <==> 0 <= i < sb.ninodes
  }

  /** Every inode as ilock reads it. */
  function ReadInodes(sb: Sb, store: Disk): (m: map<nat, Inode>)
    requires sb.Ok() && |store| == sb.size
    ensures forall i :: i in m <==> 0 <= i < sb.ninodes
  {
    map i | i in Range(0, sb.ninodes) :: InodeIn(store[sb.IBlock(i)], i % 8)
  }

  /** A disk's inodes are what is read of it. */
  lemma InodesRead(sb: Sb, st: St)
    requires Good(sb, st) && AllInodes(sb, st)
    ensures ReadInodes(sb, st.store) == st.inodes
  {
    hide Inv, Mapped, InodeIn, WordsAt, WordsOf;
    forall i | i in st.inodes ensures ReadInodes(sb, st.store)[i] == st.inodes[i] {
      assert Stored(sb, st.store, i, st.inodes[i]);
      StoredIff(sb, st.store, i, st.inodes[i]);
    }
  }

  /** iupdate makes its inode's record current and disturbs no other. */
  lemma UpdateStores(sb: Sb, store: Disk, inodes: map<nat, Inode>, i: nat, ip: Inode)
    requires sb.Ok() && |store| == sb.size && i < sb.ninodes && Fits(ip)
    requires forall j :: j in inodes && j != i ==> Stored(sb, store, j, inodes[j])
    ensures sb.IBlock(i) < |store|
    ensures OnDisk(sb, store[sb.IBlock(i) := WithInode(store[sb.IBlock(i)], i % 8, ip)], inodes[i := ip])
  {
    hide WordsAt, WordsOf, WithInode;
    IBlockInRange(sb, i);
    var store' := store[sb.IBlock(i) := WithInode(store[sb.IBlock(i)], i % 8, ip)];
    var inodes' := inodes[i := ip];
    forall j | j in inodes' ensures Stored(sb, store', j, inodes'[j]) {
      WordsWritten(store[sb.IBlock(i)], i % 8, ip, j % 8);
      if j != i && sb.IBlock(j) == sb.IBlock(i) {
        assert j % 8 != i % 8;
      }
    }
  }

  // ---------- inode blocks and the rest ----------

  /** Writing an inode block touches no slot, no data block and no map block. */
  lemma InodeWriteKeepsInv(sb: Sb, st: St, x: nat, data: Block)
    requires Inv(sb, st, {}) && sb.InodeBlock(x)
    ensures x < |st.store|
    ensures var st' := St(st.store[x := data], st.inodes, st.own);
            Inv(sb, st', {}) && forall t: Slot :: At(st', t) == At(st, t) && Agree(st, st', t)
  {
    var st' := St(st.store[x := data], st.inodes, st.own);
    forall t: Slot ensures At(st', t) == At(st, t) && Agree(st, st', t) {
      SlotInRange(sb, st, {}, t);
      SlotInRange(sb, st, {}, Slot(t.inum, NDIRECT));
      assert At(st, Slot(t.inum, NDIRECT)) == Addr(st, t.inum, NDIRECT) == Addr(st', t.inum, NDIRECT);
    }
    forall b: nat | b < sb.size ensures MapRight(sb, st', b) {
      assert MapRight(sb, st, b);
      BBlockInRange(sb, b);
    }
    forall t | At(st', t) != 0 ensures Owns(st', t) {
      assert Owns(st, t);
    }
  }

  /** A sound file system: ownership exact, every file's blocks in place, and the
      inodes on disk those in memory. */
  ghost predicate Good(sb: Sb, st: St)
    ensures Good(sb, st) ==> Inv(sb, st, {}) && forall i :: i in st.inodes ==> st.inodes[i].size <= MAXBYTES
  {
    && Inv(sb, st, {})
    && (forall i :: i in st.inodes ==> Mapped(st, i))
    && OnDisk(sb, st.store, st.inodes)
    && forall i :: i in st.inodes ==> Fits(st.inodes[i])
  }

  lemma InodeNumber(sb: Sb, st: St, i: nat)
    requires Good(sb, st) && i in st.inodes
    ensures i < sb.ninodes
  {
    assert Stored(sb, st.store, i, st.inodes[i]);
  }

  /** The words of an inode on disk: two shorts to a word, the size, the twelve addresses
      and the mode, 64 bytes in all. */
  lemma DiskWords(sb: Sb, st: St, i: nat)
    requires Good(sb, st) && i in st.inodes
    ensures sb.inodestart + i / 8 < |st.store|
    ensures var b, k, ip := st.store[sb.inodestart + i / 8], 16 * (i % 8), st.inodes[i];
            && Word(b, k) == ip.typ + 0x1_0000 * ip.major && Word(b, k + 1) == ip.minor + 0x1_0000 * ip.nlink
            && Word(b, k + 2) == ip.size && Word(b, k + 15) == ip.mode
            && forall j :: 0 <= j <= NDIRECT ==> Word(b, k + 3 + j) == ip.addrs[j]
  {
    hide Word, Inv, Mapped;
    assert Stored(sb, st.store, i, st.inodes[i]);
    var b, k, ws := st.store[sb.IBlock(i)], 16 * (i % 8), WordsAt(st.store[sb.IBlock(i)], i % 8);
    assert ws[0] == Word(b, k + 0) && ws[1] == Word(b, k + 1) && ws[2] == Word(b, k + 2) && ws[15] == Word(b, k + 15);
    forall j | 0 <= j <= NDIRECT ensures Word(b, k + 3 + j) == st.inodes[i].addrs[j] {
      assert ws[3 + j] == Word(b, k + (3 + j));
    }
  }

  /** Where a byte of a file is: in one of the eleven direct blocks, or in a block that
      the indirect block lists. */
  lemma FileByte(sb: Sb, st: St, i: nat, o: nat)
    requires Good(sb, st) && i in st.inodes && o < st.inodes[i].size
    ensures var bn, addrs := o / 512, st.inodes[i].addrs;
            if bn < 11 then 0 < addrs[bn] < |st.store| && Content(st, i)[o] == st.store[addrs[bn]][o % 512]
            else && bn < 139 && 0 < addrs[11] < |st.store|
                 && var a := Word(st.store[addrs[11]], bn - 11);
                    0 < a < |st.store| && Content(st, i)[o] == st.store[a][o % 512]
  {
    hide Word, Stored;
    var bn := o / 512;
    assert bn * BSIZE < st.inodes[i].size && BlockOf(st, i, bn) != 0;
    SlotInRange(sb, st, {}, Slot(i, SlotOfBlock(bn)));
    SlotInRange(sb, st, {}, Slot(i, NDIRECT));
    assert At(st, Slot(i, NDIRECT)) == Addr(st, i, NDIRECT);
  }

  /** While the inode blocks are still, the records on disk are. */
  lemma StillOnDisk(sb: Sb, store: Disk, store': Disk, inodes: map<nat, Inode>)
    requires sb.Ok() && |store| == sb.size && OnDisk(sb, store, inodes) && InodesStill(sb, store, store')
    ensures OnDisk(sb, store', inodes)
  {
    forall i | i in inodes ensures Stored(sb, store', i, inodes[i]) {
      assert Stored(sb, store, i, inodes[i]);
      IBlockInRange(sb, i);
    }
  }

  /** An inode of which only addresses and the size have changed still fits. */
  lemma StillFits(sb: Sb, st: St, i: nat, was: Inode)
    requires Inv(sb, st, {}) && i in st.inodes && Fits(was) && st.inodes[i].size < TWO32
    requires st.inodes[i] == was.(addrs := st.inodes[i].addrs, size := st.inodes[i].size, typ := st.inodes[i].typ)
    requires st.inodes[i].typ == was.typ || st.inodes[i].typ == 0
    ensures Fits(st.inodes[i])
  {
    forall k | 0 <= k <= NDIRECT ensures st.inodes[i].addrs[k] < TWO32 {
      assert At(st, Slot(i, k)) == st.inodes[i].addrs[k];
    }
  }

  /** iupdate at the end of an operation on inode i: the state is sound again, and no
      file's content changes. */
  lemma Updated(sb: Sb, st0: St, st: St, i: nat)
    requires Inv(sb, st, {}) && Good(sb, st0) && InodesStill(sb, st0.store, st.store)
    requires st.inodes.Keys == st0.inodes.Keys && i in st.inodes && Fits(st.inodes[i])
    requires forall j :: j in st.inodes && j != i ==> st.inodes[j] == st0.inodes[j]
    requires forall j :: j in st.inodes ==> Mapped(st, j)
    ensures i < sb.ninodes && sb.IBlock(i) < |st.store|
    ensures var st1 := St(st.store[sb.IBlock(i) := WithInode(st.store[sb.IBlock(i)], i % 8, st.inodes[i])], st.inodes,
            st.own);
            && Good(sb, st1) && (forall j :: j in st.inodes ==> Content(st1, j) == Content(st, j))
            && forall t: Slot :: At(st1, t) == At(st, t) && Agree(st, st1, t)
  {
    hide WordsAt, WordsOf, WithInode, At, Agree, Content, Mapped, Inv;
    StillOnDisk(sb, st0.store, st.store, st0.inodes);
    assert Stored(sb, st0.store, i, st0.inodes[i]);
    IBlockInRange(sb, i);
    forall j | j in st.inodes && j != i ensures Stored(sb, st.store, j, st.inodes[j]) {
      assert Stored(sb, st.store, j, st0.inodes[j]);
    }
    UpdateStores(sb, st.store, st.inodes, i, st.inodes[i]);
    assert st.inodes[i := st.inodes[i]] == st.inodes;
    var data := WithInode(st.store[sb.IBlock(i)], i % 8, st.inodes[i]);
    InodeWriteKeepsInv(sb, st, sb.IBlock(i), data);
    var st1 := St(st.store[sb.IBlock(i) := data], st.inodes, st.own);
    forall j | j in st.inodes ensures Mapped(st1, j) && Content(st1, j) == Content(st, j) {
      SameFile(st, st1, j);
    }
  }

  /** An operation on inode i that left its record as it was. */
  lemma NotUpdated(sb: Sb, st0: St, st: St)
    requires Inv(sb, st, {}) && Good(sb, st0) && InodesStill(sb, st0.store, st.store) && st.inodes == st0.inodes
    requires forall j :: j in st.inodes ==> Mapped(st, j)
    ensures Good(sb, st)
  {
    StillOnDisk(sb, st0.store, st.store, st0.inodes);
  }

  // ---------- a formatted disk ----------

  function EmptyInode(): (ip: Inode)
    ensures Fits(ip)
  {
    Inode(0, 0, 0, 0, 0, [0, 0, 0, 0, 0, 0, 0, 0, 0, 0, 0, 0], 0)
  }

  function EmptyInodes(n: nat): (m: map<nat, Inode>)
    ensures forall i :: i in m <==> 0 <= i < n
    ensures forall i :: i in m ==> m[i] == EmptyInode()
  {
    map i | i in Range(0, n) :: EmptyInode()
  }

  /** Nothing marked in use yet. */
  function Blank(sb: Sb): (store: Disk)
    requires |sb.meta| == sb.size
    ensures |store| == sb.size
  {
    seq(sb.size, x requires 0 <= x < sb.size => if sb.Fixed(x) then sb.meta[x] else ZeroBlock())
  }

  /** The blocks below b are marked, and the other blocks are as in Blank. */
  ghost predicate Marked(sb: Sb, store: Disk, b: nat)
    requires |sb.meta| == sb.size
  {
    && sb.Ok() && |store| == sb.size
    && (forall x: nat :: x < sb.size ==> MarkedTo(sb, store, b, x))
    && forall x: nat :: x < sb.size && !sb.MapBlock(x) ==> store[x] == Blank(sb)[x]
  }

  predicate MarkedTo(sb: Sb, store: Disk, b: nat, x: nat) {
    sb.BBlock(x) < |store| && (BitSet(sb, store, x) <==> x < b)
  }

  lemma BlankBits(sb: Sb)
    requires sb.Ok() && |sb.meta| == sb.size
    ensures Marked(sb, Blank(sb), 0)
  {
    forall x: nat | x < sb.size ensures MarkedTo(sb, Blank(sb), 0, x) {
      BBlockInRange(sb, x);
      ZeroBits(x % BPB);
    }
  }

  lemma MarkNext(sb: Sb, store: Disk, b: nat)
    requires |sb.meta| == sb.size && Marked(sb, store, b) && b < sb.size
    ensures sb.BBlock(b) < |store|
    ensures Marked(sb, store[sb.BBlock(b) := SetBlockBit(store[sb.BBlock(b)], b % BPB)], b + 1)
  {
    BBlockInRange(sb, b);
    var store' := store[sb.BBlock(b) := SetBlockBit(store[sb.BBlock(b)], b % BPB)];
    var next := b + 1;
    forall x: nat | x < sb.size ensures MarkedTo(sb, store', next, x) {
      assert MarkedTo(sb, store, b, x);
      BBlockInRange(sb, x);
      if sb.BBlock(x) == sb.BBlock(b) {
        SetBlockBitBits(store[sb.BBlock(b)], b % BPB, x % BPB);
      }
    }
  }

  lemma NoBlocks(st: St, s: Slot)
    requires forall i :: i in st.inodes ==> st.inodes[i] == EmptyInode()
    ensures At(st, s) == 0
  {
    assert Addr(st, s.inum, NDIRECT) == 0;
    if s.k <= NDIRECT { assert Addr(st, s.inum, s.k) == 0; }
  }

  lemma NothingMapped(st: St, i: nat)
    requires i in st.inodes && st.inodes[i].size == 0
    ensures Mapped(st, i)
  {
  }

  lemma FormattedInv(sb: Sb, store: Disk, inodes: map<nat, Inode>)
    requires |sb.meta| == sb.size && Marked(sb, store, sb.datastart)
    requires inodes == EmptyInodes(sb.ninodes)
    ensures Inv(sb, St(store, inodes, map[]), {})
    ensures forall b: nat :: b < sb.size ==> (Free(sb, store, b) <==> sb.datastart <= b)
  {
    hide At, BitSet;
    var st := St(store, inodes, map[]);
    forall s ensures At(st, s) == 0 { NoBlocks(st, s); }
    forall x: nat | x < sb.size ensures MapRight(sb, st, x) && (Free(sb, store, x) <==> sb.datastart <= x) {
      assert MarkedTo(sb, store, sb.datastart, x);
    }
  }

  /** With the metadata marked, the disk is sound and everything else is free. */
  lemma Formatted(sb: Sb, store: Disk, inodes: map<nat, Inode>)
    requires |sb.meta| == sb.size && Marked(sb, store, sb.datastart)
    requires inodes == EmptyInodes(sb.ninodes)
    ensures Good(sb, St(store, inodes, map[]))
    ensures forall b: nat :: b < sb.size ==> (Free(sb, store, b) <==> sb.datastart <= b)
  {
    hide Inv, At, BitSet, WordsAt, WordsOf, Free, Mapped;
    FormattedInv(sb, store, inodes);
    var st := St(store, inodes, map[]);
    forall i | i in inodes ensures Mapped(st, i) { NothingMapped(st, i); }
    forall i | i in inodes ensures Stored(sb, store, i, inodes[i]) {
      IBlockInRange(sb, i);
      ZeroInode(i % 8);
    }
  }

  lemma NoWords(ip: Inode, j: nat)
    requires Fits(ip) && ip.typ == ip.major == ip.minor == ip.nlink == ip.size == ip.mode == 0 && j < INODEWORDS
    requires forall x :: 0 <= x <= NDIRECT ==> ip.addrs[x] == 0
    ensures WordsOf(ip)[j] == 0
  {
  }

  lemma ZeroInode(k: nat)
    requires k < 8
    ensures WordsAt(ZeroBlock(), k) == WordsOf(EmptyInode())
  {
    hide Word, WordsOf;
    var ip := EmptyInode();
    forall j: nat | j < INODEWORDS ensures WordsAt(ZeroBlock(), k)[j] == WordsOf(ip)[j] {
      ZeroBlockWords(16 * k + j);
      NoWords(ip, j);
    }
  }
}
