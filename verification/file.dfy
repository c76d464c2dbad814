/** fileread and filewrite on an inode (file.c). */
module File {
  import opened Blocks
  import opened FsState
  import opened FsContent
  import opened FsLog
  import opened FsInode
  import opened FsChunks
  import opened Fs
  import opened Params

  class OpenFile {
    const inum: nat
    const readable: bool
    const writable: bool
    var off: nat

    constructor (inum: nat, readable: bool, writable: bool)
      ensures this.inum == inum && this.readable == readable && this.writable == writable && off == 0
    {
      this.inum, this.readable, this.writable, this.off := inum, readable, writable, 0;
    }

    /** fileread: the next n bytes, fewer at the end of the file; the offset moves
        past them. */
    method Fileread(fs: FileSys, n: nat) returns (r: int, dst: seq<byte>)
      requires fs.Valid() && inum in fs.inodes && off < TWO32 && n < TWO32
      modifies this, fs
      ensures fs.Valid() && fs.StOf() == old(fs.StOf()) && inum in fs.inodes
      ensures var c := Content(fs.StOf(), inum);
              if readable && old(off) <= |c| && old(off) + n < TWO32 then
                r == |dst| && dst == c[old(off)..Least(old(off) + n, |c|)] && off == old(off) + r
              else r == -1 && off == old(off)
    {
      dst := [];
      if !readable {
        return -1, [];
      }
      var ok;
      ok, r, dst := fs.Readi(inum, off, n);
      if r > 0 {
        off := off + r;
      }
    }

    /** One region of filewrite, from begin_op to end_op, in any sound state: the whole
        chunk is written where the offset stands, or none of it (-1).  It ends as one
        transaction of at most MAXOPBLOCKS blocks that holds every block changed. */
    method WriteChunk(fs: FileSys, chunk: seq<byte>) returns (ok: bool, r: int)
      requires fs.Valid() && inum in fs.inodes && off < TWO32 && 0 < |chunk| <= MAX
      modifies this, fs
      ensures !ok ==> !fs.SomeFree() && fs.history == old(fs.history)
      ensures ok ==> fs.Valid() && fs.inodes.Keys == old(fs.inodes.Keys)
      ensures ok ==>
              r == if old(off) <= old(fs.inodes)[inum].size && old(off) + |chunk| <= MAXBYTES then |chunk| else -1
      ensures ok ==> off == old(off) + (if r < 0 then 0 else r)
      ensures ok && r < 0 ==> fs.StOf() == old(fs.StOf())
      ensures ok && r >= 0 ==> Content(fs.StOf(), inum) == Overwritten(old(Content(fs.StOf(), inum)), old(off), chunk)
      ensures ok ==> forall j :: j in fs.inodes && j != inum ==> Content(fs.StOf(), j) == old(Content(fs.StOf(), j))
      ensures ok ==> fs.history == old(fs.history) + [Tx(fs.logged, fs.StOf())]
      ensures ok ==> OneOp(fs.sb, old(fs.StOf()), Tx(fs.logged, fs.StOf()))
    {
      hide Good, FileSys.SomeFree, Content, Overwritten, Wrote;
      fs.BeginOp();
      ok, r := fs.Writei(inum, chunk, off);
      if !ok {
        return;
      }
      if r > 0 {
        off := off + r;
      }
      fs.EndOp();
    }

    /** How far a filewrite has got: i bytes of src written from offset off0 on, in the
        transactions txs. */
    ghost predicate Progress(fs: FileSys, st0: St, src: seq<byte>, off0: nat, w: nat, i: nat, txs: seq<Tx>)
      reads this, fs
    {
      && fs.Valid() && inum in fs.inodes && off == off0 + i && i <= |src| && i <= w
      && ChunkTxs(fs.sb, st0, txs, inum, off0, src, w)
      && fs.StOf() == LastSt(st0, txs) && Stage(st0, fs.StOf(), inum, off0, src, i)
    }

    /** One turn of filewrite's loop. */
    method FilewriteRound(fs: FileSys, src: seq<byte>, n: int, i: nat, ghost st0: St, ghost off0: nat, ghost w: nat,
                          ghost txs: seq<Tx>)
      returns (ok: bool, r: int, ghost tx: Tx)
      requires i < n <= |src| && i % MAX == 0 && off < TWO32 && Progress(fs, st0, src, off0, w, i, txs)
      requires inum in st0.inodes && w == Accepted(true, off0, st0.inodes[inum].size, n) && |txs| == Chunks(i)
      modifies this, fs
      ensures !ok ==> !fs.SomeFree() && fs.history == old(fs.history)
      ensures ok ==> var n1 := if n - i > MAX then MAX else n - i;
                     && r == (if i < w then n1 else -1) && Chunks(i + n1) == Chunks(i) + 1
                     && ((i + n1) % MAX == 0 || i + n1 == n)
                     && Progress(fs, st0, src, off0, w, if i < w then i + n1 else i, txs + [tx])
                     && fs.history == old(fs.history) + [tx]
    {
      hide FileSys.SomeFree, ChunkTxs, Stage, Content, Overwritten, Good, OneOp;
      tx := Tx({}, st0);
      var n1 := n - i;
      if n1 > MAX {
        n1 := MAX;
      }
      NextChunk(off0, st0.inodes[inum].size, n, i, n1);
      ghost var was := fs.StOf();
      StageSize(st0, was, inum, off0, src, i);
      ok, r := WriteChunk(fs, src[i..i + n1]);
      if ok {
        tx := Tx(fs.logged, fs.StOf());
        if r >= 0 {
          NextStage(st0, was, fs.StOf(), inum, off0, src, i, n1);
        }
        AddTx(fs.sb, st0, tx, txs, inum, off0, src, w);
      }
    }

    /** filewrite: src[..n] in chunks of at most MAX bytes, each its own transaction
        within the log's budget.  Returns n when everything fits below MAXBYTES;
        otherwise -1, with the whole chunks that fit written.  The source's "short
        filewrite" panic cannot happen. */
    method Filewrite(fs: FileSys, src: seq<byte>, n: int) returns (ok: bool, r: int, ghost txs: seq<Tx>)
      requires fs.Valid() && inum in fs.inodes && off < TWO32 && n <= |src| && n < 0x8000_0000
      modifies this, fs
      ensures fs.history == old(fs.history) + txs
      ensures var w := Accepted(writable, old(off), old(fs.inodes)[inum].size, n);
              && ChunkTxs(fs.sb, old(fs.StOf()), txs, inum, old(off), src, w)
              && (ok ==> |txs| == Chunks(w) + if writable && w < n then 1 else 0)
      ensures ok && writable && n >= 0 && old(off) <= old(fs.inodes)[inum].size && old(off) + n <= MAXBYTES ==>
                r == n && |txs| == (n + 3 * BSIZE - 1) / (3 * BSIZE)
      ensures ok && writable && 0 < n <= 3 * BSIZE && r == n ==> |txs| == 1
      ensures ok ==> fs.Valid() && fs.StOf() == LastSt(old(fs.StOf()), txs)
      ensures ok ==> var w := Accepted(writable, old(off), old(fs.inodes)[inum].size, n);
                     && r == (if writable && n == w then n else -1)
                     && off == old(off) + w
                     && Stage(old(fs.StOf()), fs.StOf(), inum, old(off), src, w)
      ensures !ok ==> !fs.SomeFree()
    {
      hide FileSys.SomeFree, ChunkTxs, Stage, Content, Good, OneOp;
      ok, r, txs := true, -1, [];
      ghost var st0, off0 := fs.StOf(), off;
      ghost var w := Accepted(writable, off0, fs.inodes[inum].size, n);
      StageStart(fs.sb, st0, inum, off0, src, w);
      if !writable {
        return;
      }
      var i := 0;
      while i < n
        invariant 0 <= i <= w && (w == 0 || i <= n) && (i % MAX == 0 || i == n)
        invariant Progress(fs, st0, src, off0, w, i, txs) && |txs| == Chunks(i)
        invariant fs.history == old(fs.history) + txs
      {
        ghost var tx;
        ok, r, tx := FilewriteRound(fs, src, n, i, st0, off0, w, txs);
        if !ok {
          return;
        }
        txs := txs + [tx];
        if r < 0 {
          break;
        }
        i := i + r;      // r == n1, else "short filewrite"
      }
      r := if i == n then n else -1;
    }
  }
}
