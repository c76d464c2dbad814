/** filewrite's transactions (file.c), one a chunk. */
module FsChunks {
  import opened Params
  import opened FsState
  import opened FsContent
  import opened FsLog
  import opened FsInode

  const MAX := 1536      // ((MAXOPBLOCKS-1-1-2) / 2) * 512

  /** How many chunks w bytes make. */
  function Chunks(w: nat): nat {
    (w + MAX - 1) / MAX
  }

  /** The state the last of the transactions left. */
  ghost function LastSt(st0: St, txs: seq<Tx>): St {
    if txs == [] then st0 else txs[|txs| - 1].st
  }

  /** From state st to a sound file system, every block that changed logged: one
      operation, or several whose regions interleave. */
  ghost predicate OneStep(sb: Sb, st: St, tx: Tx) {
    Good(sb, tx.st) && Wrote(sb, st.store, tx.st.store, {}, tx.logged)
  }

  ghost predicate Steps(sb: Sb, st0: St, txs: seq<Tx>) {
    forall k :: 0 <= k < |txs| ==> OneStep(sb, LastSt(st0, txs[..k]), txs[k])
  }

  lemma NoSteps(sb: Sb, st: St)
    ensures Steps(sb, st, [])
  {
  }

  lemma StepsSnoc(sb: Sb, st: St, txs: seq<Tx>, tx: Tx)
    requires Steps(sb, st, txs) && OneStep(sb, LastSt(st, txs), tx)
    ensures Steps(sb, st, txs + [tx])
  {
    hide OneStep;
    var all := txs + [tx];
    assert all[..|txs|] == txs;
    forall k | 0 <= k < |all| ensures OneStep(sb, LastSt(st, all[..k]), all[k]) {
      if k < |txs| { assert all[..k] == txs[..k]; }
    }
  }

  /** One operation: such a step within the budget. */
  ghost predicate OneOp(sb: Sb, st: St, tx: Tx) {
    OneStep(sb, st, tx) && |tx.logged| <= MAXOPBLOCKS
  }

  ghost predicate Ops(sb: Sb, st0: St, txs: seq<Tx>) {
    forall k :: 0 <= k < |txs| ==> OneOp(sb, LastSt(st0, txs[..k]), txs[k])
  }

  /** File i holds its old content with src[..m] written at offset off. */
  ghost predicate FileHas(st0: St, st: St, i: nat, off: nat, src: seq<byte>, m: nat)
    ensures FileHas(st0, st, i, off, src, m) ==> i in st.inodes
  {
    && i in st0.inodes && i in st.inodes && m <= |src| && (m > 0 ==> off <= |Content(st0, i)|)
    && Content(st, i) == if m == 0 then Content(st0, i) else Overwritten(Content(st0, i), off, src[..m])
  }

  /** And the other files are as they were. */
  ghost predicate Stage(st0: St, st: St, i: nat, off: nat, src: seq<byte>, m: nat) {
    && FileHas(st0, st, i, off, src, m) && st.inodes.Keys == st0.inodes.Keys
    && forall j :: j in st.inodes && j != i ==> Content(st, j) == Content(st0, j)
  }

  /** After k + 1 transactions exactly k + 1 chunks are written, or all w bytes. */
  ghost predicate ChunkTxs(sb: Sb, st0: St, txs: seq<Tx>, i: nat, off: nat, src: seq<byte>, w: nat) {
    && Ops(sb, st0, txs)
    && forall k :: 0 <= k < |txs| ==> Stage(st0, txs[k].st, i, off, src, Least((k + 1) * MAX, w))
  }

  lemma StageStart(sb: Sb, st0: St, i: nat, off: nat, src: seq<byte>, w: nat)
    requires i in st0.inodes
    ensures ChunkTxs(sb, st0, [], i, off, src, w) && Stage(st0, st0, i, off, src, 0) && LastSt(st0, []) == st0
  {
  }

  /** The offset is inside the file once something has been written. */
  lemma StageSize(st0: St, st: St, i: nat, off: nat, src: seq<byte>, m: nat)
    requires Stage(st0, st, i, off, src, m)
    ensures i in st.inodes && st.inodes.Keys == st0.inodes.Keys
    ensures if m > 0 then off + m <= st.inodes[i].size && off <= st0.inodes[i].size
            else st.inodes[i].size == st0.inodes[i].size
  {
  }

  /** One more chunk, written whole or (r < 0) refused. */
  lemma NextStage(st0: St, was: St, st: St, i: nat, off: nat, src: seq<byte>, m: nat, n1: nat)
    requires Stage(st0, was, i, off, src, m) && m + n1 <= |src| && off + m <= |Content(was, i)| && 0 < n1
    requires off <= |Content(st0, i)|
    requires st.inodes.Keys == was.inodes.Keys &&
             Content(st, i) == Overwritten(Content(was, i), off + m, src[m..m + n1])
    requires forall j :: j in st.inodes && j != i ==> Content(st, j) == Content(was, j)
    ensures Stage(st0, st, i, off, src, m + n1)
  {
    hide Content, Overwritten;
    if m > 0 {
      OverwrittenTwice(Content(st0, i), off, src[..m], src[m..m + n1]);
    }
    assert src[..m] + src[m..m + n1] == src[..m + n1];
  }

  lemma AddTx(sb: Sb, st0: St, tx: Tx, txs: seq<Tx>, i: nat, off: nat, src: seq<byte>, w: nat)
    requires ChunkTxs(sb, st0, txs, i, off, src, w) && OneOp(sb, LastSt(st0, txs), tx)
    requires Stage(st0, tx.st, i, off, src, Least((|txs| + 1) * MAX, w))
    ensures ChunkTxs(sb, st0, txs + [tx], i, off, src, w) && LastSt(st0, txs + [tx]) == tx.st
  {
    hide OneOp, Stage;
    var all := txs + [tx];
    assert all[..|txs|] == txs;
    forall k | 0 <= k < |all| ensures OneOp(sb, LastSt(st0, all[..k]), all[k]) {
      if k < |txs| { assert all[..k] == txs[..k]; }
    }
  }

  /** How many bytes a filewrite of n at offset off of a file of this size writes. */
  function Accepted(writable: bool, off: nat, size: nat, n: int): (w: nat)
    ensures w <= n || w == 0
  {
    if !writable || n <= 0 || off > size || size > MAXBYTES then 0
    else if off + n <= MAXBYTES then n
    else (MAXBYTES - off) / MAX * MAX
  }

  /** A chunk that starts below the limit fits, or none of it is written. */
  lemma NextChunk(off: nat, size: nat, n: nat, i: nat, n1: nat)
    requires size <= MAXBYTES && i < n && i % MAX == 0 && i <= Accepted(true, off, size, n)
    requires n1 == if n - i > MAX then MAX else n - i
    ensures var w := Accepted(true, off, size, n);
            if off <= size && off + i + n1 <= MAXBYTES then i + n1 <= w && Least((Chunks(i) + 1) * MAX, w) == i + n1
            else i == w && Least((Chunks(i) + 1) * MAX, w) == i
    ensures Chunks(i + n1) == Chunks(i) + 1 && ((i + n1) % MAX == 0 || i + n1 == n)
  {
  }

  // ---------- a filewrite among other operations ----------

  /** How many operations are marked. */
  function ChunkCount(marks: seq<bool>): (n: nat)
    ensures n <= |marks|
  {
    if marks == [] then 0 else ChunkCount(marks[..|marks| - 1]) + if marks[|marks| - 1] then 1 else 0
  }

  /** One operation: chunk c of the filewrite, as WriteChunk writes it in any state (or
      refuses it beyond w), or an operation that leaves file i alone. */
  ghost predicate FileStep(st: St, st': St, i: nat, off: nat, src: seq<byte>, w: nat, c: nat, mine: bool) {
    && i in st.inodes && i in st'.inodes && w <= |src|
    && if mine && c * MAX < w then
         && off + c * MAX <= |Content(st, i)|
         && Content(st', i) == Overwritten(Content(st, i), off + c * MAX, src[c * MAX..Least((c + 1) * MAX, w)])
       else Content(st', i) == Content(st, i)
  }

  /** A run of operations of which the marked ones are the chunks of one filewrite, and
      the others do anything to other files. */
  ghost predicate FileTxs(sb: Sb, st0: St, txs: seq<Tx>, marks: seq<bool>, i: nat, off: nat, src: seq<byte>, w: nat) {
    && Steps(sb, st0, txs) && |marks| == |txs|
    && forall k :: 0 <= k < |txs| ==>
         FileStep(LastSt(st0, txs[..k]), txs[k].st, i, off, src, w, ChunkCount(marks[..k]), marks[k])
  }

  lemma ChunkOnChunks(st0: St, st: St, st': St, i: nat, off: nat, src: seq<byte>, w: nat, c: nat, mine: bool)
    requires FileHas(st0, st, i, off, src, Least(c * MAX, w)) && FileStep(st, st', i, off, src, w, c, mine)
    ensures FileHas(st0, st', i, off, src, Least((if mine then c + 1 else c) * MAX, w))
  {
    hide Content, Overwritten;
    if mine && c * MAX < w {
      var lo, hi := c * MAX, Least((c + 1) * MAX, w);
      assert src[..lo] + src[lo..hi] == src[..hi];
      if lo > 0 {
        OverwrittenTwice(Content(st0, i), off, src[..lo], src[lo..hi]);
      }
    }
  }

  /** Whatever happens between them, the file holds exactly the chunks written so far. */
  lemma {:induction false} FileAfter(sb: Sb, st0: St, txs: seq<Tx>, marks: seq<bool>, i: nat, off: nat, src: seq<byte>,
                                     w: nat, m: nat)
    requires FileTxs(sb, st0, txs, marks, i, off, src, w) && m <= |txs| && i in st0.inodes && w <= |src|
    ensures FileHas(st0, LastSt(st0, txs[..m]), i, off, src, Least(ChunkCount(marks[..m]) * MAX, w))
    decreases m
  {
    hide Steps, FileStep, FileHas, ChunkCount, LastSt;
    if m == 0 {
      assert txs[..0] == [] && marks[..0] == [];
      NothingWritten(st0, i, off, src);
    } else {
      var k := m - 1;
      FileAfter(sb, st0, txs, marks, i, off, src, w, k);
      PrefixStep(st0, txs, marks, k);
      ChunkOnChunks(st0, LastSt(st0, txs[..k]), txs[k].st, i, off, src, w, ChunkCount(marks[..k]), marks[k]);
    }
  }

  lemma NothingWritten(st0: St, i: nat, off: nat, src: seq<byte>)
    requires i in st0.inodes
    ensures FileHas(st0, st0, i, off, src, 0) && LastSt(st0, []) == st0 && ChunkCount([]) == 0
  {
  }

  lemma PrefixStep(st0: St, txs: seq<Tx>, marks: seq<bool>, k: nat)
    requires k < |txs| && k < |marks|
    ensures LastSt(st0, txs[..k + 1]) == txs[k].st
    ensures ChunkCount(marks[..k + 1]) == if marks[k] then ChunkCount(marks[..k]) + 1 else ChunkCount(marks[..k])
  {
    assert marks[..k + 1][..k] == marks[..k];
  }

  function AllMarks(n: nat): (marks: seq<bool>)
    ensures |marks| == n
  {
    seq(n, _ => true)
  }

  lemma {:induction false} AllMarked(n: nat)
    ensures ChunkCount(AllMarks(n)) == n
  {
    if n > 0 {
      AllMarked(n - 1);
      assert AllMarks(n)[..n - 1] == AllMarks(n - 1);
    }
  }

  /** A filewrite that nothing interrupts is such a run. */
  lemma AloneIsFileTxs(sb: Sb, st0: St, txs: seq<Tx>, i: nat, off: nat, src: seq<byte>, w: nat)
    requires ChunkTxs(sb, st0, txs, i, off, src, w) && i in st0.inodes && w <= |src|
    ensures FileTxs(sb, st0, txs, AllMarks(|txs|), i, off, src, w)
  {
    hide OneStep, Stage, FileStep, Content;
    var marks := AllMarks(|txs|);
    forall k | 0 <= k < |txs|
      ensures FileStep(LastSt(st0, txs[..k]), txs[k].st, i, off, src, w, ChunkCount(marks[..k]), marks[k]) {
      assert marks[..k] == AllMarks(k);
      AllMarked(k);
      if k > 0 {
        assert Stage(st0, txs[k - 1].st, i, off, src, Least((k - 1 + 1) * MAX, w));
        assert txs[..k][k - 1] == txs[k - 1];
      } else {
        assert txs[..0] == [];
        assert Stage(st0, st0, i, off, src, 0) by { StageStart(sb, st0, i, off, src, w); }
      }
      StageStep(st0, LastSt(st0, txs[..k]), txs[k].st, i, off, src, w, k);
    }
  }

  lemma StageStep(st0: St, st: St, st': St, i: nat, off: nat, src: seq<byte>, w: nat, c: nat)
    requires Stage(st0, st, i, off, src, Least(c * MAX, w)) && Stage(st0, st', i, off, src, Least((c + 1) * MAX, w))
    requires w <= |src|
    ensures FileStep(st, st', i, off, src, w, c, true)
  {
    hide Content, Overwritten;
    if c * MAX < w {
      var lo, hi := c * MAX, Least((c + 1) * MAX, w);
      assert src[..lo] + src[lo..hi] == src[..hi];
      if lo > 0 {
        OverwrittenTwice(Content(st0, i), off, src[..lo], src[lo..hi]);
      }
    }
  }
}
