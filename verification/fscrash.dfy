/** Operations on files over the crash-safe log: fs.c and file.c on log.c.

    The operations on the file system are grouped into commits (end_op commits when the
    last of those admitted together leaves).  A commit holds one or more steps, each from
    one sound file system to the next: a whole operation, or operations that interleave
    and are told as one.  A crash leaves some prefix of the disk writes of all the
    commits, and recoveries may crash too. */
module FsCrash {
  import opened Blocks
  import opened Params
  import opened FsState
  import opened FsContent
  import opened FsLog
  import opened FsInode
  import opened FsChunks
  import R = Recovery
  import L = Log

  function Lay(sb: Sb): R.Layout {
    R.Layout(sb.logstart, sb.nlog)
  }

  /** One commit: the steps it makes durable, each an operation or several that
      interleave, and the blocks the log recorded. */
  datatype Commit = Commit(ops: seq<Tx>, blocks: seq<nat>)

  /** All the blocks the operations logged. */
  ghost function Logged(ops: seq<Tx>): set<nat> {
    if ops == [] then {} else Logged(ops[..|ops| - 1]) + ops[|ops| - 1].logged
  }

  /** The log recorded each block once, within what log_write admits. */
  ghost predicate GoodCommit(sb: Sb, st: St, c: Commit) {
    && c.ops != [] && Steps(sb, st, c.ops)
    && (forall b :: b in c.blocks <==> b in Logged(c.ops))
    && (forall i, j :: 0 <= i < j < |c.blocks| ==> c.blocks[i] != c.blocks[j])
    && |c.blocks| <= LOGSIZE && |c.blocks| + 1 <= sb.nlog
  }

  ghost predicate GoodRun(sb: Sb, st: St, commits: seq<Commit>)
    decreases |commits|
  {
    commits != [] ==> GoodCommit(sb, st, commits[0]) && GoodRun(sb, LastSt(st, commits[0].ops), commits[1..])
  }

  /** The operations of a run, in order. */
  ghost function AllOps(commits: seq<Commit>): seq<Tx> {
    if commits == [] then [] else commits[0].ops + AllOps(commits[1..])
  }

  /** The run as the log sees it: the blocks of each commit, and what the cache holds
      then. */
  ghost function Txs(st: St, commits: seq<Commit>): (txs: seq<R.Tx>)
    ensures |txs| == |commits|
    decreases |commits|
  {
    if commits == [] then []
    else [R.Tx(commits[0].blocks, LastSt(st, commits[0].ops).store)] + Txs(LastSt(st, commits[0].ops), commits[1..])
  }

  /** How many operations k disk writes make durable: those of the commits whose header
      write is among them. */
  ghost function Survivors(commits: seq<Commit>, k: nat): (m: nat)
    ensures m <= |AllOps(commits)|
    decreases |commits|
  {
    if commits == [] || (commits[0].blocks != [] && k <= |commits[0].blocks|) then 0
    else
      var n := if commits[0].blocks == [] then 0 else 2 * |commits[0].blocks| + 2;
      |commits[0].ops| + if k < n then 0 else Survivors(commits[1..], k - n)
  }

  // ---------- what a commit holds ----------

  /** Every block that a sequence of operations changed has been logged by one. */
  lemma {:induction false} OpsWrote(sb: Sb, st: St, ops: seq<Tx>)
    requires Steps(sb, st, ops)
    ensures Wrote(sb, st.store, LastSt(st, ops).store, {}, Logged(ops))
    decreases |ops|
  {
    hide Good;
    if ops == [] {
      QuietNone(sb, st.store, {});
    } else {
      var n := |ops| - 1;
      forall k | 0 <= k < n ensures OneStep(sb, LastSt(st, ops[..n][..k]), ops[..n][k]) {
        assert ops[..n][..k] == ops[..k];
      }
      OpsWrote(sb, st, ops[..n]);
      assert OneStep(sb, LastSt(st, ops[..n]), ops[n]);
      WroteTwice(sb, st.store, LastSt(st, ops[..n]).store, ops[n].st.store, {}, Logged(ops[..n]), Logged(ops));
    }
  }

  /** So the commit's blocks turn the disk before it into the disk after it. */
  lemma CommitHolds(sb: Sb, st: St, c: Commit)
    requires GoodCommit(sb, st, c)
    ensures var cur := LastSt(st, c.ops).store;
            |cur| == |st.store| && R.Overlay(st.store, c.blocks, cur) == cur
    ensures forall i :: 0 <= i < |c.blocks| ==> sb.Home(c.blocks[i])
    ensures Good(sb, LastSt(st, c.ops))
  {
    OpsWrote(sb, st, c.ops);
    assert OneStep(sb, LastSt(st, c.ops[..|c.ops| - 1]), c.ops[|c.ops| - 1]);
  }

  /** Any one operation can be a commit of its own on a log of more than MAXOPBLOCKS
      blocks. */
  lemma AloneIsCommit(sb: Sb, st: St, tx: Tx) returns (c: Commit)
    requires OneOp(sb, st, tx) && sb.nlog > MAXOPBLOCKS
    ensures c.ops == [tx] && GoodCommit(sb, st, c)
  {
    var bs := Listed(tx.logged);
    c := Commit([tx], bs);
    assert Logged([tx]) == Logged([]) + tx.logged;
    assert [tx][..0] == [];
  }

  lemma {:induction false} Listed(s: set<nat>) returns (bs: seq<nat>)
    ensures |bs| == |s| && forall b :: b in bs <==> b in s
    ensures forall i, j :: 0 <= i < j < |bs| ==> bs[i] != bs[j]
    decreases |s|
  {
    if s == {} {
      bs := [];
    } else {
      var x :| x in s;
      bs := Listed(s - {x});
      bs := bs + [x];
    }
  }

  // ---------- after the crash ----------

  lemma SlotsElsewhere(sb: Sb, st: St, st': St)
    requires Inv(sb, st, {}) && st'.inodes == st.inodes && |st'.store| == |st.store|
    requires forall b: nat :: b < sb.size && sb.Home(b) ==> st'.store[b] == st.store[b]
    ensures forall t: Slot :: Agree(st, st', t)
  {
    forall t: Slot ensures Agree(st, st', t) {
      SlotInRange(sb, st, {}, t);
      SlotInRange(sb, st, {}, Slot(t.inum, NDIRECT));
      assert At(st, Slot(t.inum, NDIRECT)) == Addr(st, t.inum, NDIRECT) == Addr(st', t.inum, NDIRECT);
    }
  }

  lemma InvElsewhere(sb: Sb, st: St, st': St)
    requires Inv(sb, st, {}) && st'.inodes == st.inodes && st'.own == st.own && |st'.store| == |st.store|
    requires forall b: nat :: b < sb.size && sb.Home(b) ==> st'.store[b] == st.store[b]
    ensures Inv(sb, st', {})
  {
    hide At, BitSet;
    SlotsElsewhere(sb, st, st');
    forall b: nat | b < sb.size ensures MapRight(sb, st', b) {
      assert MapRight(sb, st, b);
      SameBits(sb, st, st', b);
    }
    forall t | At(st', t) != 0 ensures Owns(st', t) && sb.datastart <= At(st', t) < sb.size {
      assert Agree(st, st', t) && Owns(st, t);
    }
    forall b | b in st.own ensures At(st', st.own[b]) == b {
      assert Agree(st, st', st.own[b]);
    }
  }

  lemma SameBits(sb: Sb, st: St, st': St, b: nat)
    requires sb.Ok() && |st.store| == |st'.store| == sb.size && b < sb.size
    requires forall b: nat :: b < sb.size && sb.Home(b) ==> st'.store[b] == st.store[b]
    ensures sb.BBlock(b) < sb.size && BitSet(sb, st'.store, b) == BitSet(sb, st.store, b)
  {
    BBlockInRange(sb, b);
  }

  /** What a file system is depends on nothing in the log area. */
  lemma GoodElsewhere(sb: Sb, st: St, x: Disk)
    requires Good(sb, st) && R.SameHome(Lay(sb), x, st.store)
    ensures var st' := St(x, st.inodes, st.own);
            && Good(sb, st') && (forall t :: Agree(st, st', t))
            && forall i :: i in st.inodes ==> Content(st', i) == Content(st, i)
  {
    hide Inv, Agree, Mapped, Content, At;
    var st' := St(x, st.inodes, st.own);
    forall b: nat | b < sb.size && sb.Home(b) ensures x[b] == st.store[b] {
      assert Lay(sb).Home(x, b);
    }
    SlotsElsewhere(sb, st, st');
    InvElsewhere(sb, st, st');
    forall i | i in st.inodes ensures Stored(sb, x, i, st.inodes[i]) {
      assert Stored(sb, st.store, i, st.inodes[i]);
      IBlockInRange(sb, i);
    }
    forall i | i in st.inodes ensures Mapped(st', i) && Content(st', i) == Content(st, i) {
      SameFile(st, st', i);
    }
  }

  lemma RunIsGood(sb: Sb, st: St, commits: seq<Commit>)
    requires sb.Ok() && |st.store| == sb.size && 1 <= sb.nlog && GoodRun(sb, st, commits)
    ensures R.GoodTxs(Lay(sb), st.store, Txs(st, commits))
    decreases |commits|
  {
    if commits != [] {
      var st1 := LastSt(st, commits[0].ops);
      CommitHolds(sb, st, commits[0]);
      RunIsGood(sb, st1, commits[1..]);
      var txs := Txs(st, commits);
      forall i | 0 <= i < |txs| ensures R.GoodBlocks(Lay(sb), st.store, txs[i].blocks) && |txs[i].cur| == |st.store| {
        if i > 0 {
          assert txs[i] == Txs(st1, commits[1..])[i - 1];
          R.GoodBlocksLen(Lay(sb), st1.store, st.store, txs[i].blocks);
        }
      }
    }
  }

  /** One more commit after a run. */
  lemma {:induction false} OneMoreOfRun(sb: Sb, st: St, commits: seq<Commit>, c: Commit)
    requires GoodRun(sb, st, commits) && GoodCommit(sb, LastSt(st, AllOps(commits)), c)
    ensures GoodRun(sb, st, commits + [c]) && AllOps(commits + [c]) == AllOps(commits) + c.ops
    ensures Txs(st, commits + [c]) ==
            Txs(st, commits) + [R.Tx(c.blocks, LastSt(st, AllOps(commits) + c.ops).store)]
    decreases |commits|
  {
    hide GoodCommit;
    var all := commits + [c];
    if commits == [] {
      assert all[1..] == [] && AllOps(commits) + c.ops == c.ops;
      NotEmpty(sb, st, c);
    } else {
      var st1 := LastSt(st, commits[0].ops);
      NotEmpty(sb, st, commits[0]);
      FirstWhole(st, commits, |AllOps(commits)|);
      assert AllOps(commits)[..|AllOps(commits)|] == AllOps(commits);
      assert AllOps(commits[1..])[..|AllOps(commits[1..])|] == AllOps(commits[1..]);
      OneMoreOfRun(sb, st1, commits[1..], c);
      assert all[1..] == commits[1..] + [c];
      NotEmpty(sb, LastSt(st, AllOps(commits)), c);
      var ops := AllOps(commits[1..]) + c.ops;
      assert AllOps(commits) + c.ops == commits[0].ops + ops;
    }
  }

  lemma NotEmpty(sb: Sb, st: St, c: Commit)
    requires GoodCommit(sb, st, c)
    ensures c.ops != []
  {
  }

  /** When all its disk writes are done a run has lost nothing. */
  lemma {:induction false} AllSurvive(sb: Sb, d: Disk, st: St, commits: seq<Commit>)
    requires Lay(sb).Fits(d) && R.GoodTxs(Lay(sb), d, Txs(st, commits))
    ensures Survivors(commits, |R.RunWrites(Lay(sb), d, Txs(st, commits))|) == |AllOps(commits)|
    decreases |commits|
  {
    hide R.CommitWrites, ApplyWrites, R.GoodBlocks;
    var txs := Txs(st, commits);
    if commits != [] {
      var st1 := LastSt(st, commits[0].ops);
      R.RunSplit(Lay(sb), d, txs);
      assert txs[1..] == Txs(st1, commits[1..]);
      AllSurvive(sb, ApplyWrites(d, R.CommitWrites(Lay(sb), txs[0].blocks, d, txs[0].cur)), st1, commits[1..]);
    }
  }

  /** A prefix of the operations that takes in the whole first commit. */
  lemma FirstWhole(st: St, commits: seq<Commit>, m: nat)
    requires commits != [] && |commits[0].ops| <= m <= |AllOps(commits)|
    ensures m - |commits[0].ops| <= |AllOps(commits[1..])|
    ensures LastSt(st, AllOps(commits)[..m]) ==
            LastSt(LastSt(st, commits[0].ops), AllOps(commits[1..])[..m - |commits[0].ops|])
  {
    assert AllOps(commits)[..m] == commits[0].ops + AllOps(commits[1..])[..m - |commits[0].ops|];
  }

  lemma FirstPart(commits: seq<Commit>, m: nat)
    requires commits != [] && m <= |commits[0].ops|
    ensures m <= |AllOps(commits)| && AllOps(commits)[..m] == commits[0].ops[..m]
  {
  }

  /** The first commit of a run is durable from its header write on. */
  lemma DurableFirst(sb: Sb, st: St, commits: seq<Commit>, k: nat)
    requires GoodRun(sb, st, commits) && forall t :: t in Txs(st, commits) ==> |t.cur| == |st.store|
    ensures commits == [] ==> R.Durable(st.store, Txs(st, commits), k) == st.store
    ensures commits != [] ==>
              var c, st1, n := commits[0], LastSt(st, commits[0].ops), R.TxLen(Txs(st, commits)[0]);
              && (forall t :: t in Txs(st1, commits[1..]) ==> |t.cur| == |st1.store|)
              && R.Durable(st.store, Txs(st, commits), k) ==
                 if c.blocks != [] && k <= |c.blocks| then st.store
                 else if k < n then st1.store
                 else R.Durable(st1.store, Txs(st1, commits[1..]), k - n)
  {
    hide Good, GoodCommit, R.Overlay, AllOps;
    if commits != [] {
      var c, st1 := commits[0], LastSt(st, commits[0].ops);
      var txs := Txs(st, commits);
      CommitHolds(sb, st, c);
      assert txs[0] == R.Tx(c.blocks, st1.store) && txs[1..] == Txs(st1, commits[1..]);
      assert forall t :: t in txs[1..] ==> t in txs;
    }
  }

  /** Exactly the surviving operations are durable. */
  lemma {:induction false} DurableOps(sb: Sb, st: St, commits: seq<Commit>, k: nat)
    requires GoodRun(sb, st, commits) && forall t :: t in Txs(st, commits) ==> |t.cur| == |st.store|
    ensures R.Durable(st.store, Txs(st, commits), k) == LastSt(st, AllOps(commits)[..Survivors(commits, k)]).store
    decreases |commits|
  {
    hide Good, GoodCommit, AllOps, R.Durable;
    DurableFirst(sb, st, commits, k);
    if commits != [] && (commits[0].blocks == [] || k > |commits[0].blocks|) {
      var c, st1 := commits[0], LastSt(st, commits[0].ops);
      var n := R.TxLen(Txs(st, commits)[0]);
      if k < n {
        FirstPart(commits, |c.ops|);
        assert c.ops[..|c.ops|] == c.ops;
      } else {
        DurableOps(sb, st1, commits[1..], k - n);
        FirstWhole(st, commits, Survivors(commits, k));
      }
    }
  }

  lemma {:induction false} AllGood(sb: Sb, st: St, commits: seq<Commit>, m: nat)
    requires Good(sb, st) && GoodRun(sb, st, commits) && m <= |AllOps(commits)|
    ensures Good(sb, LastSt(st, AllOps(commits)[..m]))
    decreases |commits|
  {
    hide Good;
    if commits != [] && m > 0 {
      var c := commits[0];
      if m <= |c.ops| {
        FirstPart(commits, m);
        assert OneStep(sb, LastSt(st, c.ops[..m - 1]), c.ops[m - 1]);
      } else {
        CommitHolds(sb, st, c);
        FirstWhole(st, commits, m);
        AllGood(sb, LastSt(st, c.ops), commits[1..], m - |c.ops|);
      }
    }
  }

  /** The disk writes of the run. */
  ghost function Writes(sb: Sb, d: Disk, st0: St, commits: seq<Commit>): seq<Write>
    requires Ready(sb, d, st0, commits)
  {
    R.RunWrites(Lay(sb), d, Txs(st0, commits))
  }

  /** The disk a recovery leaves after k writes of the run, or all if there are fewer,
      and the crashed recoveries ks. */
  ghost function AfterCrash(sb: Sb, d: Disk, st0: St, commits: seq<Commit>, k: nat, ks: seq<nat>): Disk
    requires Ready(sb, d, st0, commits)
  {
    var ws := Writes(sb, d, st0, commits);
    var e := R.CrashedRecoveries(Lay(sb), ApplyWrites(d, ws[..Least(k, |ws|)]), ks);
    if R.GoodHead(Lay(sb), e) then R.Recovered(Lay(sb), e) else e
  }

  /** How many operations survive a crash after k writes. */
  ghost function Survived(sb: Sb, d: Disk, st0: St, commits: seq<Commit>, k: nat): (m: nat)
    requires Ready(sb, d, st0, commits)
    ensures m <= |AllOps(commits)|
  {
    Survivors(commits, Least(k, |Writes(sb, d, st0, commits)|))
  }

  /** A sound file system on a disk with an empty log, and a run of operations on it. */
  ghost predicate Ready(sb: Sb, d: Disk, st0: St, commits: seq<Commit>)
    ensures Ready(sb, d, st0, commits) ==> Lay(sb).Fits(d) && R.GoodTxs(Lay(sb), d, Txs(st0, commits))
  {
    && Good(sb, st0) && 1 <= sb.nlog && GoodRun(sb, st0, commits)
    && |d| == sb.size && R.HeadN(d[sb.logstart]) == 0 && R.SameHome(Lay(sb), d, st0.store)
    && (ReadyFits(sb, d, st0, commits); true)
  }

  lemma ReadyFits(sb: Sb, d: Disk, st0: St, commits: seq<Commit>)
    requires Good(sb, st0) && 1 <= sb.nlog && GoodRun(sb, st0, commits)
    requires |d| == sb.size && R.HeadN(d[sb.logstart]) == 0 && R.SameHome(Lay(sb), d, st0.store)
    ensures Lay(sb).Fits(d) && R.GoodTxs(Lay(sb), d, Txs(st0, commits))
  {
    RunIsGood(sb, st0, commits);
    var txs := Txs(st0, commits);
    forall i | 0 <= i < |txs| ensures R.GoodBlocks(Lay(sb), d, txs[i].blocks) {
      R.GoodBlocksLen(Lay(sb), st0.store, d, txs[i].blocks);
    }
  }

  /** Wherever the machine crashes, and however many recoveries crash after it, the
      recovered disk is a sound file system that holds exactly the surviving
      operations: their inodes, and their files byte for byte. */
  lemma CrashKeepsFiles(sb: Sb, d: Disk, st0: St, commits: seq<Commit>, k: nat, ks: seq<nat>)
    requires Ready(sb, d, st0, commits)
    ensures var st := LastSt(st0, AllOps(commits)[..Survived(sb, d, st0, commits, k)]);
            var st' := St(AfterCrash(sb, d, st0, commits, k, ks), st.inodes, st.own);
            && Good(sb, st') && R.HeadN(st'.store[sb.logstart]) == 0
            && forall i :: i in st.inodes ==> Content(st', i) == Content(st, i)
  {
    hide Good, GoodRun, Content;
    var l, txs, ws := Lay(sb), Txs(st0, commits), Writes(sb, d, st0, commits);
    var n := Least(k, |ws|);
    R.CrashInRun(l, d, st0.store, txs, n, ks);
    DurableOps(sb, st0, commits, n);
    AllGood(sb, st0, commits, Survivors(commits, n));
    R.RecoveredHead(l, R.CrashedRecoveries(l, ApplyWrites(d, ws[..n]), ks));
    GoodElsewhere(sb, LastSt(st0, AllOps(commits)[..Survivors(commits, n)]), AfterCrash(sb, d, st0, commits, k, ks));
  }

  /** The logger class itself: when its commits are those of the run, whatever the cache
      held of the log area, a crash after any of its disk writes since boot leaves exactly
      the surviving operations. */
  lemma CrashOfLogger(lg: L.Logger, sb: Sb, st0: St, commits: seq<Commit>, k: nat, ks: seq<nat>)
    requires lg.Recorded() && lg.Lay() == Lay(sb) && R.SameTxs(Lay(sb), lg.txs, Txs(st0, commits))
    requires Ready(sb, lg.BootDisk(), st0, commits) && lg.boot + k <= |lg.bc.writes|
    ensures var e := R.CrashedRecoveries(Lay(sb), ApplyWrites(lg.bc.disk0, lg.bc.writes[..lg.boot + k]), ks);
            && R.GoodHead(Lay(sb), e)
            && var st := LastSt(st0, AllOps(commits)[..Survived(sb, lg.BootDisk(), st0, commits, k)]);
               var st' := St(R.Recovered(Lay(sb), e), st.inodes, st.own);
               Good(sb, st') && forall i :: i in st.inodes ==> Content(st', i) == Content(st, i)
  {
    hide Good, GoodRun, Content, R.RunWrites, ApplyWrites;
    var d := lg.BootDisk();
    lg.CrashedSinceBoot(st0.store, k, ks);
    R.SameRun(Lay(sb), d, lg.txs, Txs(st0, commits));
    assert lg.bc.writes[..lg.boot + k] == lg.bc.writes[..lg.boot] + lg.bc.writes[lg.boot..][..k];
    ApplyConcat(lg.bc.disk0, lg.bc.writes[..lg.boot], lg.bc.writes[lg.boot..][..k]);
    CrashKeepsFiles(sb, d, st0, commits, k, ks);
  }

  lemma SameFileHas(st0: St, st: St, st': St, i: nat, off: nat, src: seq<byte>, m: nat)
    requires FileHas(st0, st, i, off, src, m) && st'.inodes == st.inodes && Content(st', i) == Content(st, i)
    ensures FileHas(st0, st', i, off, src, m)
  {
  }

  /** A crash anywhere in a filewrite, with any operations on other files between its
      chunks: the file holds exactly the whole chunks that were committed. */
  lemma CrashInFilewrite(sb: Sb, d: Disk, st0: St, commits: seq<Commit>, k: nat, ks: seq<nat>, marks: seq<bool>,
                         i: nat, off: nat, src: seq<byte>, w: nat)
    requires Ready(sb, d, st0, commits) && i in st0.inodes && w <= |src|
    requires FileTxs(sb, st0, AllOps(commits), marks, i, off, src, w)
    ensures var m := Survived(sb, d, st0, commits, k);
            var st := LastSt(st0, AllOps(commits)[..m]);
            var st' := St(AfterCrash(sb, d, st0, commits, k, ks), st.inodes, st.own);
            Good(sb, st') && FileHas(st0, st', i, off, src, Least(ChunkCount(marks[..m]) * MAX, w))
  {
    hide Good, GoodRun, Content, Ready, FileHas, FileStep, Ops, AfterCrash, Survived;
    var m := Survived(sb, d, st0, commits, k);
    var st := LastSt(st0, AllOps(commits)[..m]);
    CrashKeepsFiles(sb, d, st0, commits, k, ks);
    FileAfter(sb, st0, AllOps(commits), marks, i, off, src, w, m);
    SameFileHas(st0, st, St(AfterCrash(sb, d, st0, commits, k, ks), st.inodes, st.own), i, off, src,
                Least(ChunkCount(marks[..m]) * MAX, w));
  }
}
