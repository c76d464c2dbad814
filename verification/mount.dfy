/** A file system mounted over the log: fs.c on log.c on bio.c.

    The operations admitted by begin_op run one after another, each whole; what an
    operation gave to log_write reaches the log, in the same order and with the same
    contents, before its end_op.  The last end_op out commits. */
module Mount {
  import opened Blocks
  import opened Params
  import opened FsState
  import opened FsContent
  import opened FsTrunc
  import opened FsLog
  import opened FsInode
  import opened FsChunks
  import opened FsCrash
  import opened Fs
  import opened Bio
  import R = Recovery
  import L = Log
  import A = Admission
  import FsBill

  /** The same writes on two disks that differ in the log area only. */
  lemma {:induction false} ApplyHome(l: R.Layout, d: Disk, e: Disk, ws: seq<Write>)
    requires R.SameHome(l, d, e)
    ensures R.SameHome(l, ApplyWrites(d, ws), ApplyWrites(e, ws))
    decreases |ws|
  {
    if ws != [] {
      ApplyHome(l, d, e, ws[..|ws| - 1]);
    }
  }

  /** What the log has seen since boot, told as operations on files: the commits, and
      the operations that have ended since the last of them. */
  ghost predicate Told(sb: Sb, boot: Disk, txs: seq<R.Tx>, st0: St, commits: seq<Commit>, pending: seq<Tx>) {
    && Ready(sb, boot, st0, commits) && R.SameTxs(Lay(sb), txs, Txs(st0, commits))
    && Steps(sb, LastSt(st0, AllOps(commits)), pending) && AllInodes(sb, st0)
    && forall tx :: tx in AllOps(commits) + pending ==> AllInodes(sb, tx.st)
  }

  /** One more operation. */
  lemma ToldOp(sb: Sb, boot: Disk, txs: seq<R.Tx>, st0: St, commits: seq<Commit>, pending: seq<Tx>, tx: Tx)
    requires Told(sb, boot, txs, st0, commits, pending) && AllInodes(sb, tx.st)
    requires OneStep(sb, LastSt(st0, AllOps(commits) + pending), tx)
    ensures Told(sb, boot, txs, st0, commits, pending + [tx])
    ensures Logged(pending + [tx]) == Logged(pending) + tx.logged
    ensures AllOps(commits) + (pending + [tx]) == AllOps(commits) + pending + [tx]
  {
    hide OneStep, Steps, Ready, AllInodes, R.SameTxs, AllOps;
    StepsSnoc(sb, LastSt(st0, AllOps(commits)), pending, tx);
  }

  /** One more commit, of all that is pending. */
  lemma ToldCommit(sb: Sb, boot: Disk, txs: seq<R.Tx>, st0: St, commits: seq<Commit>, pending: seq<Tx>,
                   bs: seq<nat>, cur: Disk)
    requires Told(sb, boot, txs, st0, commits, pending)
    requires GoodCommit(sb, LastSt(st0, AllOps(commits)), Commit(pending, bs))
    requires R.SameHome(Lay(sb), cur, LastSt(st0, AllOps(commits) + pending).store)
    ensures Told(sb, boot, txs + [R.Tx(bs, cur)], st0, commits + [Commit(pending, bs)], [])
    ensures AllOps(commits + [Commit(pending, bs)]) + [] == AllOps(commits) + pending
  {
    hide GoodCommit, GoodRun, Good, AllInodes, R.SameHome, AllOps, Txs, Steps, LastSt, R.HeadN;
    NoSteps(sb, LastSt(st0, AllOps(commits) + pending));
    OneMoreOfRun(sb, st0, commits, Commit(pending, bs));
  }

  lemma ToldNothing(sb: Sb, boot: Disk, st0: St)
    requires Good(sb, st0) && AllInodes(sb, st0) && 1 <= sb.nlog
    requires |boot| == sb.size && R.HeadN(boot[sb.logstart]) == 0 && R.SameHome(Lay(sb), boot, st0.store)
    ensures Told(sb, boot, [], st0, [], [])
  {
  }

  /** The same inodes, blocks and bytes. */
  ghost predicate SameFiles(st: St, st': St) {
    && st'.inodes == st.inodes && st'.own == st.own
    && forall i :: i in st.inodes ==> Content(st', i) == Content(st, i)
  }

  class Mounted {
    const fs: FileSys
    const lg: L.Logger
    ghost var st0: St                 // the file system when it was mounted
    ghost var commits: seq<Commit>    // since then
    ghost var pending: seq<Tx>        // the operations ended since the last commit

    /** The operations ended since it was mounted. */
    ghost function Done(): seq<Tx>
      reads this`commits, this`pending
    {
      AllOps(commits) + pending
    }

    /** What the log holds of the operations so far, which left the file system st: it
        records the blocks of the pending ones, the cache holds st outside the log area,
        and the commits made are those of the operations.  Of the operations admitted only
        those of `busy` have used any of their budget. */
    ghost predicate Tells(st: St, busy: set<nat>)
      reads this, lg, lg.block, lg.bc
    {
      && lg.Valid() && lg.Recorded() && lg.bc.HeldOnly({}, {}) && lg.Lay() == Lay(fs.sb)
      && (forall j :: 0 <= j < |lg.rem| && j !in busy ==> lg.rem[j] == MAXOPBLOCKS)
      && Told(fs.sb, lg.BootDisk(), lg.txs, st0, commits, pending) && st == LastSt(st0, Done())
      && L.Elems(lg.block[..lg.n]) == Logged(pending)
      && R.SameHome(Lay(fs.sb), lg.bc.current, st.store)
    }

    /** And no commit is under way. */
    ghost predicate Logs(st: St)
      reads this, lg, lg.block, lg.bc
    {
      Tells(st, {}) && !lg.committing
    }

    ghost predicate Valid()
      reads this, fs, lg, lg.block, lg.bc
    {
      fs.Valid() && Logs(fs.StOf())
    }

    /** Boot on any disk that recovery turns into the sound file system st. */
    constructor (sb: Sb, d: Disk, ghost st: St)
      requires Good(sb, st) && AllInodes(sb, st) && 1 <= sb.nlog
      requires R.GoodHead(Lay(sb), d) && st.store == R.Recovered(Lay(sb), d)
      ensures Valid() && fresh(fs) && fresh(lg) && fresh(lg.bc) && fresh(lg.block)
      ensures fs.sb == sb && fs.StOf() == st && commits == [] && pending == [] && Done() == [] && lg.rem == []
      ensures lg.bc.disk0 == d && |lg.bc.writes| == lg.boot && st0 == st
    {
      hide Good, AllInodes, R.GoodHead, R.Recovered, R.RecoverWrites, ApplyWrites, Bcache.Valid, Bcache.HeldOnly,
           L.Logger.Valid, L.Logger.Recorded, Logs;
      var bc := new Bcache(d);
      Unused(bc);
      var lg := new L.Logger(bc, sb.logstart, sb.nlog);
      fs := new FileSys.Mounted(sb, bc.disk, st);
      this.lg, st0, commits, pending := lg, st, [], [];
      new;
      NothingYet(st);
    }

    lemma NothingYet(st: St)
      requires lg.Valid() && lg.Recorded() && lg.bc.HeldOnly({}, {}) && lg.Abs() == A.Init(fs.sb.nlog)
      requires lg.start == fs.sb.logstart && 1 <= fs.sb.nlog
      requires lg.txs == [] && lg.BootDisk() == lg.bc.disk == lg.bc.current == st.store
      requires Good(fs.sb, st) && AllInodes(fs.sb, st) && st0 == st && commits == [] && pending == []
      ensures Logs(st) && lg.rem == []
    {
      hide Good, AllInodes, R.HeadN, ApplyWrites, Bcache.HeldOnly, Bcache.Valid;
      GoodSize(fs.sb, st);
      ToldNothing(fs.sb, lg.BootDisk(), st);
      assert lg.Abs().blocks == [] && lg.Abs().rem == [] && !lg.Abs().committing;
      assert L.Elems(lg.block[..lg.n]) == {} == Logged(pending);
    }

    /** What log_write is given, and what it does, by an operation that began in state
        was: the cache then holds what the operation left. */
    method LogCalls(ghost op: nat, ghost was: St) returns (ok: bool)
      requires Logs(was) && op < |lg.rem| && fs.Traced() && fs.base == was.store
      requires Wrote(fs.sb, was.store, fs.store, {}, fs.logged) && |fs.logged| <= MAXOPBLOCKS
      modifies lg`n, lg`rem, lg.block, lg.bc`buf, lg.bc`links, lg.bc`order, lg.bc`pin, lg.bc`current
      ensures ok <==> forall i :: 0 <= i < |fs.calls| ==>
                        |old(L.Elems(lg.block[..lg.n])) + Targets(fs.calls[..i])| < lg.Cap()
      ensures ok ==> lg.Valid() && lg.bc.HeldOnly({}, {})
      ensures ok ==> |lg.rem| == |old(lg.rem)|
      ensures ok ==> forall j :: 0 <= j < |lg.rem| && j != op ==> lg.rem[j] == MAXOPBLOCKS
      ensures ok ==> L.Elems(lg.block[..lg.n]) == Logged(pending) + fs.logged
      ensures ok ==> R.SameHome(Lay(fs.sb), lg.bc.current, fs.store)
    {
      hide Told, R.SameHome, ApplyWrites, Targets, L.Elems, Logged, Bcache.HeldOnly, Bcache.Valid, L.Logger.Recorded,
           L.Logger.Valid, Wrote, AllOps;
      ghost var ws := fs.calls;
      CallsFit(op, was);
      ApplyHome(Lay(fs.sb), lg.bc.current, was.store, ws);
      ok := lg.LogOp(fs.calls, op, {});
    }

    lemma CallsFit(op: nat, was: St)
      requires Logs(was) && op < |lg.rem| && fs.Traced() && fs.base == was.store
      requires Wrote(fs.sb, was.store, fs.store, {}, fs.logged) && |fs.logged| <= MAXOPBLOCKS
      ensures forall i :: 0 <= i < |fs.calls| ==>
                lg.Lay().Home(lg.bc.disk, fs.calls[i].block) && lg.bc.Clear({}, fs.calls[i].block)
      ensures |Targets(fs.calls) - L.Elems(lg.block[..lg.n])| <= lg.rem[op]
      ensures |L.Elems(lg.block[..lg.n]) + Targets(fs.calls)| <= NBUF
      ensures fs.store == ApplyWrites(was.store, fs.calls) && fs.logged == Targets(fs.calls)
    {
      hide Good, Ready, R.SameTxs, Steps, Logged, R.HeadN, ApplyWrites, L.Elems, L.Logger.Valid, L.Logger.Recorded,
           Bcache.HeldOnly;
      SubsetSize(fs.logged - L.Elems(lg.block[..lg.n]), fs.logged);
      lg.BudgetFits(fs.logged, op);
      DiskSize(was, {});
      forall i | 0 <= i < |fs.calls| ensures lg.Lay().Home(lg.bc.disk, fs.calls[i].block) {
        assert fs.calls[i].block in Targets(fs.calls);
      }
    }

    lemma DiskSize(st: St, busy: set<nat>)
      requires Tells(st, busy)
      ensures |lg.bc.disk| == |lg.bc.current| == |st.store| == fs.sb.size
    {
      hide Good, R.SameTxs, Steps, Logged, R.HeadN, ApplyWrites, L.Elems, L.Logger.Recorded, Bcache.HeldOnly, AllInodes,
           Lru, Keys, Pins;
    }

    /** commit, when the last operation has left. */
    method CommitAll(ghost st: St)
      requires Tells(st, {}) && lg.committing && pending != [] && lg.n < NBUF
      modifies this`commits, this`pending, lg`n, lg`committing, lg`txs
      modifies lg.bc`buf, lg.bc`links, lg.bc`order, lg.bc`disk, lg.bc`current, lg.bc`pin, lg.bc`writes
      ensures Logs(st) && pending == [] && Done() == old(Done())
      ensures commits == old(commits) + [Commit(old(pending), old(lg.block[..lg.n]))]
      ensures lg.BootDisk() == old(lg.BootDisk())
    {
      hide Told, AllOps, ApplyWrites, L.Elems, Logged, Bcache.Valid, Bcache.HeldOnly, L.Logger.Valid, L.Logger.Recorded,
           R.SameHome, R.CanCommit, R.CommitWrites, R.GoodBlocks, Tells, Logs, L.Logger.Apart, L.Logger.BootDisk,
           GoodCommit, Bcache.Kept, A.Inv, R.HeadN;
      CommitReady(st);
      ghost var bs, cur := lg.block[..lg.n], lg.bc.current;
      ToldCommit(fs.sb, lg.BootDisk(), lg.txs, st0, commits, pending, bs, cur);
      lg.Commit({});
      commits, pending := commits + [Commit(pending, bs)], [];
      CommitDone(st, cur);
    }

    lemma CommitReady(st: St)
      requires Tells(st, {}) && lg.committing && pending != []
      ensures lg.n <= lg.block.Length
      ensures GoodCommit(fs.sb, LastSt(st0, AllOps(commits)), Commit(pending, lg.block[..lg.n]))
      ensures lg.Valid() && lg.Recorded() && lg.bc.HeldOnly({}, {}) && lg.Lay() == Lay(fs.sb)
      ensures Told(fs.sb, lg.BootDisk(), lg.txs, st0, commits, pending)
      ensures |lg.bc.pin| == lg.n && lg.rem == [] && lg.Apart({}, lg.block[..lg.n])
      ensures st == LastSt(st0, AllOps(commits) + pending)
      ensures R.SameHome(Lay(fs.sb), lg.bc.current, LastSt(st0, AllOps(commits) + pending).store)
    {
      hide Good, Ready, R.SameTxs, Steps, R.HeadN, ApplyWrites, L.Elems, L.Logger.Recorded, Bcache.HeldOnly, AllInodes,
           Bcache.Valid, A.Sum, Logged;
      lg.PinnedCount();
      DiskSize(st, {});
      var bs := lg.block[..lg.n];
      forall b ensures b in bs <==> b in Logged(pending) { L.ElemsIff(bs, b); }
    }

    lemma CommitDone(st: St, cur: Disk)
      requires lg.Valid() && lg.Recorded() && lg.bc.HeldOnly({}, {}) && lg.Lay() == Lay(fs.sb)
      requires lg.n == 0 && lg.rem == [] && !lg.committing && lg.bc.pin == map[]
      requires R.SameHome(Lay(fs.sb), lg.bc.disk, cur) && R.SameHome(Lay(fs.sb), cur, st.store)
      requires Told(fs.sb, lg.BootDisk(), lg.txs, st0, commits, []) && pending == [] && st == LastSt(st0, Done())
      ensures Logs(st)
    {
      hide Told, R.HeadN, ApplyWrites, L.Logger.Recorded, Bcache.HeldOnly;
    }

    /** One turn of begin_op's loop. */
    method Begin() returns (admitted: bool)
      requires Valid()
      modifies lg`outstanding, lg`rem
      ensures Valid() && lg.rem == if admitted then old(lg.rem) + [MAXOPBLOCKS] else old(lg.rem)
      ensures admitted <==> lg.n + (|old(lg.rem)| + 1) * MAXOPBLOCKS <= LOGSIZE
    {
      hide Good, Told, R.SameHome, L.Elems, Logged, L.Logger.Recorded, L.Logger.Valid, Bcache.HeldOnly, A.Inv, AllOps;
      admitted := lg.BeginOp();
      assert lg.BootDisk() == old(lg.BootDisk());
    }

    /** An operation, begun in state was, has done all but its end_op. */
    ghost predicate Ending(op: nat, was: St)
      reads this, fs, lg, lg.block, lg.bc
    {
      && Logs(was) && op < |lg.rem| && fs.Traced() && fs.base == was.store
      && Wrote(fs.sb, was.store, fs.store, {}, fs.logged) && |fs.logged| <= MAXOPBLOCKS
      && fs.Valid() && AllInodes(fs.sb, fs.StOf())
    }

    /** No log_write of it finds the log full, and if it is the last one out commit finds
        a buffer. */
    ghost predicate Room()
      reads this, fs, lg, lg.block
      requires lg.n <= lg.block.Length
    {
      && (forall i :: 0 <= i < |fs.calls| ==>
            |L.Elems(lg.block[..lg.n]) + Targets(fs.calls[..i])| < lg.Cap())
      && (|lg.rem| > 1 || |L.Elems(lg.block[..lg.n]) + fs.logged| < NBUF)
    }

    /** The operation joins the pending ones. */
    lemma OneMoreDone(op: nat, was: St)
      requires Ending(op, was)
      ensures var tx := Tx(fs.logged, fs.StOf());
              && Told(fs.sb, lg.BootDisk(), lg.txs, st0, commits, pending + [tx])
              && Logged(pending + [tx]) == Logged(pending) + fs.logged
              && AllOps(commits) + (pending + [tx]) == Done() + [tx]
    {
      hide Good, Told, R.SameHome, L.Elems, Logged, L.Logger.Recorded, L.Logger.Valid, Bcache.HeldOnly, AllOps, Wrote,
           AllInodes, CalledSince;
      ToldOp(fs.sb, lg.BootDisk(), lg.txs, st0, commits, pending, Tx(fs.logged, fs.StOf()));
    }

    /** Its log_writes and its end_op: it is then one of the operations done, and when it
        is the last one out they are all committed. */
    method EndOp(ghost op: nat, ghost was: St) returns (ok: bool)
      requires Ending(op, was) && lg.n <= lg.block.Length
      modifies this`commits, this`pending, lg`n, lg`rem, lg`outstanding, lg`committing, lg`txs, lg.block
      modifies lg.bc`buf, lg.bc`links, lg.bc`order, lg.bc`disk, lg.bc`current, lg.bc`pin, lg.bc`writes
      ensures ok <==> old(Room())
      ensures ok ==> Valid() && Done() == old(Done()) + [Tx(fs.logged, fs.StOf())]
      ensures ok ==> |lg.rem| == |old(lg.rem)| - 1 && (lg.rem == [] ==> pending == [])
      ensures ok ==> lg.BootDisk() == old(lg.BootDisk()) && old(commits) <= commits
    {
      hide Good, Told, R.SameHome, L.Elems, Logged, L.Logger.Recorded, L.Logger.Valid, Bcache.HeldOnly, A.Inv, AllOps,
           Wrote, AllInodes, CalledSince, Targets;
      OneMoreDone(op, was);
      ok := LogCalls(op, was);
      if ok {
        pending := pending + [Tx(fs.logged, fs.StOf())];
        ok := Leave(op, fs.StOf());
      }
    }

    /** end_op itself. */
    method Leave(ghost op: nat, ghost st: St) returns (ok: bool)
      requires Tells(st, {op}) && !lg.committing && op < |lg.rem| && pending != [] && lg.n <= lg.block.Length
      modifies this`commits, this`pending, lg`n, lg`rem, lg`outstanding, lg`committing, lg`txs
      modifies lg.bc`buf, lg.bc`links, lg.bc`order, lg.bc`disk, lg.bc`current, lg.bc`pin, lg.bc`writes
      ensures ok <==> |old(lg.rem)| > 1 || |old(L.Elems(lg.block[..lg.n]))| < NBUF
      ensures ok ==> Logs(st) && Done() == old(Done())
      ensures ok ==> |lg.rem| == |old(lg.rem)| - 1 && (lg.rem == [] ==> pending == [])
      ensures ok ==> lg.BootDisk() == old(lg.BootDisk()) && old(commits) <= commits
    {
      hide Told, R.SameHome, L.Elems, Logged, L.Logger.Recorded, L.Logger.Valid, Bcache.HeldOnly, A.Inv, AllOps;
      lg.PinnedCount();
      lg.ElemsSize();
      ok := true;
      var last := lg.EndOp(op);
      if last {
        ok := lg.n < NBUF;      // else "bget: no buffers"
        if ok {
          CommitAll(st);
        }
      }
    }

    // ---------- operations ----------

    lemma NowAll(st: St)
      requires Tells(st, {})
      ensures AllInodes(fs.sb, st)
    {
      hide Good, Ready, R.SameTxs, Steps, Logged, AllOps, AllInodes, L.Logger.Valid, L.Logger.Recorded, Bcache.HeldOnly;
    }

    /** A write of at most three blocks' bytes to a regular file, up to its end_op. */
    method Write(ghost op: nat, inum: nat, src: seq<byte>, off: nat) returns (ok: bool, r: int)
      requires Valid() && op < |lg.rem| && inum in fs.inodes && off < TWO32 && |src| <= 3 * BSIZE
      modifies fs
      ensures !ok ==> !fs.SomeFree()
      ensures ok ==> Ending(op, old(fs.StOf())) && fs.inodes.Keys == old(fs.inodes.Keys)
      ensures ok && off <= old(fs.inodes)[inum].size && off + |src| <= MAXBYTES ==>
                r == |src| && Content(fs.StOf(), inum) == Overwritten(old(Content(fs.StOf(), inum)), off, src)
      ensures ok && (off > old(fs.inodes)[inum].size || off + |src| > MAXBYTES) ==>
                r == -1 && fs.StOf() == old(fs.StOf())
      ensures ok ==> forall j :: j in fs.inodes && j != inum ==> Content(fs.StOf(), j) == old(Content(fs.StOf(), j))
    {
      hide Good, Told, R.SameHome, Content, Overwritten, Wrote, FsBill.Charged, FileSys.SomeFree, L.Elems, Logged,
           L.Logger.Valid, L.Logger.Recorded, Bcache.HeldOnly, AllOps, CalledSince;
      NowAll(fs.StOf());
      fs.BeginOp();
      ok, r := fs.Writei(inum, src, off);
    }

    /** iput, up to its end_op, of an inode whose blocks a transaction can free. */
    method Iput(ghost op: nat, inum: nat)
      requires Valid() && op < |lg.rem| && inum in fs.inodes && inum in fs.ref && fs.ref[inum] >= 1
      requires inum in fs.cached && fs.inodes[inum].nlink == 0 && fs.ref[inum] == 1 ==>
                 |MapsFor(fs.sb, fs.own, inum)| <= 9
      modifies fs
      ensures Ending(op, old(fs.StOf())) && fs.inodes.Keys == old(fs.inodes.Keys)
      ensures fs.ref == old(fs.ref)[inum := old(fs.ref)[inum] - 1]
      ensures old(inum in fs.cached && fs.inodes[inum].nlink == 0 && fs.ref[inum] == 1) ==>
                fs.inodes[inum].typ == 0 && Content(fs.StOf(), inum) == []
      ensures old(!(inum in fs.cached && fs.inodes[inum].nlink == 0 && fs.ref[inum] == 1)) ==>
                fs.StOf() == old(fs.StOf())
      ensures old(fs.inodes)[inum].nlink > 0 ==> Content(fs.StOf(), inum) == old(Content(fs.StOf(), inum))
      ensures forall j :: j in fs.inodes && j != inum ==> Content(fs.StOf(), j) == old(Content(fs.StOf(), j))
    {
      hide Good, Told, R.SameHome, Content, Wrote, MapsFor, Truncated, L.Elems, Logged, L.Logger.Valid,
           L.Logger.Recorded, Bcache.HeldOnly, AllOps, CalledSince;
      NowAll(fs.StOf());
      fs.BeginOp();
      fs.Iput(inum);
    }

    /** begin_op, writei and end_op when nothing else is going on: on a log with room for
        an operation neither the log nor the cache can be in the way, and the write is
        committed. */
    method WriteAlone(inum: nat, src: seq<byte>, off: nat) returns (ok: bool, r: int)
      requires Valid() && lg.rem == [] && pending == [] && fs.sb.nlog > MAXOPBLOCKS + 1
      requires inum in fs.inodes && off < TWO32 && |src| <= 3 * BSIZE
      modifies fs, this`commits, this`pending, lg`n, lg`rem, lg`outstanding, lg`committing, lg`txs, lg.block
      modifies lg.bc`buf, lg.bc`links, lg.bc`order, lg.bc`disk, lg.bc`current, lg.bc`pin, lg.bc`writes
      ensures !ok ==> !fs.SomeFree()
      ensures ok ==> Valid() && lg.rem == [] && pending == [] && fs.inodes.Keys == old(fs.inodes.Keys)
      ensures ok ==> Done() == old(Done()) + [Tx(fs.logged, fs.StOf())] && lg.BootDisk() == old(lg.BootDisk())
      ensures ok && off <= old(fs.inodes)[inum].size && off + |src| <= MAXBYTES ==>
                r == |src| && Content(fs.StOf(), inum) == Overwritten(old(Content(fs.StOf(), inum)), off, src)
    {
      hide Good, Content, Overwritten, FileSys.SomeFree, Logs, Done, L.Elems, Targets, AllOps, CalledSince, Wrote, Room,
           AllInodes;
      Idle();
      var admitted := Begin();
      ghost var was := fs.StOf();
      ok, r := Write(0, inum, src, off);
      if ok {
        RoomAlone(was);
        ok := EndOp(0, was);
      }
    }

    lemma Idle()
      requires Valid() && lg.rem == [] && pending == []
      ensures lg.n == 0
    {
      hide Good, Told, R.SameHome, L.Logger.Recorded, Bcache.HeldOnly;
      lg.ElemsSize();
    }

    /** With nothing recorded an operation's blocks all find room. */
    lemma RoomAlone(was: St)
      requires Ending(0, was) && |lg.rem| == 1 && lg.n == 0 && fs.sb.nlog > MAXOPBLOCKS + 1
      ensures lg.n <= lg.block.Length && Room()
    {
      hide Good, Told, R.SameHome, L.Logger.Recorded, Bcache.HeldOnly, Targets, ApplyWrites, Wrote, AllInodes, Logged;
      lg.ElemsSize();
      assert L.Elems(lg.block[..lg.n]) == {};
      forall i | 0 <= i < |fs.calls| ensures |L.Elems(lg.block[..lg.n]) + Targets(fs.calls[..i])| <= MAXOPBLOCKS {
        TargetsPrefix(fs.calls, i);
        SubsetSize(L.Elems(lg.block[..lg.n]) + Targets(fs.calls[..i]), fs.logged);
      }
      assert {} + fs.logged == fs.logged;
    }

    // ---------- crashes ----------

    lemma IsReady()
      requires Valid()
      ensures Ready(fs.sb, lg.BootDisk(), st0, commits)
    {
      hide Good, Ready;
    }

    /** How many of the operations done survive a crash after k disk writes since boot. */
    ghost function Kept(k: nat): (m: nat)
      requires Valid()
      reads this, fs, lg, lg.block, lg.bc
      ensures m <= |AllOps(commits)| <= |Done()|
    {
      IsReady();
      Survived(fs.sb, lg.BootDisk(), st0, commits, k)
    }

    /** The disk that a crash after k disk writes since boot leaves, with the recoveries
        ks that crash too. */
    ghost function Crashed(k: nat, ks: seq<nat>): Disk
      requires Valid() && lg.boot + k <= |lg.bc.writes|
      reads this, fs, lg, lg.block, lg.bc
    {
      R.CrashedRecoveries(Lay(fs.sb), ApplyWrites(lg.bc.disk0, lg.bc.writes[..lg.boot + k]), ks)
    }

    /** The file system that the first Kept(k) of the operations left. */
    ghost function Survivor(k: nat): St
      requires Valid()
      reads this, fs, lg, lg.block, lg.bc
    {
      LastSt(st0, Done()[..Kept(k)])
    }

    /** Wherever the machine crashes, recovery finds the files as the first Kept(k) of the
        operations left them. */
    lemma Crash(k: nat, ks: seq<nat>)
      requires Valid() && lg.boot + k <= |lg.bc.writes|
      ensures R.GoodHead(Lay(fs.sb), Crashed(k, ks))
      ensures var st' := St(R.Recovered(Lay(fs.sb), Crashed(k, ks)), Survivor(k).inodes, Survivor(k).own);
              Good(fs.sb, st') && AllInodes(fs.sb, st') && SameFiles(Survivor(k), st')
    {
      hide Good, GoodRun, Content, R.RunWrites, ApplyWrites, R.GoodHead, R.Recovered, Survived, R.CrashedRecoveries,
           AllOps, Ready, R.HeadN, L.Logger.Valid;
      IsReady();
      CrashOfLogger(lg, fs.sb, st0, commits, k, ks);
      assert Done()[..Kept(k)] == AllOps(commits)[..Kept(k)];
      FirstInodes(Kept(k));
    }

    lemma FirstInodes(m: nat)
      requires Valid() && m <= |Done()|
      ensures AllInodes(fs.sb, LastSt(st0, Done()[..m]))
    {
      hide Good, Ready, R.SameTxs, Steps, Logged, AllOps, AllInodes, L.Logger.Valid, L.Logger.Recorded, Bcache.HeldOnly;
      if m > 0 {
        assert Done()[..m][m - 1] in Done();
      }
    }

    /** A commit that has ended is not lost. */
    lemma NothingLost()
      requires Valid()
      ensures lg.boot <= |lg.bc.writes| && Kept(|lg.bc.writes| - lg.boot) == |AllOps(commits)|
    {
      hide Good, GoodRun, R.RunWrites, ApplyWrites, AllOps, Survivors;
      IsReady();
      R.SameRun(Lay(fs.sb), lg.BootDisk(), lg.txs, Txs(st0, commits));
      AllSurvive(fs.sb, lg.BootDisk(), st0, commits);
    }

    /** The machine crashed and is booted again from the disk d it left: the files are as
        the surviving operations left them, and the run goes on from there. */
    method Reboot(d: Disk, ghost k: nat, ghost ks: seq<nat>) returns (m: Mounted)
      requires Valid() && lg.boot + k <= |lg.bc.writes| && d == Crashed(k, ks)
      ensures fresh(m) && m.Valid() && m.fs.sb == fs.sb && m.Done() == []
      ensures SameFiles(Survivor(k), m.fs.StOf())
    {
      hide Good, AllInodes, R.Recovered, R.HeadN, Kept, Crashed, Logs, Tells, Done, SameFiles, LastSt;
      Crash(k, ks);
      LogThere();
      ghost var st := Survivor(k);
      m := new Mounted(fs.sb, d, St(R.Recovered(Lay(fs.sb), d), st.inodes, st.own));
    }

    lemma TwoDone(t1: Tx, t2: Tx)
      requires Valid() && Done() == [t1, t2]
      ensures forall k :: Survivor(k) in [st0, t1.st, t2.st]
    {
      hide Logs, Good, Done, Kept;
      forall k: nat ensures Survivor(k) in [st0, t1.st, t2.st] {
        assert Kept(k) <= 2;
        assert [t1, t2][..0] == [] && [t1, t2][..1] == [t1] && [t1, t2][..2] == [t1, t2];
      }
    }

    lemma LogThere()
      requires Valid()
      ensures 1 <= fs.sb.nlog
    {
      hide Good, GoodRun, R.SameTxs, Steps, Logged, AllOps, AllInodes, L.Logger.Valid, L.Logger.Recorded,
           Bcache.HeldOnly;
    }
  }

  /** mkfs, and the first boot. */
  method Format(sb: Sb) returns (m: Mounted)
    requires sb.Ok() && |sb.meta| == sb.size && 1 <= sb.nlog
    ensures fresh(m) && fresh(m.fs) && fresh(m.lg) && fresh(m.lg.bc) && fresh(m.lg.block)
    ensures m.Valid() && m.fs.sb == sb && m.Done() == m.pending == [] && m.lg.rem == [] && m.st0 == m.fs.StOf()
    ensures forall i: nat :: i < sb.ninodes ==> i in m.fs.inodes && Content(m.fs.StOf(), i) == []
  {
    hide Good, R.Recovered, R.HeadN, Mounted.Valid;
    var disk := new FileSys(sb);
    LogZeroed(sb, disk.store);
    R.RecoveredEmpty(Lay(sb), disk.store, disk.store);
    ghost var d := R.Recovered(Lay(sb), disk.store);
    GoodElsewhere(sb, disk.StOf(), d);
    m := new Mounted(sb, disk.store, St(d, disk.inodes, disk.own));
  }

  lemma LogZeroed(sb: Sb, d: Disk)
    requires sb.Ok() && |d| == sb.size && 1 <= sb.nlog
    requires forall b: nat :: b < sb.size && !sb.Home(b) ==> d[b] == ZeroBlock()
    ensures R.HeadN(d[sb.logstart]) == 0 && Lay(sb).Fits(d)
  {
    ZeroBlockWords(0);
  }

  lemma TargetsPrefix(ws: seq<Write>, i: nat)
    requires i <= |ws|
    ensures Targets(ws[..i]) <= Targets(ws)
  {
  }

  /** Two writes to an empty file on a new disk, each a commit of its own.  Wherever the
      machine crashes, what survives is nothing, the first, or both. */
  method TwoWrites(sb: Sb, inum: nat, a: seq<byte>, b: seq<byte>) returns (ok: bool, m: Mounted)
    requires sb.Ok() && |sb.meta| == sb.size && sb.nlog > MAXOPBLOCKS + 1 && inum < sb.ninodes
    requires |a| <= 3 * BSIZE && |b| <= 3 * BSIZE
    ensures fresh(m) && m.fs.sb == sb
    ensures ok ==> m.Valid() && |m.Done()| == 2 && m.pending == [] && inum in m.fs.inodes
    ensures ok ==> Content(m.fs.StOf(), inum) == a + b
    ensures ok ==> forall k: nat :: inum in m.Survivor(k).inodes &&
                                    Content(m.Survivor(k), inum) in [[], a, a + b]
  {
    hide Good, Content, Overwritten, FileSys.SomeFree, Mounted.Valid, AllInodes, Mounted.Done, Mounted.Survivor;
    m := Format(sb);
    FromEmpty(a, b);
    var r;
    ok, r := m.WriteAlone(inum, a, 0);
    if ok {
      ghost var t1 := Tx(m.fs.logged, m.fs.StOf());
      ok, r := m.WriteAlone(inum, b, |a|);
      if ok {
        m.TwoDone(t1, Tx(m.fs.logged, m.fs.StOf()));
      }
    }
  }

  lemma FromEmpty(a: seq<byte>, b: seq<byte>)
    ensures Overwritten([], 0, a) == a && Overwritten(a, |a|, b) == a + b
  {
  }

  lemma GoodSize(sb: Sb, st: St)
    requires Good(sb, st)
    ensures |st.store| == sb.size
  {
  }

  /** A new cache's buffers are in nobody's use. */
  lemma Unused(bc: Bcache)
    requires bc.Valid() && forall i :: 0 <= i < NBUF ==> bc.buf[i].refcnt == 0
    ensures bc.HeldOnly({}, {})
  {
  }
}
