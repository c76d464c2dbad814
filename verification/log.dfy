/** log.c over the buffer cache: the methods perform exactly the write lists of
    Recovery and the steps of Admission. */
module Log {
  import opened Blocks
  import opened Params
  import opened Bio
  import opened Recovery
  import A = Admission

  /** The set of a list's elements. */
  ghost function Elems(bs: seq<nat>): set<nat> {
    set i | 0 <= i < |bs| :: bs[i]
  }

  lemma ElemsSnoc(bs: seq<nat>, b: nat)
    ensures Elems(bs + [b]) == Elems(bs) + {b}
    ensures b in bs ==> Elems(bs) + {b} == Elems(bs)
  {
    var cs := bs + [b];
    assert cs[|bs|] == b;
    forall x | x in Elems(bs) ensures x in Elems(cs) {
      var i :| 0 <= i < |bs| && bs[i] == x;
      assert cs[i] == x;
    }
  }

  lemma {:induction false} ElemsCount(bs: seq<nat>)
    requires forall i, j :: 0 <= i < j < |bs| ==> bs[i] != bs[j]
    ensures |Elems(bs)| == |bs|
    decreases |bs|
  {
    if bs == [] {
      assert Elems(bs) == {};
    } else {
      var n := |bs| - 1;
      ElemsCount(bs[..n]);
      ElemsSnoc(bs[..n], bs[n]);
      assert bs == bs[..n] + [bs[n]] && bs[n] !in Elems(bs[..n]);
    }
  }

  /** Recording a block of s leaves one fewer to come, if it is new. */
  lemma OneRecorded(s: set<nat>, had: seq<nat>, b: nat, budget: nat)
    requires b in s && |s - Elems(had)| <= budget
    ensures b in had ==> Elems(had) == Elems(had) + {b}
    ensures b !in had ==> Elems(had + [b]) == Elems(had) + {b} && |s - Elems(had + [b])| < budget
    ensures Elems(had) + {b} + s == Elems(had) + s
  {
    hide Elems;
    ElemsIff(had, b);
    ElemsSnoc(had, b);
    if b !in had {
      assert s - Elems(had + [b]) == (s - Elems(had)) - {b};
    }
  }

  lemma ElemsIff(bs: seq<nat>, b: nat)
    ensures b in Elems(bs) <==> b in bs
  {
  }

  lemma InElems(bs: seq<nat>)
    ensures forall i :: 0 <= i < |bs| ==> bs[i] in Elems(bs)
  {
  }

  lemma ElemsTail(bs: seq<nat>, i: nat)
    requires i < |bs| && forall j, k :: 0 <= j < k < |bs| ==> bs[j] != bs[k]
    ensures bs[i] in Elems(bs[i..])
    ensures Elems(bs[i..]) - {bs[i]} == Elems(bs[i + 1..])
  {
    assert bs[i..][0] == bs[i];
    forall x | x in Elems(bs[i..]) - {bs[i]} ensures x in Elems(bs[i + 1..]) {
      var j :| 0 <= j < |bs[i..]| && bs[i..][j] == x;
      assert bs[i + 1..][j - 1] == x;
    }
    forall x | x in Elems(bs[i + 1..]) ensures x in Elems(bs[i..]) - {bs[i]} {
      var j :| 0 <= j < |bs[i + 1..]| && bs[i + 1..][j] == x;
      assert bs[i..][j + 1] == x && bs[i + 1 + j] == x;
    }
  }

  /** What install_trans still has pinned before round t: in a commit the blocks
      not yet installed, in a recovery nothing. */
  ghost predicate PinLeft(pin: map<nat, nat>, bs: seq<nat>, t: nat) {
    t <= |bs| && (pin == map[] || pin.Keys == Elems(bs[t..]))
  }

  ghost predicate OffLog(l: Layout, pin: map<nat, nat>) {
    forall b :: b in pin ==> !(l.start <= b < l.start + l.size)
  }

  lemma OffLogStep(l: Layout, pin: map<nat, nat>, b: nat)
    requires OffLog(l, pin)
    ensures OffLog(l, pin - {b})
    ensures forall i :: l.start <= i < l.start + l.size ==> i !in pin
  {
  }

  lemma PinStep(pin: map<nat, nat>, bs: seq<nat>, t: nat)
    requires PinLeft(pin, bs, t) && t < |bs|
    requires exists l, d :: GoodBlocks(l, d, bs)
    ensures var pin' := pin - {bs[t]};
            PinLeft(pin', bs, t + 1) && |pin'| <= |pin|
    ensures (pin == map[] && |pin| == 0) || bs[t] in pin
  {
    ElemsTail(bs, t);
    assert (pin - {bs[t]}).Keys == pin.Keys - {bs[t]};
    SubsetSize((pin - {bs[t]}).Keys, pin.Keys);
  }

  lemma PinEnds(pin: map<nat, nat>, bs: seq<nat>)
    ensures PinLeft(pin, bs, |bs|) ==> pin == map[]
    ensures pin == map[] || pin.Keys == Elems(bs) ==> PinLeft(pin, bs, 0)
  {
    assert bs[0..] == bs;
    assert pin.Keys == {} ==> pin == map[];
  }

  lemma FourParts(was: seq<Write>, ws: seq<Write>, head: Write, iw: seq<Write>, last: Write)
    ensures was + ws + [head] + iw + [last] == was + (ws + [head] + iw + [last])
  {
  }

  class Logger {
    const bc: Bcache
    const block: array<nat>     // lh.block
    var start: nat
    var size: nat
    var n: nat                  // lh.n
    var outstanding: nat
    var committing: bool
    ghost var rem: seq<nat>     // unused budget of each outstanding operation
    ghost var boot: nat         // how many disk writes initlog had done when it ended
    ghost var txs: seq<Tx>      // the commits since then

    function Lay(): Layout
      reads this`start, this`size
    {
      Layout(start, size)
    }

    ghost function Abs(): A.State
      reads this, block
      requires n <= block.Length
    {
      A.State(size, block[..n], rem, committing)
    }

    /** The cache is sound, the log lies on the disk, the recorded blocks are
        distinct home blocks. */
    ghost predicate Sound()
      reads this, block, bc
    {
      && bc.Valid() && block.Length == LOGSIZE && n <= LOGSIZE
      && Lay().Fits(bc.disk)
      && (n == 0 || GoodBlocks(Lay(), bc.disk, block[..n]))
    }

    /** Between operations: the pinned blocks are the recorded ones and the
        on-disk log is empty. */
    ghost predicate Valid()
      reads this, block, bc
      ensures Valid() ==> n <= LOGSIZE == block.Length
    {
      && Sound() && A.Inv(Abs()) && outstanding == |rem|
      && bc.pin.Keys == Elems(block[..n])
      && HeadN(bc.disk[start]) == 0
    }

    /** The disk when initlog had ended. */
    ghost function BootDisk(): Disk
      reads this`boot, bc`disk0, bc`writes
    {
      if boot <= |bc.writes| then ApplyWrites(bc.disk0, bc.writes[..boot]) else []
    }

    /** Since boot the disk has seen exactly the writes of the commits. */
    ghost predicate Recorded()
      reads this`start, this`size, this`boot, this`txs, bc`disk0, bc`writes
    {
      && boot <= |bc.writes| && Lay().Fits(BootDisk()) && HeadN(BootDisk()[start]) == 0
      && GoodTxs(Lay(), BootDisk(), txs) && bc.writes[boot..] == RunWrites(Lay(), BootDisk(), txs)
    }

    /** initlog on a freshly initialised cache; the arguments are the superblock's
        logstart and nlog.  Recovery runs before anything else. */
    constructor (bc: Bcache, logstart: nat, nlog: nat)
      requires bc.Valid() && bc.HeldOnly({}, {}) && bc.pin == map[]
      requires GoodHead(Layout(logstart, nlog), bc.disk)
      modifies bc
      ensures Valid() && bc == this.bc && fresh(block) && Abs() == A.Init(nlog) && start == logstart
      ensures bc.HeldOnly({}, {}) && bc.disk0 == old(bc.disk0) && boot == |bc.writes|
      ensures bc.writes == old(bc.writes) + RecoverWrites(Layout(logstart, nlog), old(bc.disk))
      ensures bc.disk == Recovered(Layout(logstart, nlog), old(bc.disk)) && bc.current == bc.disk
      ensures Recorded() && txs == [] && BootDisk() == bc.disk
    {
      hide Bcache.HeldOnly, GoodHead, Recovered, RecoverWrites, HeadN, ApplyWrites, Lru, Keys, Pins, Contents;
      this.bc, block := bc, new nat[LOGSIZE];
      start, size, n, outstanding, committing, rem := logstart, nlog, 0, 0, false, [];
      boot, txs := 0, [];
      new;
      RecoverFromLog();
      StartsEmpty();
      boot := |bc.writes|;
      assert bc.writes[..boot] == bc.writes && bc.writes[boot..] == [];
    }

    lemma StartsEmpty()
      requires n == 0 && rem == [] && !committing && block.Length == LOGSIZE
      ensures Abs() == A.Init(size) && A.Inv(Abs()) && Elems(block[..n]) == {}
    {
    }

    method RecoverFromLog()
      requires bc.Valid() && bc.HeldOnly({}, {}) && bc.pin == map[] && block.Length == LOGSIZE
      requires GoodHead(Lay(), bc.disk)
      modifies this`n, block, bc`buf, bc`links, bc`order, bc`disk, bc`current, bc`pin, bc`writes
      ensures Sound() && bc.HeldOnly({}, {}) && bc.pin == map[] && n == 0
      ensures bc.writes == old(bc.writes) + RecoverWrites(Lay(), old(bc.disk))
      ensures bc.disk == Recovered(Lay(), old(bc.disk)) && bc.current == bc.disk
      ensures HeadN(bc.disk[start]) == 0
    {
      hide Bcache.Valid, Bcache.HeldOnly, GoodBlocks, HeadBlocks, Recovered, RecoverWrites, EncodeHead, HeadN,
           InstallWrites, ApplyWrites;
      RecoverPhases(Lay(), bc.disk);
      ghost var d := bc.disk;
      assert bc.current == d;
      ReadHead();
      InstallTrans(HeadBlocks(d[start]), {});
      n := 0;
      assert block[..n] == [];
      ProgressDone(InstallWrites(Lay(), HeadBlocks(d[start]), d), d, d);
      WriteHead({});
    }

    lemma ProgressDone(ws: seq<Write>, d: Disk, cur: Disk)
      requires Progress(ws, |ws|, d, cur)
      ensures bc.disk == ApplyWrites(d, ws) && bc.current == ApplyWrites(cur, ws)
    {
      assert ws[..|ws|] == ws;
    }

    /** The copy loop of read_head. */
    method DecodeHead(lh: Block)
      requires block.Length == LOGSIZE && HeadN(lh) <= LOGSIZE
      modifies this`n, block
      ensures n <= LOGSIZE && block[..n] == HeadBlocks(lh)
    {
      n := Word(lh, 0);
      var i := 0;
      while i < n
        invariant 0 <= i <= n == HeadN(lh) <= LOGSIZE
        invariant forall j :: 0 <= j < i ==> block[j] == Word(lh, 1 + j)
        modifies block
      {
        block[i] := Word(lh, 1 + i);
        i := i + 1;
      }
    }

    method ReadHead()
      requires bc.Valid() && bc.HeldOnly({}, {}) && bc.pin == map[] && block.Length == LOGSIZE
      requires GoodHead(Lay(), bc.disk)
      modifies this`n, block, bc`buf, bc`links, bc`order
      ensures bc.Valid() && bc.HeldOnly({}, {})
      ensures n <= LOGSIZE && block[..n] == HeadBlocks(bc.disk[start])
    {
      hide Bcache.Valid, Word, GoodBlocks, HeadBlocks;
      var buf := bc.Bread(start, {}, {});
      DecodeHead(bc.buf[buf].data);
      bc.Brelse(buf);
    }

    /** The copy loop of write_head, on the header block's bytes. */
    method EncodeHeadLoop(h: Block) returns (hb: Block)
      requires block.Length == LOGSIZE && n <= LOGSIZE && forall i :: 0 <= i < n ==> block[..n][i] < TWO32
      ensures hb == EncodeHead(h, block[..n])
    {
      hide SetWord;
      hb := SetWord(h, 0, n);
      var i := 0;
      assert block[..0] == [];
      while i < n
        invariant 0 <= i <= n && hb == EncodeEntries(SetWord(h, 0, n), block[..i])
      {
        assert block[..i + 1][..i] == block[..i];
        assert block[..n][i] == block[i];
        hb := SetWord(hb, 1 + i, block[i]);
        i := i + 1;
      }
    }

    /** write_head: one disk write, of the header block with the first n entries replaced. */
    method WriteHead(ghost others: set<nat>)
      requires Sound() && bc.HeldOnly({}, others) && |bc.pin| + |others| < NBUF && start !in bc.pin
      requires bc.Clear(others, start)
      modifies bc`buf, bc`links, bc`order, bc`disk, bc`current, bc`pin, bc`writes
      ensures bc.Valid() && bc.HeldOnly({}, others) && bc.pin == old(bc.pin) && bc.Kept(others, old(bc.buf))
      ensures forall b: nat :: old(bc.Clear(others, b)) ==> bc.Clear(others, b)
      ensures var w := Write(start, EncodeHead(old(bc.disk)[start], block[..n]));
              && bc.writes == old(bc.writes) + [w]
              && bc.disk == WriteTo(old(bc.disk), w) && bc.current == WriteTo(old(bc.current), w)
    {
      hide Bcache.Valid, Bcache.HeldOnly, EncodeHead, WriteTo;
      var buf := bc.Bread(start, {}, others);
      assert forall i :: 0 <= i < n ==> Lay().Home(bc.disk, block[..n][i]);
      var hb := EncodeHeadLoop(bc.buf[buf].data);
      bc.Rewrite(buf, hb, others);
    }

    /** The other processes use no buffer of a log block or of a recorded one. */
    ghost predicate Apart(others: set<nat>, bs: seq<nat>)
      reads this, bc
    {
      forall b: nat :: start <= b < start + size || b in bs ==> bc.Clear(others, b)
    }

    /** The loop body shared by write_log (which reads dst first) and
        install_trans (which reads src first): bread both, copy, bwrite, brelse both. */
    method CopyBlock(src: nat, dst: nat, dstFirst: bool, ghost others: set<nat>)
      requires bc.Valid() && bc.HeldOnly({}, others) && |bc.pin| + |others| < NBUF && src != dst
      requires bc.Clear(others, src) && bc.Clear(others, dst)
      requires src < |bc.disk| && dst < |bc.disk|
      requires if dstFirst then src in bc.pin else dst in bc.pin || |bc.pin| + |others| + 1 < NBUF
      modifies bc`buf, bc`links, bc`order, bc`disk, bc`current, bc`pin, bc`writes
      ensures bc.Valid() && bc.HeldOnly({}, others) && bc.pin == old(bc.pin) - {dst} && bc.Kept(others, old(bc.buf))
      ensures forall b: nat :: old(bc.Clear(others, b)) ==> bc.Clear(others, b)
      ensures dst !in old(bc.pin) ==> bc.pin == old(bc.pin)
      ensures var w := Write(dst, old(bc.current)[src]);
              && bc.writes == old(bc.writes) + [w]
              && bc.disk == WriteTo(old(bc.disk), w) && bc.current == WriteTo(old(bc.current), w)
    {
      hide Bcache.Valid, Bcache.HeldOnly, WriteTo;
      var s, d;
      if dstFirst {
        d, s := bc.BreadTwo(dst, src, others);
      } else {
        s, d := bc.BreadTwo(src, dst, others);
      }
      assert {d, s} == {s, d};
      bc.CopyOut(s, d, others);
      bc.ReleaseBoth(s, d, others);
    }

    /** How far a list of writes ws, begun on disk d with contents cur, has come. */
    ghost predicate Progress(ws: seq<Write>, t: nat, d: Disk, cur: Disk)
      reads bc
    {
      t <= |ws| && bc.disk == ApplyWrites(d, ws[..t]) && bc.current == ApplyWrites(cur, ws[..t])
    }

    lemma ProgressEnds(ws: seq<Write>)
      ensures Progress(ws, 0, bc.disk, bc.current)
      ensures forall d, cur :: Progress(ws, |ws|, d, cur) ==>
                bc.disk == ApplyWrites(d, ws) && bc.current == ApplyWrites(cur, ws)
      ensures ws[..0] == [] && ws[..|ws|] == ws
    {
      assert ws[..|ws|] == ws;
    }

    lemma SoundFacts()
      requires Sound() && (bc.pin.Keys == Elems(block[..n]) || bc.pin == map[])
      ensures n < size && start + n < |bc.disk|
      ensures n > 0 ==> GoodBlocks(Lay(), bc.disk, block[..n])
      ensures OffLog(Lay(), bc.pin)
      ensures forall b :: start <= b < start + size ==> b !in bc.pin && bc.current[b] == bc.disk[b]
      ensures forall i :: 0 <= i < n ==> block[..n][i] < |bc.current|
      ensures bc.pin.Keys == Elems(block[..n]) ==> forall i :: 0 <= i < n ==> block[..n][i] in bc.pin
    {
      InElems(block[..n]);
    }

    method WriteLogRound(tail: nat, ghost bs: seq<nat>, ghost d: Disk, ghost cur: Disk, ghost others: set<nat>)
      requires bc.Valid() && bc.HeldOnly({}, others) && |bc.pin| + |others| < NBUF && Apart(others, bs)
      requires Lay().Fits(d) && GoodBlocks(Lay(), d, bs) && |cur| == |d| && tail < |bs| <= block.Length
      requires block[tail] == bs[tail] && bs[tail] in bc.pin && start + tail + 1 !in bc.pin && tail + 1 < size
      requires Progress(LogWrites(Lay(), bs, cur), tail, d, cur)
      modifies bc`buf, bc`links, bc`order, bc`disk, bc`current, bc`pin, bc`writes
      ensures bc.Valid() && bc.HeldOnly({}, others) && bc.pin == old(bc.pin)
      ensures Apart(others, bs) && bc.Kept(others, old(bc.buf))
      ensures Progress(LogWrites(Lay(), bs, cur), tail + 1, d, cur)
      ensures bc.writes == old(bc.writes) + [LogWrites(Lay(), bs, cur)[tail]]
    {
      hide Bcache.Valid, Bcache.HeldOnly, ApplyWrites, WriteTo, GoodBlocks, LogWrites;
      LogRound(Lay(), bs, d, cur, tail);
      CopyBlock(block[tail], start + tail + 1, true, others);
    }

    /** write_log: the current contents of each recorded block into the log area. */
    method WriteLog(ghost bs: seq<nat>, ghost others: set<nat>)
      requires Sound() && bc.HeldOnly({}, others) && |bc.pin| + |others| < NBUF
      requires bs == block[..n] && bc.pin.Keys == Elems(bs) && Apart(others, bs)
      modifies bc`buf, bc`links, bc`order, bc`disk, bc`current, bc`pin, bc`writes
      ensures bc.Valid() && bc.HeldOnly({}, others) && bc.pin == old(bc.pin)
      ensures Apart(others, bs) && bc.Kept(others, old(bc.buf))
      ensures bc.writes == old(bc.writes) + LogWrites(Lay(), bs, old(bc.current))
      ensures Progress(LogWrites(Lay(), bs, old(bc.current)), n, old(bc.disk), old(bc.current))
    {
      hide Bcache.Valid, Bcache.HeldOnly, ApplyWrites, GoodBlocks, LogWrites, InstallWrites, Elems, Progress;
      ghost var d, cur := bc.disk, bc.current;
      SoundFacts();
      ghost var ws := LogWrites(Lay(), bs, cur);
      ProgressEnds(ws);
      var tail := 0;
      while tail < n
        invariant 0 <= tail <= n && bc.Valid() && bc.HeldOnly({}, others) && bc.pin == old(bc.pin)
        invariant Apart(others, bs) && bc.Kept(others, old(bc.buf))
        invariant bc.writes == old(bc.writes) + ws[..tail]
        invariant Progress(ws, tail, d, cur)
      {
        WriteLogRound(tail, bs, d, cur, others);
        tail := tail + 1;
      }
    }

    method InstallTransRound(tail: nat, ghost bs: seq<nat>, ghost d: Disk, ghost cur: Disk, ghost others: set<nat>)
      requires bc.Valid() && bc.HeldOnly({}, others) && |bc.pin| + |others| < NBUF && Apart(others, bs)
      requires PinLeft(bc.pin, bs, tail) && OffLog(Lay(), bc.pin) && |others| + 1 < NBUF
      requires Lay().Fits(d) && GoodBlocks(Lay(), d, bs) && |cur| == |d| && tail < |bs| <= block.Length
      requires block[tail] == bs[tail] && tail + 1 < size
      requires cur[start + tail + 1] == d[start + tail + 1]
      requires Progress(InstallWrites(Lay(), bs, d), tail, d, cur)
      modifies bc`buf, bc`links, bc`order, bc`disk, bc`current, bc`pin, bc`writes
      ensures bc.Valid() && bc.HeldOnly({}, others) && |bc.pin| + |others| < NBUF
      ensures PinLeft(bc.pin, bs, tail + 1) && OffLog(Lay(), bc.pin)
      ensures Apart(others, bs) && bc.Kept(others, old(bc.buf))
      ensures Progress(InstallWrites(Lay(), bs, d), tail + 1, d, cur)
      ensures bc.writes == old(bc.writes) + [InstallWrites(Lay(), bs, d)[tail]]
    {
      hide Bcache.Valid, Bcache.HeldOnly, ApplyWrites, WriteTo, GoodBlocks, InstallWrites, PinLeft, OffLog;
      InstallRound(Lay(), bs, d, cur, tail);
      PinStep(bc.pin, bs, tail);
      OffLogStep(Lay(), bc.pin, block[tail]);
      CopyBlock(start + tail + 1, block[tail], false, others);
    }

    /** install_trans: log area blocks to their homes, which unpins them. */
    method InstallTrans(ghost bs: seq<nat>, ghost others: set<nat>)
      requires Sound() && bc.HeldOnly({}, others) && |bc.pin| + |others| < NBUF
      requires bs == block[..n] && (bc.pin.Keys == Elems(bs) || bc.pin == map[]) && Apart(others, bs)
      requires |others| + 1 < NBUF
      modifies bc`buf, bc`links, bc`order, bc`disk, bc`current, bc`pin, bc`writes
      ensures bc.Valid() && bc.HeldOnly({}, others) && bc.pin == map[]
      ensures Apart(others, bs) && bc.Kept(others, old(bc.buf))
      ensures bc.writes == old(bc.writes) + InstallWrites(Lay(), bs, old(bc.disk))
      ensures Progress(InstallWrites(Lay(), bs, old(bc.disk)), n, old(bc.disk), old(bc.current))
    {
      hide Bcache.Valid, Bcache.HeldOnly, ApplyWrites, GoodBlocks, LogWrites, InstallWrites, PinLeft, Elems, Progress,
           OffLog;
      ghost var d, cur := bc.disk, bc.current;
      SoundFacts();
      ghost var ws := InstallWrites(Lay(), bs, d);
      ProgressEnds(ws);
      PinEnds(bc.pin, bs);
      var tail := 0;
      while tail < n
        invariant 0 <= tail <= n && bc.Valid() && bc.HeldOnly({}, others) && |bc.pin| + |others| < NBUF
        invariant Apart(others, bs) && bc.Kept(others, old(bc.buf))
        invariant PinLeft(bc.pin, bs, tail) && OffLog(Lay(), bc.pin)
        invariant bc.writes == old(bc.writes) + ws[..tail]
        invariant Progress(ws, tail, d, cur)
      {
        InstallTransRound(tail, bs, d, cur, others);
        tail := tail + 1;
      }
      PinEnds(bc.pin, bs);
    }

    // ---------- the operations ----------

    /** One turn of begin_op's loop: admitted, or the caller sleeps. */
    method BeginOp() returns (admitted: bool)
      requires Valid()
      modifies this`outstanding, this`rem
      ensures Valid()
      ensures admitted <==> A.Next(old(Abs()), A.Begin).To?
      ensures admitted ==> Abs() == A.Next(old(Abs()), A.Begin).s
      ensures !admitted ==> Abs() == old(Abs()) && A.Next(old(Abs()), A.Begin).Waits?
    {
      hide Bcache.Valid, Elems, GoodBlocks, A.Inv;
      if committing {
        return false;
      } else if n + (outstanding + 1) * MAXOPBLOCKS > LOGSIZE {
        return false;
      }
      A.StepKeepsInv(Abs(), A.Begin);
      outstanding := outstanding + 1;
      rem := rem + [MAXOPBLOCKS];
      return true;
    }

    /** end_op up to the release of log.lock: the last operation out commits. */
    method EndOp(ghost op: nat) returns (doCommit: bool)
      requires Valid() && op < |rem|
      modifies this`outstanding, this`rem, this`committing
      ensures Valid() && A.Next(old(Abs()), A.End(op)) == A.To(Abs())
      ensures doCommit <==> outstanding == 0
      ensures doCommit <==> committing
    {
      hide Bcache.Valid, Elems, GoodBlocks;
      A.StepKeepsInv(Abs(), A.End(op));
      outstanding := outstanding - 1;
      rem := rem[..op] + rem[op + 1..];
      assert !committing;
      if outstanding == 0 {
        committing := true;
        return true;
      }
      return false;
    }

    /** log_write by operation op, on a buffer it holds locked: the block is
        recorded once and pinned, and the disk is not touched. */
    method LogWrite(r: nat, ghost op: nat) returns (ok: bool)
      requires Valid() && r < NBUF && bc.buf[r].locked && bc.buf[r].valid
      requires Lay().Home(bc.disk, bc.buf[r].blockno)
      requires A.Disciplined(Abs(), A.LogWrite(op, bc.buf[r].blockno))
      modifies this`n, this`rem, block, bc`buf, bc`pin, bc`current
      ensures ok <==> !A.Next(old(Abs()), A.LogWrite(op, old(bc.buf[r].blockno))).Panics?
      ensures ok ==> Valid() && Abs() == A.Next(old(Abs()), A.LogWrite(op, old(bc.buf[r].blockno))).s
      ensures ok ==> bc.current == old(bc.current)[old(bc.buf[r].blockno) := old(bc.buf[r].data)]
      ensures ok ==> bc.buf[r] == old(bc.buf[r]).(dirty := true) && bc.OnlySlot(r)
    {
      hide Bcache.Valid, Elems, A.Inv;
      var b := bc.buf[r].blockno;
      if n >= LOGSIZE || n >= size - 1 {
        return false;
      }
      if outstanding < 1 {
        return false;
      }
      var i := FindLogged(b);
      ElemsSnoc(block[..n], b);
      A.StepKeepsInv(Abs(), A.LogWrite(op, b));
      Record(i, b, op);
      bc.Pin(r);
      return true;
    }

    /** The two assignments after the loop. */
    method Record(i: nat, b: nat, ghost op: nat)
      requires n <= block.Length && i <= n < block.Length && (i == n <==> b !in block[..n]) && (i < n ==> block[i] == b)
      requires op < |rem| && (b in block[..n] || rem[op] > 0)
      modifies this`n, this`rem, block
      ensures n <= block.Length
      ensures block[..n] == old(if b in block[..n] then block[..n] else block[..n] + [b])
      ensures rem == old(if b in block[..n] then rem else rem[op := rem[op] - 1])
    {
      block[i] := b;
      if i == n {
        n := n + 1;
        rem := rem[op := rem[op] - 1];
      }
    }

    /** The absorption loop: the entry recording b, or n. */
    method FindLogged(b: nat) returns (i: nat)
      requires n <= block.Length
      ensures i <= n && (i == n <==> b !in block[..n]) && (i < n ==> block[i] == b)
    {
      i := 0;
      while i < n
        invariant 0 <= i <= n && b !in block[..i]
      {
        if block[i] == b {
          assert block[..n][i] == b;
          return;
        }
        i := i + 1;
      }
    }

    lemma SoundCanCommit(bs: seq<nat>)
      requires Valid() && bs == block[..n]
      ensures CanCommit(Lay(), bs, bc.disk, bc.current)
      ensures SameHome(Lay(), Overlay(bc.disk, bs, bc.current), bc.current)
      ensures n == 0 ==> bc.pin == map[] && CommitWrites(Lay(), bs, bc.disk, bc.current) == []
      ensures bc.pin == map[] ==> bc.disk == bc.current
    {
      InElems(bs);
      forall b: nat | Lay().Home(bc.disk, b) ensures Overlay(bc.disk, bs, bc.current)[b] == bc.current[b] {
        if b !in bs {
          assert b in bc.pin ==> b in Elems(bs);
        }
      }
    }

    /** write_log and write_head: up to the commit point. */
    method CommitRecord(ghost bs: seq<nat>, ghost others: set<nat>)
      requires Sound() && bc.HeldOnly({}, others) && |bc.pin| + |others| < NBUF
      requires n > 0 && bs == block[..n] && bc.pin.Keys == Elems(bs)
      requires CanCommit(Lay(), bs, bc.disk, bc.current) && Apart(others, bs)
      modifies bc`buf, bc`links, bc`order, bc`disk, bc`current, bc`pin, bc`writes
      ensures bc.Valid() && bc.HeldOnly({}, others) && bc.pin == old(bc.pin)
      ensures Apart(others, bs) && bc.Kept(others, old(bc.buf))
      ensures var ws, d, cur := old(LogWrites(Lay(), bs, bc.current)), old(bc.disk), old(bc.current);
              var w := Write(start, EncodeHead(ApplyWrites(d, ws)[start], bs));
              && bc.writes == old(bc.writes) + ws + [w]
              && bc.disk == WriteTo(ApplyWrites(d, ws), w) && bc.current == WriteTo(ApplyWrites(cur, ws), w)
    {
      hide Bcache.Valid, Bcache.HeldOnly, GoodBlocks, LogWrites, ApplyWrites, WriteTo, EncodeHead, Elems, Progress;
      ghost var l, d, cur := Lay(), bc.disk, bc.current;
      SoundFacts();
      GoodBlocksLen(l, d, ApplyWrites(d, LogWrites(l, bs, cur)), bs);
      WriteLog(bs, others);
      ProgressDone(LogWrites(l, bs, cur), d, cur);
      WriteHead(others);
    }

    /** install_trans and the write_head that empties the log. */
    method CommitInstall(ghost bs: seq<nat>, ghost others: set<nat>)
      requires Sound() && bc.HeldOnly({}, others) && |bc.pin| + |others| < NBUF && |others| + 1 < NBUF
      requires bs == block[..n] && bc.pin.Keys == Elems(bs) && Apart(others, bs)
      modifies this`n, bc`buf, bc`links, bc`order, bc`disk, bc`current, bc`pin, bc`writes
      ensures bc.Valid() && bc.HeldOnly({}, others) && n == 0 && bc.pin == map[] && bc.Kept(others, old(bc.buf))
      ensures start + |bs| < |old(bc.disk)|
      ensures var iw := InstallWrites(old(Lay()), bs, old(bc.disk));
              var d := ApplyWrites(old(bc.disk), iw);
              var w := Write(start, EncodeHead(d[start], []));
              bc.writes == old(bc.writes) + iw + [w] && bc.disk == WriteTo(d, w)
    {
      hide Bcache.Valid, Bcache.HeldOnly, GoodBlocks, InstallWrites, ApplyWrites, WriteTo, EncodeHead, Elems, Progress,
           Bcache.Clear;
      ghost var d2, cur2 := bc.disk, bc.current;
      SoundFacts();
      InstallTrans(bs, others);
      ProgressDone(InstallWrites(Lay(), bs, d2), d2, cur2);
      n := 0;
      assert block[..n] == [];
      WriteHead(others);
    }

    /** The four phases of commit. */
    method CommitBlocks(ghost bs: seq<nat>, ghost others: set<nat>)
      requires Sound() && bc.HeldOnly({}, others) && |bc.pin| + |others| < NBUF
      requires n > 0 && bs == block[..n] && bc.pin.Keys == Elems(bs)
      requires CanCommit(Lay(), bs, bc.disk, bc.current) && Apart(others, bs)
      modifies this`n, bc`buf, bc`links, bc`order, bc`disk, bc`current, bc`pin, bc`writes
      ensures Sound() && bc.HeldOnly({}, others) && n == 0 && bc.pin == map[] && bc.Kept(others, old(bc.buf))
      ensures |bc.disk| == |old(bc.disk)| && HeadN(bc.disk[start]) == 0
      ensures bc.writes == old(bc.writes) + old(CommitWrites(Lay(), bs, bc.disk, bc.current))
      ensures SameHome(Lay(), bc.disk, old(Overlay(bc.disk, bs, bc.current)))
    {
      hide Bcache.Valid, Bcache.HeldOnly, GoodBlocks, LogWrites, InstallWrites, CommitWrites,
           ApplyWrites, WriteTo, EncodeHead, HeadN, Elems, SameHome, Word, Bcache.Clear, Apart;
      ghost var l, d, cur, was := Lay(), bc.disk, bc.current, bc.writes;
      CommitPhases(l, bs, d, cur);
      SoundFacts();
      assert bs[0] in bc.pin && |bc.pin| > 0;
      CommitRecord(bs, others);
      ghost var ws, d2 := LogWrites(l, bs, cur), bc.disk;
      CommitInstall(bs, others);
      ghost var iw := InstallWrites(l, bs, d2);
      FourParts(was, ws, Write(start, EncodeHead(ApplyWrites(d, ws)[start], bs)), iw,
                Write(start, EncodeHead(ApplyWrites(d2, iw)[start], [])));
    }

    /** What commit's writes add to the record. */
    lemma OneMoreCommit(bs: seq<nat>)
      requires Recorded() && bc.Valid() && CanCommit(Lay(), bs, bc.disk, bc.current)
      ensures boot <= |bc.writes|
      ensures var ws := bc.writes + CommitWrites(Lay(), bs, bc.disk, bc.current);
              var all := txs + [Tx(bs, bc.current)];
              && ws[..boot] == bc.writes[..boot] && Lay().Fits(BootDisk()) && HeadN(BootDisk()[start]) == 0
              && GoodTxs(Lay(), BootDisk(), all) && ws[boot..] == RunWrites(Lay(), BootDisk(), all)
    {
      hide CommitWrites, ApplyWrites, GoodBlocks, Lru, Keys, Pins, Contents;
      var all := txs + [Tx(bs, bc.current)];
      assert bc.writes == bc.writes[..boot] + bc.writes[boot..];
      ApplyConcat(bc.disk0, bc.writes[..boot], bc.writes[boot..]);
      GoodBlocksLen(Lay(), bc.disk, BootDisk(), bs);
      RunOneMore(Lay(), BootDisk(), txs, Tx(bs, bc.current));
    }

    /** A crash between any two disk writes since boot, and any crashed recoveries: the
        next recovery yields exactly the commits whose header write was done. */
    lemma CrashedSinceBoot(h: Disk, k: nat, ks: seq<nat>)
      requires Recorded() && SameHome(Lay(), BootDisk(), h) && boot + k <= |bc.writes|
      ensures GoodTxs(Lay(), BootDisk(), txs) && |h| == |BootDisk()|
      ensures var e := CrashedRecoveries(Lay(), ApplyWrites(bc.disk0, bc.writes[..boot + k]), ks);
              GoodHead(Lay(), e) && SameHome(Lay(), Recovered(Lay(), e), Durable(h, txs, k))
    {
      hide ApplyWrites, RunWrites, CommitWrites;
      assert bc.writes[..boot + k] == bc.writes[..boot] + bc.writes[boot..][..k];
      ApplyConcat(bc.disk0, bc.writes[..boot], bc.writes[boot..][..k]);
      CrashInRun(Lay(), BootDisk(), h, txs, k, ks);
    }

    /** commit and end_op's last region, while other processes use other buffers and
        one buffer at least is neither pinned nor in use.  "bget: no buffers" is then
        unreachable throughout; the disk writes are exactly CommitWrites, the disk ends
        up with the cache's contents, and the other buffers are untouched. */
    method Commit(ghost others: set<nat>)
      requires Valid() && committing && bc.HeldOnly({}, others) && |bc.pin| + |others| < NBUF
      requires Apart(others, block[..n]) && Recorded()
      modifies this`n, this`committing, this`txs, bc`buf, bc`links, bc`order, bc`disk, bc`current, bc`pin, bc`writes
      ensures Valid() && A.Next(old(Abs()), A.Committed) == A.To(Abs())
      ensures old(CanCommit(Lay(), block[..n], bc.disk, bc.current))
      ensures bc.writes == old(bc.writes) + old(CommitWrites(Lay(), block[..n], bc.disk, bc.current))
      ensures bc.pin == map[] && bc.HeldOnly({}, others) && bc.Kept(others, old(bc.buf))
      ensures SameHome(Lay(), bc.disk, old(bc.current))
      ensures Recorded() && BootDisk() == old(BootDisk()) && txs == old(txs) + [Tx(old(block[..n]), old(bc.current))]
    {
      hide Bcache.Valid, Bcache.HeldOnly, GoodBlocks, CommitWrites, HeadN, Elems, RunWrites, ApplyWrites;
      ghost var bs, d, cur, was := block[..n], bc.disk, bc.current, bc.writes;
      SoundCanCommit(bs);
      OneMoreCommit(bs);
      if n > 0 {
        CommitBlocks(bs, others);
      }
      txs := txs + [Tx(bs, cur)];
      committing := false;
      StartsEmpty();
    }

    lemma PinnedCount()
      requires Valid()
      ensures |bc.pin| == n
    {
      ElemsCount(block[..n]);
      assert |bc.pin| == |bc.pin.Keys|;
    }

    lemma ElemsSize()
      requires Valid()
      ensures |Elems(block[..n])| == n
    {
      ElemsCount(block[..n]);
    }

    /** write_log's first bread finds a buffer exactly when fewer than NBUF blocks
        are recorded.  LOGSIZE == NBUF, so a log with room for a full transaction
        (size > LOGSIZE) lets one through that commit cannot buffer. */
    lemma CommitFindsBufferIff()
      requires Valid() && bc.HeldOnly({}, {})
      ensures n < NBUF <==> Cached(bc.buf, DISKDEV, start + 1) || SomeRecyclable(bc.buf)
    {
      hide Bcache.Valid;
      PinnedCount();
      if n < NBUF {
        bc.Available({}, {});
      } else {
        SoundFacts();
        bc.AllPinned(start + 1);
      }
    }

    /** bread, a change, log_write, brelse of one block, while other processes use other
        buffers: the admission machine's step, whose panic is the only one. */
    method LogBlock(b: nat, data: Block, ghost op: nat, ghost others: set<nat>) returns (ok: bool)
      requires Valid() && bc.HeldOnly({}, others) && bc.Clear(others, b)
      requires Lay().Home(bc.disk, b) && A.Disciplined(Abs(), A.LogWrite(op, b))
      requires b in bc.pin || |bc.pin| + |others| < NBUF
      modifies this`n, this`rem, block, bc`buf, bc`links, bc`order, bc`pin, bc`current
      ensures ok <==> !A.Next(old(Abs()), A.LogWrite(op, b)).Panics?
      ensures ok ==> Valid() && bc.HeldOnly({}, others) && bc.Kept(others, old(bc.buf))
      ensures ok ==> Abs() == A.Next(old(Abs()), A.LogWrite(op, b)).s && bc.current == old(bc.current)[b := data]
    {
      hide Bcache.Valid, Elems, A.Inv, A.Next, GoodBlocks, HeadN;
      var r := bc.Bread(b, {}, others);
      bc.Fill(r, data);
      ok := LogWrite(r, op);
      if ok {
        bc.Brelse(r);
      }
    }

    /** The same of a new block, by an operation with budget left. */
    method LogOne(b: nat, data: Block, ghost op: nat)
      requires Valid() && bc.HeldOnly({}, {}) && Lay().Home(bc.disk, b) && b !in block[..n]
      requires n < LOGSIZE && n + 1 < size && op < |rem| && rem[op] > 0
      modifies this`n, this`rem, block, bc`buf, bc`links, bc`order, bc`pin, bc`current
      ensures Valid() && bc.HeldOnly({}, {})
      ensures Abs() == old(Abs()).(blocks := old(block[..n]) + [b], rem := old(rem)[op := old(rem)[op] - 1])
    {
      hide Bcache.Valid, Bcache.HeldOnly, Valid, Elems, A.Inv, GoodBlocks, HeadN;
      PinnedCount();
      var ok := LogBlock(b, data, op, {});
    }

    /** How many blocks log_write takes before it panics. */
    function Cap(): int
      reads this`size
    {
      if size - 1 < LOGSIZE then size - 1 else LOGSIZE
    }

    /** A whole operation: bread, a change, log_write and brelse for each write of the
        list, repeated blocks included, of which no more are new than its budget allows,
        while other processes use other buffers and enough are left.  It panics exactly
        when a write of the list finds the log full, and otherwise the cache then holds
        what was written. */
    method LogOp(ws: seq<Write>, ghost op: nat, ghost others: set<nat>) returns (ok: bool)
      requires Valid() && bc.HeldOnly({}, others) && op < |rem|
      requires forall i :: 0 <= i < |ws| ==> Lay().Home(bc.disk, ws[i].block) && bc.Clear(others, ws[i].block)
      requires |Targets(ws) - Elems(block[..n])| <= rem[op]
      requires |Elems(block[..n]) + Targets(ws)| + |others| <= NBUF
      modifies this`n, this`rem, block, bc`buf, bc`links, bc`order, bc`pin, bc`current
      ensures ok <==> forall i :: 0 <= i < |ws| ==> |old(Elems(block[..n])) + Targets(ws[..i])| < Cap()
      ensures ok ==> Valid() && bc.HeldOnly({}, others) && bc.Kept(others, old(bc.buf))
      ensures ok ==> Elems(block[..n]) == old(Elems(block[..n])) + Targets(ws)
      ensures ok ==> bc.current == ApplyWrites(old(bc.current), ws)
      ensures ok ==> |rem| == |old(rem)| && forall j :: 0 <= j < |rem| && j != op ==> rem[j] == old(rem)[j]
    {
      hide Bcache.Valid, Bcache.HeldOnly, A.Inv, A.Sum, GoodBlocks, HeadN, Valid, Elems, Targets, ApplyWrites;
      ghost var was, cur := Elems(block[..n]), bc.current;
      ok := true;
      var i := 0;
      assert ws[..0] == [];
      NoWrites(cur);
      while i < |ws|
        invariant 0 <= i <= |ws| && Valid() && bc.HeldOnly({}, others) && bc.Kept(others, old(bc.buf)) && ok
        invariant size == old(size) && start == old(start) && |bc.disk| == |old(bc.disk)|
        invariant Elems(block[..n]) == was + Targets(ws[..i]) && bc.current == ApplyWrites(cur, ws[..i])
        invariant |rem| == |old(rem)| && forall j :: 0 <= j < |rem| && j != op ==> rem[j] == old(rem)[j]
        invariant |Targets(ws) - Elems(block[..n])| <= rem[op]
        invariant |Elems(block[..n]) + Targets(ws)| + |others| <= NBUF
        invariant forall j :: 0 <= j < i ==> |was + Targets(ws[..j])| < Cap()
      {
        StillClear(others, old(bc.buf), ws[i].block);
        ok := LogTurn(ws, i, op, was, cur, others);
        if !ok {
          return;
        }
        i := i + 1;
      }
      assert ws[..|ws|] == ws;
    }

    lemma StillClear(others: set<nat>, was: seq<Buf>, b: nat)
      requires bc.Kept(others, was) && forall i :: i in others && i < |was| ==> !HasKey(was[i], DISKDEV, b)
      ensures bc.Clear(others, b)
    {
    }

    /** One write of it. */
    method LogTurn(ws: seq<Write>, i: nat, ghost op: nat, ghost was: set<nat>, ghost cur: Disk, ghost others: set<nat>)
      returns (ok: bool)
      requires Valid() && bc.HeldOnly({}, others) && op < |rem| && i < |ws|
      requires Lay().Home(bc.disk, ws[i].block) && bc.Clear(others, ws[i].block)
      requires Elems(block[..n]) == was + Targets(ws[..i]) && bc.current == ApplyWrites(cur, ws[..i])
      requires |Targets(ws) - Elems(block[..n])| <= rem[op]
      requires |Elems(block[..n]) + Targets(ws)| + |others| <= NBUF
      modifies this`n, this`rem, block, bc`buf, bc`links, bc`order, bc`pin, bc`current
      ensures ok <==> |was + Targets(ws[..i])| < Cap()
      ensures ok ==> Valid() && bc.HeldOnly({}, others) && bc.Kept(others, old(bc.buf))
      ensures ok ==> Elems(block[..n]) == was + Targets(ws[..i + 1]) && bc.current == ApplyWrites(cur, ws[..i + 1])
      ensures ok ==> |rem| == |old(rem)| && forall j :: 0 <= j < |rem| && j != op ==> rem[j] == old(rem)[j]
      ensures ok ==> |Targets(ws) - Elems(block[..n])| <= rem[op]
      ensures ok ==> |Elems(block[..n]) + Targets(ws)| + |others| <= NBUF
    {
      hide Bcache.Valid, Bcache.HeldOnly, Valid, GoodBlocks, HeadN, Elems, A.Inv, Targets, ApplyWrites;
      ghost var w, had, budget := ws[i], block[..n], rem[op];
      InTargets(ws, i);
      assert ws[..i + 1] == ws[..i] + [w];
      TargetsSnoc(ws[..i], w);
      ApplyAppend(cur, ws[..i], w);
      BudgetThere(Targets(ws), w.block, op, others);
      ok := LogBlock(ws[i].block, ws[i].data, op, others);
      OneRecorded(Targets(ws), had, w.block, budget);
      assert was + Targets(ws[..i]) + {w.block} == was + Targets(ws[..i + 1]);
    }

    lemma InTargets(ws: seq<Write>, i: nat)
      requires i < |ws|
      ensures ws[i].block in Targets(ws)
    {
    }

    /** A block that is new is within the budget, and the buffers have room for it. */
    lemma BudgetThere(s: set<nat>, b: nat, op: nat, others: set<nat>)
      requires Valid() && op < |rem| && b in s && |s - Elems(block[..n])| <= rem[op]
      requires |Elems(block[..n]) + s| + |others| <= NBUF
      ensures |Elems(block[..n])| == n && A.Disciplined(Abs(), A.LogWrite(op, b)) && |bc.current| == |bc.disk|
      ensures b in bc.pin || |bc.pin| + |others| < NBUF
    {
      PinnedCount();
      InElems(block[..n]);
      ElemsIff(block[..n], b);
      ElemsCount(block[..n]);
      if b !in block[..n] {
        assert b in s - Elems(block[..n]);
        assert Elems(block[..n]) + {b} <= Elems(block[..n]) + s;
        SubsetSize(Elems(block[..n]) + {b}, Elems(block[..n]) + s);
      }
    }

    /** What an operation may still add fits in the buffers. */
    lemma BudgetFits(s: set<nat>, op: nat)
      requires Valid() && op < |rem| && |s - Elems(block[..n])| <= rem[op]
      ensures |Elems(block[..n]) + s| <= LOGSIZE
    {
      hide Elems;
      var had := Elems(block[..n]);
      ElemsCount(block[..n]);
      A.SumRemove(rem, op);
      assert had + s == had + (s - had);
    }

    /** With size > LOGSIZE the log is full only for a block that is recorded already. */
    lemma OnlyRelogging(ws: seq<Write>, i: nat, op: nat)
      requires Valid() && size > LOGSIZE && op < |rem| && i < |ws|
      requires |Targets(ws) - Elems(block[..n])| <= rem[op]
      ensures var s := Elems(block[..n]) + Targets(ws[..i]);
              |s| <= LOGSIZE == Cap() && (|s| == LOGSIZE ==> ws[i].block in s)
    {
      hide Elems;
      var had, all := Elems(block[..n]), Targets(ws);
      var s := had + Targets(ws[..i]);
      InTargets(ws, i);
      ElemsCount(block[..n]);
      A.SumRemove(rem, op);
      assert had + all == had + (all - had);
      assert s <= had + all;
      SubsetSize(s, had + all);
      if ws[i].block !in s {
        SubsetSize(s + {ws[i].block}, had + all);
      }
    }

    method BeginThree()
      requires Valid() && Abs() == A.Init(size)
      modifies this`outstanding, this`rem
      ensures Valid() && Abs() == A.State(size, [], A.Budgets(0), false)
    {
      hide Bcache.Valid, Elems, A.Inv, GoodBlocks, HeadN, Valid;
      var one := BeginOp();
      var two := BeginOp();
      var three := BeginOp();
    }

    lemma BudgetSpent(i: nat)
      requires i < LOGSIZE
      ensures var op := i / MAXOPBLOCKS;
              op < 3 && A.Budgets(i)[op] > 0 && A.Budgets(i + 1) == A.Budgets(i)[op := A.Budgets(i)[op] - 1]
    {
    }

    lemma BudgetsSpent()
      ensures A.Budgets(LOGSIZE) == [0, 0, 0]
    {
    }

    /** The three begin_ops and the thirty blocks. */
    method LogThirty(bs: seq<nat>)
      requires Valid() && bc.HeldOnly({}, {}) && Abs() == A.Init(size) && size > LOGSIZE
      requires |bs| == LOGSIZE && (forall i :: 0 <= i < |bs| ==> Lay().Home(bc.disk, bs[i]))
      requires forall i, j :: 0 <= i < j < |bs| ==> bs[i] != bs[j]
      modifies this`n, this`outstanding, this`rem, block, bc`buf, bc`links, bc`order, bc`pin, bc`current
      ensures Valid() && bc.HeldOnly({}, {}) && Abs() == A.State(size, bs, [0, 0, 0], false)
    {
      hide Bcache.Valid, Bcache.HeldOnly, Elems, A.Inv, A.Next, GoodBlocks, HeadN, Valid, A.Budgets;
      BeginThree();
      assert bs[..0] == [];
      var i := 0;
      while i < LOGSIZE
        invariant 0 <= i <= LOGSIZE && Valid() && bc.HeldOnly({}, {})
        invariant Abs() == A.State(size, bs[..i], A.Budgets(i), false)
      {
        ghost var op := i / MAXOPBLOCKS;
        BudgetSpent(i);
        LogOne(bs[i], ZeroBlock(), op);
        i := i + 1;
      }
      BudgetsSpent();
      assert bs[..LOGSIZE] == bs;
    }

    /** On a log with room for LOGSIZE blocks, three operations that log ten blocks each
        pin every buffer, and commit's first bget then panics with "no buffers". */
    method FillEveryBuffer(bs: seq<nat>) returns (ok: bool)
      requires Valid() && bc.HeldOnly({}, {}) && Abs() == A.Init(size) && size > LOGSIZE
      requires |bs| == LOGSIZE && (forall i :: 0 <= i < |bs| ==> Lay().Home(bc.disk, bs[i]))
      requires forall i, j :: 0 <= i < j < |bs| ==> bs[i] != bs[j]
      modifies this, block, bc
      ensures Valid() && committing && n == NBUF && block[..n] == bs && bc.HeldOnly({}, {})
      ensures !ok && !Cached(bc.buf, DISKDEV, start + 1) && !SomeRecyclable(bc.buf)
    {
      hide Bcache.Valid, Bcache.HeldOnly, Elems, A.Inv, GoodBlocks, HeadN;
      LogThirty(bs);
      var last := EndOp(2);
      last := EndOp(1);
      last := EndOp(0);
      CommitFindsBufferIff();
      var r;
      ok, r := bc.Bget(DISKDEV, start + 1);
    }
  }
}
