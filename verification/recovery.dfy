/** The redo log's disk protocol (log.c) as lists of disk writes.

    A commit and a recovery each perform a fixed list of synchronous one-block
    writes; a crash leaves the disk after some prefix of the list.  The class in
    log.dfy performs exactly these lists. */
module Recovery {
  import opened Blocks
  import opened Params

  /** Where the log lives: header block `start`, then size - 1 data blocks. */
  datatype Layout = Layout(start: nat, size: nat) {
    predicate Fits(d: Disk) {
      1 <= size && start + size <= |d| < TWO32
    }

    predicate Home(d: Disk, b: nat) {
      b < |d| && !(start <= b < start + size)
    }
  }

  // ---------- the header block ----------

  function HeadN(h: Block): nat {
    Word(h, 0)
  }

  function HeadBlocks(h: Block): (bs: seq<nat>)
    requires HeadN(h) <= LOGSIZE
    ensures |bs| == HeadN(h) && forall i :: 0 <= i < |bs| ==> bs[i] == Word(h, 1 + i)
  {
    seq(HeadN(h), i requires 0 <= i < HeadN(h) => Word(h, 1 + i))
  }

  /** write_head overwrites n and the first n entries of the header buffer only. */
  function EncodeHead(h: Block, bs: seq<nat>): Block
    requires |bs| <= LOGSIZE && forall i :: 0 <= i < |bs| ==> bs[i] < TWO32
  {
    EncodeEntries(SetWord(h, 0, |bs|), bs)
  }

  function EncodeEntries(h: Block, bs: seq<nat>): Block
    requires |bs| <= LOGSIZE && forall i :: 0 <= i < |bs| ==> bs[i] < TWO32
  {
    if bs == [] then h
    else SetWord(EncodeEntries(h, bs[..|bs| - 1]), |bs|, bs[|bs| - 1])
  }

  lemma {:induction false} EntriesReadBack(h: Block, bs: seq<nat>, j: nat)
    requires |bs| <= LOGSIZE && forall i :: 0 <= i < |bs| ==> bs[i] < TWO32
    requires j < WORDS
    ensures Word(EncodeEntries(h, bs), j) == if 1 <= j <= |bs| then bs[j - 1] else Word(h, j)
  {
    if bs != [] {
      var n := |bs| - 1;
      EntriesReadBack(h, bs[..n], j);
      WordOfSetWord(EncodeEntries(h, bs[..n]), n + 1, bs[n], j);
    }
  }

  /** write_head's words are the count and the list; read_head after it gives the list
      back, whatever the block held before. */
  lemma HeadRoundTrip(h: Block, bs: seq<nat>)
    requires |bs| <= LOGSIZE && forall i :: 0 <= i < |bs| ==> bs[i] < TWO32
    ensures HeadN(EncodeHead(h, bs)) == |bs| && HeadBlocks(EncodeHead(h, bs)) == bs
    ensures Word(EncodeHead(h, bs), 0) == |bs| && forall i :: 0 <= i < |bs| ==> Word(EncodeHead(h, bs), 1 + i) == bs[i]
  {
    EntriesReadBack(SetWord(h, 0, |bs|), bs, 0);
    WordOfSetWord(h, 0, |bs|, 0);
    forall i | 0 <= i < |bs| ensures Word(EncodeHead(h, bs), 1 + i) == bs[i] {
      EntriesReadBack(SetWord(h, 0, |bs|), bs, 1 + i);
    }
  }

  // ---------- the write lists ----------

  /** Distinct home blocks that fit in the log. */
  ghost predicate GoodBlocks(l: Layout, d: Disk, bs: seq<nat>) {
    && |bs| <= LOGSIZE && |bs| + 1 <= l.size
    && (forall i :: 0 <= i < |bs| ==> l.Home(d, bs[i]))
    && (forall i, j :: 0 <= i < j < |bs| ==> bs[i] != bs[j])
  }

  /** A disk recover_from_log can be run on. */
  ghost predicate GoodHead(l: Layout, d: Disk) {
    l.Fits(d) && HeadN(d[l.start]) <= LOGSIZE && GoodBlocks(l, d, HeadBlocks(d[l.start]))
  }

  /** write_log: current contents of the logged blocks into the log area. */
  function LogWrites(l: Layout, bs: seq<nat>, cur: Disk): (ws: seq<Write>)
    requires forall i :: 0 <= i < |bs| ==> bs[i] < |cur|
    ensures |ws| == |bs|
  {
    seq(|bs|, i requires 0 <= i < |bs| => Write(l.start + i + 1, cur[bs[i]]))
  }

  /** install_trans: log area blocks to their home locations. */
  function InstallWrites(l: Layout, bs: seq<nat>, d: Disk): (ws: seq<Write>)
    requires l.start + |bs| < |d|
    ensures |ws| == |bs|
  {
    seq(|bs|, i requires 0 <= i < |bs| => Write(bs[i], d[l.start + i + 1]))
  }

  function RecoverWrites(l: Layout, d: Disk): seq<Write>
    requires l.Fits(d) && HeadN(d[l.start]) <= LOGSIZE && HeadN(d[l.start]) + 1 <= l.size
  {
    InstallWrites(l, HeadBlocks(d[l.start]), d) + [Write(l.start, EncodeHead(d[l.start], []))]
  }

  /** commit: write_log, write_head, install_trans, write_head again with n == 0. */
  function CommitWrites(l: Layout, bs: seq<nat>, d: Disk, cur: Disk): seq<Write>
    requires l.Fits(d) && GoodBlocks(l, d, bs) && |cur| == |d|
  {
    if bs == [] then []
    else
      var head := EncodeHead(d[l.start], bs);
      LogWrites(l, bs, cur) + [Write(l.start, head)] +
      seq(|bs|, i requires 0 <= i < |bs| => Write(bs[i], cur[bs[i]])) +
      [Write(l.start, EncodeHead(head, []))]
  }

  // ---------- what recovery produces ----------

  ghost predicate SameHome(l: Layout, d: Disk, e: Disk) {
    |d| == |e| && forall b: nat :: l.Home(d, b) ==> d[b] == e[b]
  }

  /** The disk after a completed recover_from_log. */
  function Recovered(l: Layout, d: Disk): Disk
    requires l.Fits(d) && HeadN(d[l.start]) <= LOGSIZE && HeadN(d[l.start]) + 1 <= l.size
  {
    ApplyWrites(d, RecoverWrites(l, d))
  }

  /** The disk holding `cur` at the blocks of bs and `d` elsewhere. */
  function Overlay(d: Disk, bs: seq<nat>, cur: Disk): (r: Disk)
    requires |cur| == |d|
    ensures |r| == |d|
    ensures forall b :: 0 <= b < |d| ==> r[b] == if b in bs then cur[b] else d[b]
  {
    seq(|d|, b requires 0 <= b < |d| => if b in bs then cur[b] else d[b])
  }

  ghost predicate DistinctBlocks(ws: seq<Write>) {
    forall i, j :: 0 <= i < j < |ws| ==> ws[i].block != ws[j].block
  }

  lemma {:induction false} Untouched(d: Disk, ws: seq<Write>, b: nat)
    requires b < |d| && forall i :: 0 <= i < |ws| ==> ws[i].block != b
    ensures ApplyWrites(d, ws)[b] == d[b]
    decreases |ws|
  {
    if ws != [] {
      Untouched(d, ws[..|ws| - 1], b);
    }
  }

  lemma {:induction false} Touched(d: Disk, ws: seq<Write>, i: nat)
    requires DistinctBlocks(ws) && i < |ws| && ws[i].block < |d|
    ensures ApplyWrites(d, ws)[ws[i].block] == ws[i].data
    decreases |ws|
  {
    var n := |ws| - 1;
    if i < n {
      Touched(d, ws[..n], i);
    }
  }

  lemma ApplyStep(d: Disk, ws: seq<Write>, t: nat)
    requires t < |ws|
    ensures ws[..t + 1] == ws[..t] + [ws[t]]
    ensures ApplyWrites(d, ws[..t + 1]) == WriteTo(ApplyWrites(d, ws[..t]), ws[t])
  {
    assert ws[..t + 1] == ws[..t] + [ws[t]];
    ApplyAppend(d, ws[..t], ws[t]);
  }

  /** Round t of write_log, on the disk d and on the cache's contents cur. */
  lemma LogRound(l: Layout, bs: seq<nat>, d: Disk, cur: Disk, t: nat)
    requires l.Fits(d) && GoodBlocks(l, d, bs) && |cur| == |d| && t < |bs|
    ensures var ws := LogWrites(l, bs, cur);
            && |ws| == |bs| && bs[t] < |d| && l.start + t + 1 < |d| && bs[t] != l.start + t + 1
            && ws[t] == Write(l.start + t + 1, cur[bs[t]])
            && ApplyWrites(cur, ws[..t])[bs[t]] == cur[bs[t]]
            && ws[..t + 1] == ws[..t] + [ws[t]]
            && ApplyWrites(d, ws[..t + 1]) == WriteTo(ApplyWrites(d, ws[..t]), ws[t])
            && ApplyWrites(cur, ws[..t + 1]) == WriteTo(ApplyWrites(cur, ws[..t]), ws[t])
  {
    var ws := LogWrites(l, bs, cur);
    assert l.Home(d, bs[t]) && l.start + t + 1 < l.start + l.size;
    Untouched(cur, ws[..t], bs[t]);
    ApplyStep(d, ws, t);
    ApplyStep(cur, ws, t);
  }

  /** Round t of install_trans. */
  lemma InstallRound(l: Layout, bs: seq<nat>, d: Disk, cur: Disk, t: nat)
    requires l.Fits(d) && GoodBlocks(l, d, bs) && |cur| == |d| && t < |bs| && l.start + t + 1 < |d|
    requires cur[l.start + t + 1] == d[l.start + t + 1]
    ensures var ws := InstallWrites(l, bs, d);
            && |ws| == |bs| && bs[t] < |d| && bs[t] != l.start + t + 1
            && ws[t] == Write(bs[t], d[l.start + t + 1])
            && ApplyWrites(cur, ws[..t])[l.start + t + 1] == d[l.start + t + 1]
            && ws[..t + 1] == ws[..t] + [ws[t]]
            && ApplyWrites(d, ws[..t + 1]) == WriteTo(ApplyWrites(d, ws[..t]), ws[t])
            && ApplyWrites(cur, ws[..t + 1]) == WriteTo(ApplyWrites(cur, ws[..t]), ws[t])
  {
    var ws := InstallWrites(l, bs, d);
    assert l.Home(d, bs[t]) && l.start + t + 1 < l.start + l.size;
    forall i | 0 <= i < t ensures ws[i].block != l.start + t + 1 { assert l.Home(d, bs[i]); }
    Untouched(cur, ws[..t], l.start + t + 1);
    ApplyStep(d, ws, t);
    ApplyStep(cur, ws, t);
  }

  lemma RecoverWritesDistinct(l: Layout, d: Disk)
    requires GoodHead(l, d)
    ensures DistinctBlocks(RecoverWrites(l, d))
  {
    var bs, ws := HeadBlocks(d[l.start]), RecoverWrites(l, d);
    forall i, j | 0 <= i < j < |ws| ensures ws[i].block != ws[j].block {
      assert l.Home(d, bs[i]);
    }
  }

  /** Recovery installs the i-th logged block at its home. */
  lemma RecoveredLogged(l: Layout, d: Disk, i: nat)
    requires GoodHead(l, d) && i < HeadN(d[l.start])
    ensures Recovered(l, d)[HeadBlocks(d[l.start])[i]] == d[l.start + i + 1]
  {
    RecoverWritesDistinct(l, d);
    Touched(d, RecoverWrites(l, d), i);
  }

  /** Recovery leaves every other block alone, the header aside. */
  lemma RecoveredElsewhere(l: Layout, d: Disk, b: nat)
    requires GoodHead(l, d) && b < |d| && b != l.start && b !in HeadBlocks(d[l.start])
    ensures Recovered(l, d)[b] == d[b]
  {
    Untouched(d, RecoverWrites(l, d), b);
  }

  /** Recovery ends with an empty log on disk. */
  lemma RecoveredHead(l: Layout, d: Disk)
    requires GoodHead(l, d)
    ensures HeadN(Recovered(l, d)[l.start]) == 0
  {
    RecoverWritesDistinct(l, d);
    Touched(d, RecoverWrites(l, d), HeadN(d[l.start]));
    HeadRoundTrip(d[l.start], []);
  }

  /** recover_from_log's two phases make up RecoverWrites. */
  lemma RecoverPhases(l: Layout, d: Disk)
    requires GoodHead(l, d)
    ensures l.start + HeadN(d[l.start]) < |d|
    ensures var iw := InstallWrites(l, HeadBlocks(d[l.start]), d);
            var w := Write(l.start, EncodeHead(d[l.start], []));
            && ApplyWrites(d, iw)[l.start] == d[l.start]
            && RecoverWrites(l, d) == iw + [w] && Recovered(l, d) == WriteTo(ApplyWrites(d, iw), w)
            && |Recovered(l, d)| == |d| && HeadN(Recovered(l, d)[l.start]) == 0
  {
    var bs := HeadBlocks(d[l.start]);
    var iw := InstallWrites(l, bs, d);
    forall i | 0 <= i < |bs| ensures iw[i].block != l.start { assert l.Home(d, bs[i]); }
    Untouched(d, iw, l.start);
    ApplyAppend(d, iw, Write(l.start, EncodeHead(d[l.start], [])));
    RecoveredHead(l, d);
  }

  // ---------- crashes ----------

  lemma RecoveryDone(l: Layout, d: Disk)
    requires GoodHead(l, d)
    ensures GoodHead(l, Recovered(l, d)) && SameHome(l, Recovered(l, Recovered(l, d)), Recovered(l, d))
  {
    var e := Recovered(l, d);
    RecoveredHead(l, d);
    forall b: nat | l.Home(d, b) ensures Recovered(l, e)[b] == e[b] {
      RecoveredElsewhere(l, e, b);
    }
  }

  /** Until its last write a recovery leaves the log area alone. */
  lemma LogAreaKept(l: Layout, d: Disk, k: nat)
    requires GoodHead(l, d) && k <= HeadN(d[l.start])
    ensures forall b :: l.start <= b < l.start + l.size ==> ApplyWrites(d, RecoverWrites(l, d)[..k])[b] == d[b]
  {
    var ws, bs := RecoverWrites(l, d), HeadBlocks(d[l.start]);
    forall b: nat | l.start <= b < l.start + l.size ensures ApplyWrites(d, ws[..k])[b] == d[b] {
      forall i | 0 <= i < k ensures ws[i].block != b { assert l.Home(d, bs[i]); }
      Untouched(d, ws[..k], b);
    }
  }

  /** A crash after k writes of a recovery loses nothing: recovering again gives
      the same home blocks (k == 0 .. all, so redo is idempotent). */
  lemma RecoveryPrefix(l: Layout, d: Disk, k: nat)
    requires GoodHead(l, d) && k <= |RecoverWrites(l, d)|
    ensures var e := ApplyWrites(d, RecoverWrites(l, d)[..k]);
            GoodHead(l, e) && SameHome(l, Recovered(l, e), Recovered(l, d))
  {
    hide Word, SetWord, EncodeEntries, ApplyWrites;
    var ws, bs := RecoverWrites(l, d), HeadBlocks(d[l.start]);
    var e := ApplyWrites(d, ws[..k]);
    if k == |ws| {
      RecoveryDone(l, d);
      assert ws[..k] == ws;
    } else {
      LogAreaKept(l, d, k);
      forall b: nat | l.Home(d, b) ensures Recovered(l, e)[b] == Recovered(l, d)[b] {
        if b in bs {
          var i :| 0 <= i < |bs| && bs[i] == b;
          RecoveredLogged(l, d, i);
          RecoveredLogged(l, e, i);
        } else {
          RecoveredElsewhere(l, d, b);
          RecoveredElsewhere(l, e, b);
          Untouched(d, ws[..k], b);
        }
      }
    }
  }

  /** The state in which a commit starts: an empty log on disk. */
  ghost predicate CanCommit(l: Layout, bs: seq<nat>, d: Disk, cur: Disk) {
    l.Fits(d) && GoodBlocks(l, d, bs) && |cur| == |d| && HeadN(d[l.start]) == 0
  }

  /** Before the header write a crash undoes the transaction. */
  lemma BeforeCommitPoint(l: Layout, bs: seq<nat>, d: Disk, cur: Disk, k: nat)
    requires CanCommit(l, bs, d, cur) && k <= |bs|
    ensures var e := ApplyWrites(d, LogWrites(l, bs, cur)[..k]);
            GoodHead(l, e) && SameHome(l, Recovered(l, e), d)
  {
    var ws := LogWrites(l, bs, cur)[..k];
    var e := ApplyWrites(d, ws);
    Untouched(d, ws, l.start);
    forall b: nat | l.Home(d, b) ensures Recovered(l, e)[b] == d[b] {
      Untouched(d, ws, b);
      RecoveredElsewhere(l, e, b);
    }
  }

  /** The disk at the commit point: log area and header written, homes untouched. */
  function AtCommitPoint(l: Layout, bs: seq<nat>, d: Disk, cur: Disk): Disk
    requires CanCommit(l, bs, d, cur)
  {
    ApplyWrites(d, LogWrites(l, bs, cur) + [Write(l.start, EncodeHead(d[l.start], bs))])
  }

  lemma CommitPoint(l: Layout, bs: seq<nat>, d: Disk, cur: Disk)
    requires CanCommit(l, bs, d, cur)
    ensures var e := AtCommitPoint(l, bs, d, cur);
            && GoodHead(l, e) && e[l.start] == EncodeHead(d[l.start], bs) && HeadBlocks(e[l.start]) == bs
            && (forall i :: 0 <= i < |bs| ==> e[l.start + i + 1] == cur[bs[i]])
            && SameHome(l, e, d)
  {
    hide Word, SetWord, EncodeEntries, ApplyWrites;
    var ws := LogWrites(l, bs, cur) + [Write(l.start, EncodeHead(d[l.start], bs))];
    var e := AtCommitPoint(l, bs, d, cur);
    HeadRoundTrip(d[l.start], bs);
    Touched(d, ws, |bs|);
    forall i | 0 <= i < |bs| ensures e[l.start + i + 1] == cur[bs[i]] {
      Touched(d, ws, i);
    }
    forall b: nat | l.Home(d, b) ensures e[b] == d[b] {
      Untouched(d, ws, b);
    }
  }

  /** From the commit point on the transaction is durable. */
  lemma CommitPointDurable(l: Layout, bs: seq<nat>, d: Disk, cur: Disk)
    requires CanCommit(l, bs, d, cur)
    ensures var e := AtCommitPoint(l, bs, d, cur);
            GoodHead(l, e) && SameHome(l, Recovered(l, e), Overlay(d, bs, cur))
  {
    CommitPoint(l, bs, d, cur);
    var e := AtCommitPoint(l, bs, d, cur);
    forall b: nat | l.Home(d, b) ensures Recovered(l, e)[b] == Overlay(d, bs, cur)[b] {
      if b in bs {
        var i :| 0 <= i < |bs| && bs[i] == b;
        RecoveredLogged(l, e, i);
      } else {
        RecoveredElsewhere(l, e, b);
      }
    }
  }

  /** What follows the commit point is exactly a recovery of that disk. */
  lemma CommitSplit(l: Layout, bs: seq<nat>, d: Disk, cur: Disk)
    requires CanCommit(l, bs, d, cur) && bs != []
    ensures GoodHead(l, AtCommitPoint(l, bs, d, cur))
    ensures CommitWrites(l, bs, d, cur) ==
            LogWrites(l, bs, cur) + [Write(l.start, EncodeHead(d[l.start], bs))]
            + RecoverWrites(l, AtCommitPoint(l, bs, d, cur))
  {
    CommitPoint(l, bs, d, cur);
    var e := AtCommitPoint(l, bs, d, cur);
    assert InstallWrites(l, bs, e) == seq(|bs|, i requires 0 <= i < |bs| => Write(bs[i], cur[bs[i]]));
  }

  /** Crash atomicity of one commit: after a crash between any two disk writes a
      completed recovery yields the old home blocks (no header write yet) or all
      the committed ones, and never anything else. */
  lemma CrashInCommit(l: Layout, bs: seq<nat>, d: Disk, cur: Disk, k: nat)
    requires CanCommit(l, bs, d, cur) && k <= |CommitWrites(l, bs, d, cur)|
    ensures var e := ApplyWrites(d, CommitWrites(l, bs, d, cur)[..k]);
            && GoodHead(l, e)
            && HeadN(Recovered(l, e)[l.start]) == 0
            && SameHome(l, Recovered(l, e), if k <= |bs| then d else Overlay(d, bs, cur))
  {
    hide Word, SetWord, EncodeEntries, ApplyWrites;
    var ws := CommitWrites(l, bs, d, cur);
    var e := ApplyWrites(d, ws[..k]);
    var n := |bs|;
    if bs == [] {
      BeforeCommitPoint(l, bs, d, cur, 0);
    } else if k <= n {
      BeforeCommitPoint(l, bs, d, cur, k);
      assert ws[..k] == LogWrites(l, bs, cur)[..k];
    } else {
      CommitSplit(l, bs, d, cur);
      CommitPointDurable(l, bs, d, cur);
      var c := AtCommitPoint(l, bs, d, cur);
      var rs, pre := RecoverWrites(l, c), LogWrites(l, bs, cur) + [Write(l.start, EncodeHead(d[l.start], bs))];
      assert ws[..k] == pre + rs[..k - n - 1];
      ApplyConcat(d, pre, rs[..k - n - 1]);
      RecoveryPrefix(l, c, k - n - 1);
    }
    RecoveredHead(l, e);
  }

  /** Recoveries that each crash after ks[i] writes (or finish), one after the other. */
  function CrashedRecoveries(l: Layout, d: Disk, ks: seq<nat>): Disk
    requires l.Fits(d)
    decreases |ks|
  {
    if ks == [] || !GoodHeadCheck(l, d) then d
    else
      var ws := RecoverWrites(l, d);
      CrashedRecoveries(l, ApplyWrites(d, if ks[0] <= |ws| then ws[..ks[0]] else ws), ks[1..])
  }

  predicate GoodHeadCheck(l: Layout, d: Disk)
    requires l.Fits(d)
  {
    HeadN(d[l.start]) <= LOGSIZE && HeadN(d[l.start]) + 1 <= l.size
  }

  /** However many recoveries crash, and wherever, the next completed one gives
      what the first would have given. */
  lemma {:induction false} RepeatedCrashes(l: Layout, d: Disk, ks: seq<nat>)
    requires GoodHead(l, d)
    ensures var e := CrashedRecoveries(l, d, ks);
            GoodHead(l, e) && SameHome(l, Recovered(l, e), Recovered(l, d))
    decreases |ks|
  {
    if ks != [] {
      var ws := RecoverWrites(l, d);
      var k := if ks[0] <= |ws| then ks[0] else |ws|;
      assert ws[..|ws|] == ws;
      RecoveryPrefix(l, d, k);
      RepeatedCrashes(l, ApplyWrites(d, ws[..k]), ks[1..]);
    }
  }

  /** The whole promise: crash anywhere in commit, then any number of crashes
      inside recovery, then one completed recovery. */
  lemma CrashAtomicity(l: Layout, bs: seq<nat>, d: Disk, cur: Disk, k: nat, ks: seq<nat>)
    requires CanCommit(l, bs, d, cur) && k <= |CommitWrites(l, bs, d, cur)|
    ensures var e := CrashedRecoveries(l, ApplyWrites(d, CommitWrites(l, bs, d, cur)[..k]), ks);
            && GoodHead(l, e)
            && HeadN(Recovered(l, e)[l.start]) == 0
            && SameHome(l, Recovered(l, e), if k <= |bs| then d else Overlay(d, bs, cur))
  {
    CrashInCommit(l, bs, d, cur, k);
    var e := ApplyWrites(d, CommitWrites(l, bs, d, cur)[..k]);
    RepeatedCrashes(l, e, ks);
    RecoveredHead(l, CrashedRecoveries(l, e, ks));
  }

  lemma GoodBlocksLen(l: Layout, d: Disk, e: Disk, bs: seq<nat>)
    requires GoodBlocks(l, d, bs) && |d| == |e|
    ensures GoodBlocks(l, e, bs)
  {
    assert forall b: nat :: l.Home(d, b) == l.Home(e, b);
  }

  /** commit's four phases, each on the disk the previous one leaves. */
  lemma CommitPhases(l: Layout, bs: seq<nat>, d: Disk, cur: Disk)
    requires CanCommit(l, bs, d, cur) && bs != []
    ensures l.start + |bs| < |d|
    ensures var ws := LogWrites(l, bs, cur);
            var d1 := ApplyWrites(d, ws);
            var w1 := Write(l.start, EncodeHead(d1[l.start], bs));
            var d2 := WriteTo(d1, w1);
            var iw := InstallWrites(l, bs, d2);
            var d3 := ApplyWrites(d2, iw);
            var w2 := Write(l.start, EncodeHead(d3[l.start], []));
            && |d2| == |d| && GoodBlocks(l, d1, bs) && GoodBlocks(l, d2, bs)
            && CommitWrites(l, bs, d, cur) == ws + [w1] + iw + [w2]
            && |WriteTo(d3, w2)| == |d| && HeadN(WriteTo(d3, w2)[l.start]) == 0
            && SameHome(l, WriteTo(d3, w2), Overlay(d, bs, cur))
  {
    hide Word, SetWord, EncodeEntries, ApplyWrites;
    var ws := LogWrites(l, bs, cur);
    var d1 := ApplyWrites(d, ws);
    Untouched(d, ws, l.start);
    var d2 := AtCommitPoint(l, bs, d, cur);
    ApplyAppend(d, ws, Write(l.start, EncodeHead(d[l.start], bs)));
    CommitPoint(l, bs, d, cur);
    CommitPointDurable(l, bs, d, cur);
    CommitSplit(l, bs, d, cur);
    RecoverPhases(l, d2);
    GoodBlocksLen(l, d, d1, bs);
  }

  // ---------- whole runs ----------

  /** One committed transaction: the logged blocks and the cache's contents. */
  datatype Tx = Tx(blocks: seq<nat>, cur: Disk)

  ghost predicate GoodTxs(l: Layout, d: Disk, txs: seq<Tx>) {
    forall i :: 0 <= i < |txs| ==> GoodBlocks(l, d, txs[i].blocks) && |txs[i].cur| == |d|
  }

  function TxLen(t: Tx): nat {
    if t.blocks == [] then 0 else 2 * |t.blocks| + 2
  }

  /** All the disk writes of a run of commits. */
  function RunWrites(l: Layout, d: Disk, txs: seq<Tx>): seq<Write>
    requires l.Fits(d) && GoodTxs(l, d, txs)
    decreases |txs|
  {
    if txs == [] then []
    else
      var ws := CommitWrites(l, txs[0].blocks, d, txs[0].cur);
      ws + RunWrites(l, ApplyWrites(d, ws), txs[1..])
  }

  /** One more commit after a run. */
  lemma {:induction false} RunOneMore(l: Layout, d: Disk, txs: seq<Tx>, t: Tx)
    requires l.Fits(d) && GoodTxs(l, d, txs + [t])
    ensures GoodTxs(l, d, txs)
    ensures var e := ApplyWrites(d, RunWrites(l, d, txs));
            && GoodBlocks(l, e, t.blocks) && |t.cur| == |e|
            && RunWrites(l, d, txs + [t]) == RunWrites(l, d, txs) + CommitWrites(l, t.blocks, e, t.cur)
    decreases |txs|
  {
    hide CommitWrites, GoodBlocks;
    var all := txs + [t];
    assert all[|txs|] == t;
    forall i | 0 <= i < |txs| ensures txs[i] == all[i] {}
    if txs == [] {
      RunSplit(l, d, all);
      assert all[1..] == [];
    } else {
      var ws := CommitWrites(l, txs[0].blocks, d, txs[0].cur);
      var e := ApplyWrites(d, ws);
      RunSplit(l, d, all);
      assert all[1..] == txs[1..] + [t];
      RunOneMore(l, e, txs[1..], t);
      RunSplit(l, d, txs);
      ApplyConcat(d, ws, RunWrites(l, e, txs[1..]));
    }
  }

  /** The same transactions, whatever the cache holds of the log area. */
  ghost predicate SameTxs(l: Layout, txs: seq<Tx>, us: seq<Tx>) {
    |txs| == |us| && forall i :: 0 <= i < |txs| ==> txs[i].blocks == us[i].blocks && SameHome(l, txs[i].cur, us[i].cur)
  }

  lemma SameCommit(l: Layout, bs: seq<nat>, d: Disk, cur: Disk, cur': Disk)
    requires l.Fits(d) && GoodBlocks(l, d, bs) && |cur| == |d| && SameHome(l, cur, cur')
    ensures CommitWrites(l, bs, d, cur) == CommitWrites(l, bs, d, cur')
  {
    assert forall i :: 0 <= i < |bs| ==> l.Home(cur, bs[i]);
    assert LogWrites(l, bs, cur) == LogWrites(l, bs, cur');
  }

  /** What the cache holds of the log area makes no difference to the disk writes. */
  lemma {:induction false} SameRun(l: Layout, d: Disk, txs: seq<Tx>, us: seq<Tx>)
    requires l.Fits(d) && GoodTxs(l, d, txs) && SameTxs(l, txs, us)
    ensures GoodTxs(l, d, us) && RunWrites(l, d, us) == RunWrites(l, d, txs)
    decreases |txs|
  {
    hide CommitWrites, ApplyWrites, GoodBlocks;
    if txs != [] {
      SameCommit(l, txs[0].blocks, d, txs[0].cur, us[0].cur);
      RunSplit(l, d, txs);
      RunSplit(l, d, us);
      SameRun(l, ApplyWrites(d, CommitWrites(l, txs[0].blocks, d, txs[0].cur)), txs[1..], us[1..]);
    }
  }

  /** The home blocks that k disk writes of the run make durable: a transaction
      counts from its header write on, whole. */
  function Durable(h: Disk, txs: seq<Tx>, k: nat): (r: Disk)
    requires forall i :: 0 <= i < |txs| ==> |txs[i].cur| == |h|
    ensures |r| == |h|
    decreases |txs|
  {
    if txs == [] || (txs[0].blocks != [] && k <= |txs[0].blocks|) then h
    else if k < TxLen(txs[0]) then Overlay(h, txs[0].blocks, txs[0].cur)
    else Durable(Overlay(h, txs[0].blocks, txs[0].cur), txs[1..], k - TxLen(txs[0]))
  }

  lemma RunSplit(l: Layout, d: Disk, txs: seq<Tx>)
    requires l.Fits(d) && txs != [] && GoodTxs(l, d, txs)
    ensures var ws := CommitWrites(l, txs[0].blocks, d, txs[0].cur);
            && l.Fits(ApplyWrites(d, ws)) && GoodTxs(l, ApplyWrites(d, ws), txs[1..])
            && |ws| == TxLen(txs[0]) && RunWrites(l, d, txs) == ws + RunWrites(l, ApplyWrites(d, ws), txs[1..])
  {
    hide Word, SetWord, EncodeEntries, ApplyWrites;
  }

  lemma RunPrefix(l: Layout, d: Disk, txs: seq<Tx>, k: nat)
    requires l.Fits(d) && txs != [] && GoodTxs(l, d, txs) && k <= |RunWrites(l, d, txs)|
    ensures var ws := CommitWrites(l, txs[0].blocks, d, txs[0].cur);
            var rest := RunWrites(l, ApplyWrites(d, ws), txs[1..]);
            && |ws| == TxLen(txs[0]) && |RunWrites(l, d, txs)| == |ws| + |rest|
            && ApplyWrites(d, RunWrites(l, d, txs)[..k]) ==
               if k < |ws| then ApplyWrites(d, ws[..k])
               else ApplyWrites(ApplyWrites(d, ws), rest[..k - |ws|])
  {
    hide Word, SetWord, EncodeEntries, ApplyWrites, CommitWrites, RunWrites;
    RunSplit(l, d, txs);
    var ws := CommitWrites(l, txs[0].blocks, d, txs[0].cur);
    var rest := RunWrites(l, ApplyWrites(d, ws), txs[1..]);
    var all := RunWrites(l, d, txs);
    if k < |ws| {
      assert all[..k] == ws[..k];
    } else {
      assert all[..k] == ws + rest[..k - |ws|];
      ApplyConcat(d, ws, rest[..k - |ws|]);
    }
  }

  /** With an empty log recovery changes no home block. */
  lemma RecoveredEmpty(l: Layout, d: Disk, h: Disk)
    requires l.Fits(d) && HeadN(d[l.start]) == 0 && SameHome(l, d, h)
    ensures GoodHead(l, d) && SameHome(l, Recovered(l, d), h) && ApplyWrites(d, []) == d
  {
    forall b: nat | l.Home(d, b) ensures Recovered(l, d)[b] == h[b] {
      RecoveredElsewhere(l, d, b);
    }
  }

  lemma SameHomeToo(l: Layout, r: Disk, d: Disk, h: Disk, bs: seq<nat>, cur: Disk)
    requires SameHome(l, d, h) && |cur| == |d| == |h|
    ensures SameHome(l, r, d) ==> SameHome(l, r, h)
    ensures SameHome(l, r, Overlay(d, bs, cur)) ==> SameHome(l, r, Overlay(h, bs, cur))
  {
  }

  /** The disk and the durable home blocks after the first transaction of a run. */
  lemma FirstDone(l: Layout, d: Disk, h: Disk, t: Tx, txs: seq<Tx>)
    requires CanCommit(l, t.blocks, d, t.cur) && SameHome(l, d, h) && GoodTxs(l, d, txs)
    ensures var e := ApplyWrites(d, CommitWrites(l, t.blocks, d, t.cur));
            l.Fits(e) && GoodTxs(l, e, txs) && HeadN(e[l.start]) == 0 && SameHome(l, e, Overlay(h, t.blocks, t.cur))
  {
    CommitEnds(l, t.blocks, d, t.cur);
    var e := ApplyWrites(d, CommitWrites(l, t.blocks, d, t.cur));
    forall i | 0 <= i < |txs| ensures GoodBlocks(l, e, txs[i].blocks) {
      assert forall b: nat :: l.Home(d, b) == l.Home(e, b);
    }
  }

  /** Crash safety over a whole run of transactions, with recoveries that may
      crash too: exactly the transactions whose header write happened survive. */
  lemma {:induction false} CrashInRun(l: Layout, d: Disk, h: Disk, txs: seq<Tx>, k: nat, ks: seq<nat>)
    requires l.Fits(d) && GoodTxs(l, d, txs) && HeadN(d[l.start]) == 0 && SameHome(l, d, h)
    requires k <= |RunWrites(l, d, txs)|
    ensures var e := CrashedRecoveries(l, ApplyWrites(d, RunWrites(l, d, txs)[..k]), ks);
            GoodHead(l, e) && SameHome(l, Recovered(l, e), Durable(h, txs, k))
    decreases |txs|
  {
    hide Word, SetWord, EncodeEntries, ApplyWrites, CommitWrites;
    if txs == [] {
      assert RunWrites(l, d, txs)[..k] == [];
      RecoveredEmpty(l, d, h);
      RepeatedCrashes(l, d, ks);
    } else {
      var t := txs[0];
      var ws := CommitWrites(l, t.blocks, d, t.cur);
      RunPrefix(l, d, txs, k);
      if k < TxLen(t) {
        CrashAtomicity(l, t.blocks, d, t.cur, k, ks);
        SameHomeToo(l, Recovered(l, CrashedRecoveries(l, ApplyWrites(d, ws[..k]), ks)), d, h, t.blocks, t.cur);
      } else {
        FirstDone(l, d, h, t, txs[1..]);
        CrashInRun(l, ApplyWrites(d, ws), Overlay(h, t.blocks, t.cur), txs[1..], k - |ws|, ks);
      }
    }
  }

  /** A commit that does not crash installs the transaction and empties the log. */
  lemma CommitEnds(l: Layout, bs: seq<nat>, d: Disk, cur: Disk)
    requires CanCommit(l, bs, d, cur)
    ensures var e := ApplyWrites(d, CommitWrites(l, bs, d, cur));
            HeadN(e[l.start]) == 0 && SameHome(l, e, Overlay(d, bs, cur))
  {
    var ws := CommitWrites(l, bs, d, cur);
    if bs != [] {
      CommitSplit(l, bs, d, cur);
      CommitPointDurable(l, bs, d, cur);
      var c := AtCommitPoint(l, bs, d, cur);
      ApplyConcat(d, LogWrites(l, bs, cur) + [Write(l.start, EncodeHead(d[l.start], bs))], RecoverWrites(l, c));
      RecoveredHead(l, c);
    }
  }
}
