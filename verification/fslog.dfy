/** What an operation has given to log_write (fs.c over log.c). */
module FsLog {
  import opened Blocks
  import opened FsState

  /** A transaction ended by end_op: the blocks it logged, and the state it left. */
  datatype Tx = Tx(logged: set<nat>, st: St)

  /** Every block that differs has been logged, and only blocks outside the log have
      been. */
  ghost predicate Wrote(sb: Sb, store: Disk, store': Disk, logged: set<nat>, logged': set<nat>) {
    && |store'| == |store| && logged <= logged'
    && (forall b :: b in logged' && b !in logged ==> sb.Home(b))
    && forall b: nat :: b < |store| && store'[b] != store[b] ==> b in logged'
  }

  /** The calls of log_write, with what the buffer held at each, account for the blocks
      logged and, begun from base, for the contents. */
  ghost predicate CalledSince(base: Disk, calls: seq<Write>, store: Disk, logged: set<nat>) {
    store == ApplyWrites(base, calls) && logged == Targets(calls)
  }

  lemma CallOne(base: Disk, calls: seq<Write>, store: Disk, logged: set<nat>, b: nat, data: Block)
    requires CalledSince(base, calls, store, logged) && b < |store|
    ensures CalledSince(base, calls + [Write(b, data)], store[b := data], logged + {b})
  {
    ApplyAppend(base, calls, Write(b, data));
    TargetsSnoc(calls, Write(b, data));
  }

  ghost predicate InodesStill(sb: Sb, store: Disk, store': Disk) {
    |store'| == |store| && forall x: nat :: x < |store| && sb.InodeBlock(x) ==> store'[x] == store[x]
  }

  /** As Wrote, with the inode blocks untouched. */
  ghost predicate Quiet(sb: Sb, store: Disk, store': Disk, logged: set<nat>, logged': set<nat>) {
    Wrote(sb, store, store', logged, logged') && InodesStill(sb, store, store')
  }

  lemma QuietNone(sb: Sb, store: Disk, logged: set<nat>)
    ensures Quiet(sb, store, store, logged, logged)
  {
  }

  lemma WroteTwice(sb: Sb, s0: Disk, s1: Disk, s2: Disk, l0: set<nat>, l1: set<nat>, l2: set<nat>)
    requires Wrote(sb, s0, s1, l0, l1) && Wrote(sb, s1, s2, l1, l2)
    ensures Wrote(sb, s0, s2, l0, l2)
  {
    forall b: nat | b < |s0| && s2[b] != s0[b] ensures b in l2 {
      assert s1[b] != s0[b] || s2[b] != s1[b];
    }
  }

  lemma QuietTwice(sb: Sb, s0: Disk, s1: Disk, s2: Disk, l0: set<nat>, l1: set<nat>, l2: set<nat>)
    requires Quiet(sb, s0, s1, l0, l1) && Quiet(sb, s1, s2, l1, l2)
    ensures Quiet(sb, s0, s2, l0, l2)
  {
    WroteTwice(sb, s0, s1, s2, l0, l1, l2);
  }

  /** log_write of one block. */
  lemma QuietOne(sb: Sb, store: Disk, logged: set<nat>, b: nat, data: Block)
    requires b < |store| && sb.Home(b)
    ensures Wrote(sb, store, store[b := data], logged, logged + {b})
    ensures !sb.InodeBlock(b) ==> Quiet(sb, store, store[b := data], logged, logged + {b})
  {
  }

  /** The blocks that came into use were the lowest free ones. */
  ghost predicate Lowest(sb: Sb, store: Disk, store': Disk) {
    && (forall x: nat :: Free(sb, store', x) ==> Free(sb, store, x))
    && forall x: nat, y: nat :: Free(sb, store', x) && Free(sb, store, y) && !Free(sb, store', y) ==> y < x
  }

  lemma LowestOne(sb: Sb, store: Disk, b: nat)
    requires sb.Ok() && |store| == sb.size && Free(sb, store, b) && sb.datastart <= b
    requires forall x: nat :: x < b ==> !Free(sb, store, x)
    ensures sb.BBlock(b) < |store| && Lowest(sb, store, Taken(sb, store, b))
  {
    BBlockInRange(sb, b);
    forall x: nat | x < sb.size ensures Free(sb, Taken(sb, store, b), x) <==> Free(sb, store, x) && x != b {
      TakenBits(sb, store, b, x);
    }
  }

  /** Writing any other block than the free map's. */
  lemma LowestElsewhere(sb: Sb, store: Disk, b: nat, data: Block)
    requires sb.Ok() && |store| == sb.size && b < |store| && !sb.MapBlock(b)
    ensures Lowest(sb, store, store[b := data])
  {
    forall x: nat | x < sb.size ensures Free(sb, store[b := data], x) <==> Free(sb, store, x) {
      BBlockInRange(sb, x);
    }
  }

  lemma LowestNone(sb: Sb, store: Disk)
    ensures Lowest(sb, store, store)
  {
  }

  lemma LowestTwice(sb: Sb, s0: Disk, s1: Disk, s2: Disk)
    requires Lowest(sb, s0, s1) && Lowest(sb, s1, s2)
    ensures Lowest(sb, s0, s2)
  {
    hide Free;
  }

  /** As Quiet, of what only allocates. */
  ghost predicate Taking(sb: Sb, store: Disk, store': Disk, logged: set<nat>, logged': set<nat>) {
    Quiet(sb, store, store', logged, logged') && Lowest(sb, store, store')
  }

  lemma TakingNone(sb: Sb, store: Disk, logged: set<nat>)
    ensures Taking(sb, store, store, logged, logged)
  {
  }

  lemma TakingTwice(sb: Sb, s0: Disk, s1: Disk, s2: Disk, l0: set<nat>, l1: set<nat>, l2: set<nat>)
    requires Taking(sb, s0, s1, l0, l1) && Taking(sb, s1, s2, l1, l2)
    ensures Taking(sb, s0, s2, l0, l2)
  {
    hide Quiet, Lowest;
    QuietTwice(sb, s0, s1, s2, l0, l1, l2);
    LowestTwice(sb, s0, s1, s2);
  }

  /** log_write of a data block. */
  lemma TakingData(sb: Sb, store: Disk, logged: set<nat>, b: nat, data: Block)
    requires sb.Ok() && |store| == sb.size && sb.datastart <= b < sb.size
    ensures sb.Home(b) && Taking(sb, store, store[b := data], logged, logged + {b})
  {
    hide Quiet, Lowest;
    DataBlock(sb, b);
    QuietOne(sb, store, logged, b, data);
    LowestElsewhere(sb, store, b, data);
  }

  /** balloc's. */
  lemma TakingBlock(sb: Sb, store: Disk, store': Disk, logged: set<nat>, logged': set<nat>, b: nat)
    requires sb.Ok() && |store| == sb.size && Free(sb, store, b) && sb.datastart <= b
    requires forall x: nat :: x < b ==> !Free(sb, store, x)
    requires sb.BBlock(b) < |store| && store' == Taken(sb, store, b) && Quiet(sb, store, store', logged, logged')
    ensures Taking(sb, store, store', logged, logged')
  {
    hide Quiet, Lowest;
    LowestOne(sb, store, b);
  }

  /** Data blocks are outside the log and the inode blocks. */
  lemma DataBlock(sb: Sb, b: nat)
    requires sb.Ok() && sb.datastart <= b < sb.size
    ensures sb.Home(b) && !sb.InodeBlock(b) && !sb.MapBlock(b)
  {
  }
}
