/** The buffer cache (bio.c) over the in-memory disk (memide.c).

    Buffers are the slots 0..NBUF of `buf`; slot NBUF is the list head, and the
    prev/next pointers are slot numbers.  Each method is one region executed
    under bcache.lock or under the buffer's sleep lock, so every interleaving of
    processes is a sequence of calls.  The ghost `current` is what the cache
    promises its readers: the value last given to bwrite or log_write for a
    block, and before that the disk's value. */
module Bio {
  import opened Blocks
  import opened Params

  const HEAD := NBUF
  const DISKDEV := 1

  datatype Buf = Buf(valid: bool, dirty: bool, dev: nat, blockno: nat, locked: bool, refcnt: nat, data: Block)

  datatype Link = Link(prev: nat, next: nat)

  // ---------- the LRU ring ----------

  predicate Distinct(s: seq<nat>) {
    forall i, j :: 0 <= i < j < |s| ==> s[i] != s[j]
  }

  /** The walk from the head through next back to the head. */
  function Walk(order: seq<nat>): (c: seq<nat>)
    ensures |c| == |order| + 2 && c[0] == HEAD && c[|order| + 1] == HEAD
    ensures forall i :: 0 <= i < |order| ==> c[i + 1] == order[i]
  {
    [HEAD] + order + [HEAD]
  }

  ghost predicate Linked(links: seq<Link>, c: seq<nat>, i: nat)
    requires i + 1 < |c|
  {
    && c[i] < |links| && c[i + 1] < |links|
    && links[c[i]].next == c[i + 1] && links[c[i + 1]].prev == c[i]
  }

  /** `order` is the list head.next, head.next.next, ..., doubly linked. */
  ghost predicate Ring(links: seq<Link>, order: seq<nat>) {
    && |links| == NBUF + 1
    && Distinct(order)
    && (forall i :: 0 <= i < |order| ==> order[i] < NBUF)
    && forall i :: 0 <= i <= |order| ==> Linked(links, Walk(order), i)
  }

  /** The ring of all NBUF buffers: a permutation of the slots. */
  ghost predicate Lru(links: seq<Link>, order: seq<nat>) {
    Ring(links, order) && |order| == NBUF && forall i :: 0 <= i < NBUF ==> i in order
  }

  /** Take b out of the list it is linked into. */
  function Unlink(links: seq<Link>, b: nat): seq<Link>
    requires b < |links| && links[b].next < |links| && links[b].prev < |links|
  {
    var l := links[links[b].next := links[links[b].next].(prev := links[b].prev)];
    l[links[b].prev := l[links[b].prev].(next := links[b].next)]
  }

  /** Link b in right after the head. */
  function PushFront(links: seq<Link>, b: nat): seq<Link>
    requires |links| == NBUF + 1 && b < NBUF && links[HEAD].next < |links|
  {
    var l1 := links[b := Link(HEAD, links[HEAD].next)];
    var l2 := l1[links[HEAD].next := l1[links[HEAD].next].(prev := b)];
    l2[HEAD := l2[HEAD].(next := b)]
  }

  function Without(order: seq<nat>, p: nat): seq<nat>
    requires p < |order|
  {
    order[..p] + order[p + 1..]
  }

  ghost predicate MovedToFront(was: seq<nat>, order: seq<nat>, r: nat) {
    exists p :: 0 <= p < |was| && was[p] == r && order == [r] + Without(was, p)
  }

  /** The walk visits no slot twice, the head at its two ends aside. */
  lemma WalkDistinct(order: seq<nat>, i: nat, j: nat)
    requires Distinct(order) && HEAD !in order && i < j < |order| + 2 && (i > 0 || j <= |order|)
    ensures Walk(order)[i] != Walk(order)[j]
  {
    assert i > 0 ==> Walk(order)[i] == order[i - 1];
    assert j <= |order| ==> Walk(order)[j] == order[j - 1];
  }

  lemma WalkWithout(order: seq<nat>, p: nat, i: nat)
    requires p < |order| && i <= |order|
    ensures |Without(order, p)| == |order| - 1
    ensures Walk(Without(order, p))[i] == Walk(order)[if i <= p then i else i + 1]
  {
    var w := Without(order, p);
    assert 1 <= i < |order| ==> Walk(w)[i] == w[i - 1] == order[if i <= p then i - 1 else i];
  }

  /** One link of the ring without position p. */
  lemma UnlinkOne(links: seq<Link>, order: seq<nat>, p: nat, i: nat)
    requires |links| == NBUF + 1 && Distinct(order) && HEAD !in order && p < |order| && i < |order|
    requires order[p] < NBUF
    requires var c := Walk(order);
             Linked(links, c, p) && Linked(links, c, p + 1) && Linked(links, c, i) && Linked(links, c, i + 1)
    ensures |Walk(Without(order, p))| == |order| + 1
    ensures links[order[p]].next <= NBUF && links[order[p]].prev <= NBUF
    ensures Linked(Unlink(links, order[p]), Walk(Without(order, p)), i)
  {
    hide Walk, Without, Distinct;
    WalkWithout(order, p, i);
    WalkWithout(order, p, i + 1);
    assert Walk(order)[p + 1] == order[p];
    if i < p {
      WalkDistinct(order, i, p);
      if i + 1 < p + 2 { WalkDistinct(order, i + 1, p + 2); }
    } else if i > p {
      WalkDistinct(order, p, i + 1);
      WalkDistinct(order, p + 2, i + 2);
    }
  }

  lemma WithoutDistinct(order: seq<nat>, p: nat)
    requires Distinct(order) && p < |order|
    ensures Distinct(Without(order, p))
    ensures var w := Without(order, p);
            |w| == |order| - 1 && forall i :: 0 <= i < |w| ==> w[i] == order[if i < p then i else i + 1]
  {
  }

  lemma UnlinkRing(links: seq<Link>, order: seq<nat>, p: nat)
    requires Ring(links, order) && p < |order|
    ensures links[order[p]].next <= NBUF && links[order[p]].prev <= NBUF
    ensures Ring(Unlink(links, order[p]), Without(order, p))
  {
    hide Linked, Walk, Distinct, Without, Unlink;
    assert HEAD !in order;
    var c := Walk(order);
    assert Linked(links, c, p) && Linked(links, c, p + 1);
    UnlinkOne(links, order, p, p);
    WithoutDistinct(order, p);
    var u, w := Unlink(links, order[p]), Without(order, p);
    forall i | 0 <= i <= |w| ensures Linked(u, Walk(w), i) {
      assert Linked(links, c, i) && Linked(links, c, i + 1);
      UnlinkOne(links, order, p, i);
    }
    UnlinkSize(links, order[p]);
  }

  lemma UnlinkSize(links: seq<Link>, b: nat)
    requires b < |links| && links[b].next < |links| && links[b].prev < |links|
    ensures |Unlink(links, b)| == |links|
  {
  }

  lemma PushFrontRing(links: seq<Link>, order: seq<nat>, b: nat)
    requires Ring(links, order) && b < NBUF && b !in order
    ensures links[HEAD].next <= NBUF
    ensures Ring(PushFront(links, b), [b] + order)
  {
    var c, c' := Walk(order), Walk([b] + order);
    assert Linked(links, c, 0);
    var u := PushFront(links, b);
    forall i | 0 <= i <= |order| + 1 ensures Linked(u, c', i) {
      assert i > 1 ==> c'[i] == c[i - 1];
      assert i > 0 ==> c'[i + 1] == c[i];
      if i > 1 { assert Linked(links, c, i - 1); }
    }
  }

  // ---------- who may be recycled ----------

  predicate Recyclable(b: Buf) {
    b.refcnt == 0 && !b.dirty
  }

  predicate HasKey(b: Buf, dev: nat, blockno: nat) {
    b.dev == dev && b.blockno == blockno
  }

  ghost predicate Cached(buf: seq<Buf>, dev: nat, blockno: nat) {
    exists i :: 0 <= i < NBUF && i < |buf| && HasKey(buf[i], dev, blockno)
  }

  ghost predicate SomeRecyclable(buf: seq<Buf>) {
    exists i :: 0 <= i < NBUF && i < |buf| && Recyclable(buf[i])
  }

  /** Every slot used less recently than b is busy. */
  ghost predicate LeastRecent(buf: seq<Buf>, order: seq<nat>, b: nat) {
    exists p :: 0 <= p < |order| && order[p] == b &&
      forall q :: p < q < |order| ==> order[q] < |buf| && !Recyclable(buf[order[q]])
  }

  lemma {:induction false} SmallSet(n: nat, s: set<nat>)
    requires forall i :: 0 <= i < n ==> i in s
    ensures |s| >= n
    decreases n
  {
    if n > 0 {
      SmallSet(n - 1, s - {n - 1});
    }
  }

  /** Pigeonhole: if fewer than NBUF slots are busy, one can be recycled. */
  lemma FreeSlot(buf: seq<Buf>, busy: set<nat>)
    requires |buf| == NBUF
    requires forall i :: 0 <= i < NBUF && !Recyclable(buf[i]) ==> i in busy
    requires |busy| < NBUF
    ensures SomeRecyclable(buf)
  {
    if !SomeRecyclable(buf) {
      SmallSet(NBUF, busy);
    }
  }

  lemma {:induction false} ValuesBound(m: map<nat, nat>)
    ensures |m.Values| <= |m|
    decreases |m|
  {
    if m.Keys == {} {
      assert m.Values == {};
    } else {
      var k :| k in m;
      var m' := m - {k};
      ValuesBound(m');
      assert m'.Keys == m.Keys - {k};
      assert m.Values <= m'.Values + {m[k]} by {
        forall v | v in m.Values ensures v in m'.Values + {m[k]} {
          var k' :| k' in m && m[k'] == v;
          if k' != k { assert k' in m' && m'[k'] == v; }
        }
      }
      SubsetSize(m.Values, m'.Values + {m[k]});
    }
  }

  lemma {:induction false} InjectiveBound(m: map<nat, nat>, s: set<nat>)
    requires forall a, b :: a in m && b in m && m[a] == m[b] ==> a == b
    requires forall a :: a in m ==> m[a] in s
    ensures |m| <= |s|
    decreases |m|
  {
    if m.Keys == {} {
      assert |m| == 0;
    } else {
      var k :| k in m;
      var m' := m - {k};
      assert m'.Keys == m.Keys - {k};
      InjectiveBound(m', s - {m[k]});
    }
  }

  // ---------- what the cache keeps ----------

  /** No key other than (0,0) has two buffers; a locked buffer is referenced. */
  ghost predicate Keys(buf: seq<Buf>) {
    && |buf| == NBUF
    && (forall i, j :: 0 <= i < j < NBUF && HasKey(buf[i], buf[j].dev, buf[j].blockno) ==> HasKey(buf[i], 0, 0))
    && (forall i :: 0 <= i < NBUF && buf[i].locked ==> buf[i].refcnt > 0)
  }

  ghost predicate PinHolds(buf: seq<Buf>, b: nat, i: nat) {
    i < |buf| && buf[i].dirty && HasKey(buf[i], DISKDEV, b)
  }

  /** `pin` lists the B_DIRTY buffers by block number. */
  ghost predicate Pins(buf: seq<Buf>, pin: map<nat, nat>) {
    && |buf| == NBUF
    && (forall b :: b in pin ==> PinHolds(buf, b, pin[b]))
    && (forall i :: 0 <= i < NBUF && buf[i].dirty ==> buf[i].valid && buf[i].blockno in pin && pin[buf[i].blockno] == i)
  }

  ghost predicate SlotOk(b: Buf, current: Disk) {
    b.valid ==> b.dev == DISKDEV && b.blockno < |current| && (!b.locked ==> b.data == current[b.blockno])
  }

  /** Unlocked valid buffers and unpinned disk blocks hold the current contents. */
  ghost predicate Contents(buf: seq<Buf>, pin: map<nat, nat>, disk: Disk, current: Disk) {
    && |current| == |disk|
    && (forall i :: 0 <= i < |buf| ==> SlotOk(buf[i], current))
    && (forall b :: 0 <= b < |disk| && b !in pin ==> disk[b] == current[b])
  }

  /** Writing a locked buffer out unpins its block and leaves the rest in order. */
  lemma WrittenOut(buf: seq<Buf>, pin: map<nat, nat>, disk: Disk, current: Disk, r: nat)
    requires Keys(buf) && Pins(buf, pin) && Contents(buf, pin, disk, current)
    requires r < NBUF && buf[r].locked && buf[r].valid
    ensures buf[r].blockno < |disk| == |current|
    ensures var bn, data := buf[r].blockno, buf[r].data;
            var buf', pin' := buf[r := buf[r].(dirty := false)], pin - {bn};
            Keys(buf') && Pins(buf', pin') && Contents(buf', pin', disk[bn := data], current[bn := data])
  {
    var bn, data := buf[r].blockno, buf[r].data;
    var buf', pin' := buf[r := buf[r].(dirty := false)], pin - {bn};
    assert Pins(buf', pin') by {
      forall b | b in pin' ensures PinHolds(buf', b, pin'[b]) {
        assert PinHolds(buf, b, pin[b]);
      }
    }
    forall i | 0 <= i < NBUF ensures SlotOk(buf'[i], current[bn := data]) {
      assert SlotOk(buf[i], current);
      assert i != r && buf[i].valid ==> !HasKey(buf[r], buf[i].dev, buf[i].blockno);
    }
  }

  // ---------- the cache ----------

  class Bcache {
    var buf: seq<Buf>
    var links: seq<Link>
    var disk: Disk
    ghost var order: seq<nat>      // most recently used first
    ghost var current: Disk
    ghost var pin: map<nat, nat>   // block number -> slot of the B_DIRTY buffer holding it
    ghost var disk0: Disk
    ghost var writes: seq<Write>   // every disk write so far, oldest first

    ghost predicate Valid()
      reads this
      ensures Valid() ==> |buf| == NBUF && |current| == |disk|
      ensures Valid() ==> forall b :: 0 <= b < |disk| && b !in pin ==> disk[b] == current[b]
    {
      && Lru(links, order)
      && |current| == |disk| && disk == ApplyWrites(disk0, writes)
      && Keys(buf) && Pins(buf, pin) && Contents(buf, pin, disk, current)
    }

    /** Everything but the named slot is as it was. */
    twostate predicate OnlySlot(i: nat)
      reads this
    {
      |buf| == |old(buf)| && forall j :: 0 <= j < |buf| && j != i ==> buf[j] == old(buf)[j]
    }

    /** binit: no buffer holds anything, and the ring lists the slots last to first. */
    constructor (d: Disk)
      ensures Valid() && disk == d && disk0 == d && current == d && pin == map[] && writes == []
      ensures forall i :: 0 <= i < NBUF ==> buf[i].refcnt == 0 && HasKey(buf[i], 0, 0)
      ensures forall i :: 0 <= i < NBUF ==> order[i] == NBUF - 1 - i
    {
      disk, disk0, current, pin, writes := d, d, d, map[], [];
      new;
      var empty := Buf(false, false, 0, 0, false, 0, ZeroBlock());
      buf := seq(NBUF, i => empty);
      links := seq(NBUF + 1, i => Link(HEAD, HEAD));
      order := [];
      var b := 0;
      while b < NBUF
        invariant 0 <= b <= NBUF
        invariant Ring(links, order) && |order| == b
        invariant forall i :: 0 <= i < b ==> order[i] == b - 1 - i
        invariant buf == seq(NBUF, i => empty)
        invariant disk == d && disk0 == d && current == d && pin == map[] && writes == []
      {
        PushFrontRing(links, order, b);
        links := PushFront(links, b);
        order := [b] + order;
        b := b + 1;
      }
      forall i | 0 <= i < NBUF ensures i in order {
        assert order[NBUF - 1 - i] == i;
      }
    }

    /** bget's first loop, through next: the slot holding the key, or HEAD. */
    method FindKey(dev: nat, blockno: nat) returns (b: nat)
      requires Lru(links, order) && |buf| == NBUF
      ensures b <= NBUF && (b == HEAD <==> !Cached(buf, dev, blockno))
      ensures b != HEAD ==> HasKey(buf[b], dev, blockno)
    {
      ghost var c := Walk(order);
      ghost var k := 1;
      assert Linked(links, c, 0);
      b := links[HEAD].next;
      while b != HEAD
        invariant 1 <= k <= NBUF + 1 && b == c[k]
        invariant forall j :: 0 <= j < k - 1 ==> !HasKey(buf[order[j]], dev, blockno)
        decreases NBUF + 1 - k
      {
        if HasKey(buf[b], dev, blockno) {
          return;
        }
        assert Linked(links, c, k);
        b := links[b].next;
        k := k + 1;
      }
      forall i | 0 <= i < NBUF ensures !HasKey(buf[i], dev, blockno) {
        assert i in order;
      }
    }

    /** bget's second loop, through prev: the least recently used slot that may
        be recycled, or HEAD. */
    method FindVictim() returns (b: nat)
      requires Lru(links, order) && |buf| == NBUF
      ensures b <= NBUF && (b == HEAD <==> !SomeRecyclable(buf))
      ensures b != HEAD ==> Recyclable(buf[b]) && LeastRecent(buf, order, b)
    {
      ghost var c := Walk(order);
      ghost var k := NBUF;
      assert Linked(links, c, NBUF);
      b := links[HEAD].prev;
      while b != HEAD
        invariant 0 <= k <= NBUF && b == c[k]
        invariant forall j :: k <= j < NBUF ==> !Recyclable(buf[order[j]])
        decreases k
      {
        if Recyclable(buf[b]) {
          assert order[k - 1] == b;
          return;
        }
        assert Linked(links, c, k - 1);
        b := links[b].prev;
        k := k - 1;
      }
      forall i | 0 <= i < NBUF ensures !Recyclable(buf[i]) {
        assert i in order;
      }
    }

    /** bget up to the sleep lock: find the block's buffer or recycle one.
        `ok` is false where the source panics with "bget: no buffers". */
    method Bget(dev: nat, blockno: nat) returns (ok: bool, r: nat)
      requires Valid()
      modifies this`buf
      ensures Valid()
      ensures ok <==> old(Cached(buf, dev, blockno) || SomeRecyclable(buf))
      ensures !ok ==> buf == old(buf)
      ensures ok ==> r < NBUF && OnlySlot(r) && HasKey(buf[r], dev, blockno)
      ensures ok && old(Cached(buf, dev, blockno)) ==> buf[r] == old(buf[r]).(refcnt := old(buf[r].refcnt) + 1)
      // A recycled buffer was unreferenced and clean, and the least recently used such one.
      ensures ok && !old(Cached(buf, dev, blockno)) ==>
        && Recyclable(old(buf[r])) && buf[r].refcnt == 1 && !buf[r].valid && !buf[r].dirty && !buf[r].locked
        && LeastRecent(old(buf), order, r)
      ensures ok <==> exists i :: 0 <= i < NBUF && var b := old(buf)[i];
                        (b.dev == dev && b.blockno == blockno) || (b.refcnt == 0 && !b.dirty)
      ensures ok && !old(Cached(buf, dev, blockno)) ==>
                exists p :: 0 <= p < NBUF && order[p] == r && forall q :: p < q < NBUF ==>
                  old(buf)[order[q]].refcnt > 0 || old(buf)[order[q]].dirty
    {
      r := FindKey(dev, blockno);
      if r != HEAD {
        assert Cached(buf, dev, blockno);
        buf := buf[r := buf[r].(refcnt := buf[r].refcnt + 1)];
        return true, r;
      }
      r := FindVictim();
      if r != HEAD {
        assert SomeRecyclable(buf);
        buf := buf[r := buf[r].(dev := dev, blockno := blockno, valid := false, dirty := false, refcnt := 1)];
        return true, r;
      }
      return false, 0;
    }

    /** acquiresleep, enabled when nobody holds the lock; then bread's iderw when
        the buffer is not valid.  The reader gets the block's current contents. */
    method LockAndFill(r: nat)
      requires Valid() && r < NBUF && buf[r].refcnt > 0 && !buf[r].locked
      requires buf[r].dev == DISKDEV && buf[r].blockno < |disk|
      modifies this`buf
      ensures Valid() && OnlySlot(r) && buf[r].blockno == old(buf[r].blockno)
      ensures buf[r] == old(buf[r]).(locked := true, valid := true, data := current[buf[r].blockno])
    {
      var b := buf[r];
      if !b.valid {
        b := b.(valid := true, data := disk[b.blockno]);
      }
      buf := buf[r := b.(locked := true)];
    }

    /** The holder changes the data of its buffer. */
    method Fill(r: nat, data: Block)
      requires Valid() && r < NBUF && buf[r].locked
      modifies this`buf
      ensures Valid() && OnlySlot(r) && buf[r] == old(buf[r]).(data := data)
    {
      buf := buf[r := buf[r].(data := data)];
    }

    /** bwrite: one synchronous disk write, which also clears B_DIRTY. */
    method Bwrite(r: nat)
      requires Valid() && r < NBUF && buf[r].locked && buf[r].valid
      modifies this`buf, this`disk, this`current, this`pin, this`writes
      ensures Valid() && OnlySlot(r)
      ensures buf[r] == old(buf[r]).(dirty := false)
      ensures var w := Write(buf[r].blockno, buf[r].data);
              && writes == old(writes) + [w]
              && disk == WriteTo(old(disk), w) && current == WriteTo(old(current), w)
              && pin == old(pin) - {buf[r].blockno}
    {
      hide Keys, Pins, Contents, Lru, ApplyWrites;
      var b := buf[r];
      WrittenOut(buf, pin, disk, current, r);
      ApplyAppend(disk0, writes, Write(b.blockno, b.data));
      writes := writes + [Write(b.blockno, b.data)];
      disk := disk[b.blockno := b.data];
      current := current[b.blockno := b.data];
      pin := pin - {b.blockno};
      buf := buf[r := b.(dirty := false)];
    }

    /** log_write's effect on the buffer: pinned by B_DIRTY, not written. */
    method Pin(r: nat)
      requires Valid() && r < NBUF && buf[r].locked && buf[r].valid
      modifies this`buf, this`pin, this`current
      ensures Valid() && OnlySlot(r) && buf[r] == old(buf[r]).(dirty := true)
      ensures current == old(current)[buf[r].blockno := buf[r].data]
      ensures pin == old(pin)[buf[r].blockno := r]
    {
      buf := buf[r := buf[r].(dirty := true)];
      pin := pin[buf[r].blockno := r];
      current := current[buf[r].blockno := buf[r].data];
    }

    /** The relinking in brelse. */
    method MoveToFront(r: nat)
      requires Lru(links, order) && r < NBUF
      modifies this`links, this`order
      ensures Lru(links, order) && MovedToFront(old(order), order, r)
    {
      assert r in order;
      ghost var p :| 0 <= p < NBUF && order[p] == r;
      ghost var was, rest := order, Without(order, p);
      UnlinkRing(links, order, p);
      links := Unlink(links, r);
      PushFrontRing(links, rest, r);
      links := PushFront(links, r);
      order := [r] + rest;
      forall i | 0 <= i < NBUF ensures i in order {
        assert i in was;
        var q :| 0 <= q < NBUF && was[q] == i;
        assert q < p ==> rest[q] == i;
        assert q > p ==> rest[q - 1] == i;
      }
    }

    /** brelse, by a holder whose changes have all been given to bwrite or
        log_write; an unreferenced buffer becomes the most recently used. */
    method Brelse(r: nat)
      requires Valid() && r < NBUF && buf[r].locked
      requires buf[r].valid ==> buf[r].data == current[buf[r].blockno]
      modifies this`buf, this`links, this`order
      ensures Valid() && OnlySlot(r)
      ensures buf[r] == old(buf[r]).(locked := false, refcnt := old(buf[r].refcnt) - 1)
      ensures if old(buf[r].refcnt) == 1 then MovedToFront(old(order), order, r) else order == old(order)
      ensures old(buf[r].refcnt) == 1 ==>
                exists p :: 0 <= p < NBUF && old(order)[p] == r && order == [r] + old(order)[..p] + old(order)[p + 1..]
    {
      buf := buf[r := buf[r].(locked := false, refcnt := buf[r].refcnt - 1)];
      if buf[r].refcnt == 0 {
        MoveToFront(r);
      }
    }

    /** This process holds the slots of s, once each; other processes use only those
        of `others`. */
    ghost predicate HeldOnly(s: set<nat>, others: set<nat>)
      reads this`buf, this`current
    {
      forall i :: 0 <= i < NBUF && i < |buf| ==>
        if i in s then i !in others && buf[i].locked && buf[i].valid && buf[i].refcnt == 1 && buf[i].blockno < |current|
        else if i in others then buf[i].refcnt > 0
        else buf[i].refcnt == 0 && !buf[i].locked
    }

    /** No other process uses a buffer of block b. */
    ghost predicate Clear(others: set<nat>, b: nat)
      reads this`buf
    {
      forall i :: i in others && i < |buf| ==> !HasKey(buf[i], DISKDEV, b)
    }

    /** The other processes' buffers are as they were. */
    ghost predicate Kept(others: set<nat>, was: seq<Buf>)
      reads this`buf
    {
      |buf| == |was| && forall i :: i in others && i < |was| ==> buf[i] == was[i]
    }

    /** With few enough blocks pinned and buffers in use, the next bget cannot panic. */
    lemma Available(held: set<nat>, others: set<nat>)
      requires Valid() && HeldOnly(held, others)
      requires |pin| + |held| + |others| < NBUF
      ensures SomeRecyclable(buf)
    {
      ValuesBound(pin);
      var busy := pin.Values + held + others;
      forall i | 0 <= i < NBUF && !Recyclable(buf[i]) ensures i in busy {
        if buf[i].dirty { assert pin[buf[i].blockno] == i; }
      }
      FreeSlot(buf, busy);
    }

    /** With every buffer pinned, bget panics for any block that is not pinned. */
    lemma AllPinned(b: nat)
      requires Valid() && |pin| == NBUF && b !in pin
      ensures !SomeRecyclable(buf) && !Cached(buf, DISKDEV, b)
    {
      forall a, c | a in pin && c in pin && pin[a] == pin[c] ensures a == c {
        assert PinHolds(buf, a, pin[a]) && PinHolds(buf, c, pin[c]);
      }
      var all := Range(0, NBUF);
      RangeSize(0, NBUF);
      forall i | 0 <= i < NBUF ensures buf[i].dirty {
        if !buf[i].dirty {
          forall a | a in pin ensures pin[a] in all - {i} { assert PinHolds(buf, a, pin[a]); }
          InjectiveBound(pin, all - {i});
        }
      }
    }

    lemma PinnedIsCached(b: nat)
      requires Valid() && b in pin
      ensures Cached(buf, DISKDEV, b)
    {
      assert PinHolds(buf, b, pin[b]);
      assert HasKey(buf[pin[b]], DISKDEV, b);
    }

    /** bget inside bread: a buffer that nobody uses. */
    method Claim(blockno: nat, ghost held: set<nat>, ghost others: set<nat>) returns (r: nat)
      requires Valid() && HeldOnly(held, others) && Clear(others, blockno) && Clear(held, blockno)
      requires blockno in pin || |pin| + |held| + |others| < NBUF
      modifies this`buf
      ensures Valid() && OnlySlot(r) && r < NBUF && r !in held && r !in others
      ensures HasKey(buf[r], DISKDEV, blockno) && buf[r].refcnt == 1 && !buf[r].locked
    {
      hide Valid, LeastRecent, SomeRecyclable;
      if blockno in pin {
        PinnedIsCached(blockno);
      } else {
        Available(held, others);
      }
      var ok: bool;
      ok, r := Bget(DISKDEV, blockno);
    }

    /** bread of a block no other process uses. */
    method Bread(blockno: nat, ghost held: set<nat>, ghost others: set<nat>) returns (r: nat)
      requires Valid() && HeldOnly(held, others) && blockno < |disk|
      requires Clear(others, blockno) && Clear(held, blockno)
      requires blockno in pin || |pin| + |held| + |others| < NBUF
      modifies this`buf
      ensures Valid() && Kept(held + others, old(buf))
      ensures r < NBUF && r !in held && HeldOnly(held + {r}, others) && HasKey(buf[r], DISKDEV, blockno)
      ensures buf[r].data == current[blockno]
    {
      hide Valid, Clear;
      r := Claim(blockno, held, others);
      LockAndFill(r);
    }

    /** Copy one held buffer into another and bwrite it: write_log's and
        install_trans's memmove and bwrite. */
    method CopyOut(s: nat, d: nat, ghost others: set<nat>)
      requires Valid() && s < NBUF && d < NBUF && s != d && HeldOnly({s, d}, others)
      requires buf[s].data == current[buf[s].blockno] && buf[s].blockno != buf[d].blockno
      modifies this`buf, this`disk, this`current, this`pin, this`writes
      ensures Valid() && HeldOnly({s, d}, others) && Kept(others, old(buf))
      ensures buf[s].data == current[buf[s].blockno] && buf[d].data == current[buf[d].blockno]
      ensures var w := Write(old(buf[d].blockno), old(buf[s].data));
              && writes == old(writes) + [w]
              && disk == WriteTo(old(disk), w) && current == WriteTo(old(current), w)
              && pin == old(pin) - {old(buf[d].blockno)}
    {
      hide Valid;
      Fill(d, buf[s].data);
      Bwrite(d);
    }

    /** brelse of the two buffers, in that order. */
    method ReleaseBoth(a: nat, b: nat, ghost others: set<nat>)
      requires Valid() && a < NBUF && b < NBUF && a != b && HeldOnly({a, b}, others)
      requires buf[a].data == current[buf[a].blockno] && buf[b].data == current[buf[b].blockno]
      modifies this`buf, this`links, this`order
      ensures Valid() && HeldOnly({}, others) && Kept(others, old(buf))
    {
      hide Valid;
      Brelse(a);
      Brelse(b);
    }

    /** bread of one block, then of another while the first is held. */
    method BreadTwo(x: nat, y: nat, ghost others: set<nat>) returns (a: nat, b: nat)
      requires Valid() && HeldOnly({}, others) && x < |disk| && y < |disk| && x != y
      requires Clear(others, x) && Clear(others, y)
      requires |pin| + |others| < NBUF && (y in pin || |pin| + |others| + 1 < NBUF)
      modifies this`buf
      ensures Valid() && a < NBUF && b < NBUF && a != b && HeldOnly({a, b}, others) && Kept(others, old(buf))
      ensures HasKey(buf[a], DISKDEV, x) && buf[a].data == current[x]
      ensures HasKey(buf[b], DISKDEV, y) && buf[b].data == current[y]
    {
      hide Valid, HeldOnly;
      a := Bread(x, {}, others);
      assert {} + {a} == {a} && {} + others == others;
      b := Bread(y, {a}, others);
      assert {a} + {b} == {a, b};
    }

    /** Overwrite the one held buffer, bwrite and release it. */
    method Rewrite(r: nat, data: Block, ghost others: set<nat>)
      requires Valid() && r < NBUF && HeldOnly({} + {r}, others)
      modifies this`buf, this`links, this`order, this`disk, this`current, this`pin, this`writes
      ensures Valid() && HeldOnly({}, others) && Kept(others, old(buf))
      ensures var w := Write(old(buf[r].blockno), data);
              && writes == old(writes) + [w]
              && disk == WriteTo(old(disk), w) && current == WriteTo(old(current), w)
              && pin == old(pin) - {old(buf[r].blockno)}
    {
      hide Valid;
      Fill(r, data);
      Bwrite(r);
      Brelse(r);
    }
  }
}
