/** Pipes (pipe.c), one lock-held region at a time.

    A region runs from taking the pipe's lock, on entry or on waking up, to
    releasing it, by returning or by sleep. */
module Pipe {
  import opened Params

  const PIPESIZE: nat := 512

  /** How a region ends: asleep, or returned with pipewrite's or piperead's value. */
  datatype Outcome = Asleep | Returned(value: int)

  class Pipe {
    const data: array<byte>
    var nread: nat
    var nwrite: nat
    var readopen: bool
    var writeopen: bool
    var readers: set<int>        // asleep on &nread
    var writers: set<int>        // asleep on &nwrite
    ghost var stored: seq<byte>  // every byte ever written
    ghost var taken: seq<byte>   // every byte ever read

    /** The bytes read are a prefix of the bytes stored; the rest is the window of
        the ring, and the counters are the two lengths modulo 2^32. */
    ghost predicate Valid()
      reads this`nread, this`nwrite, this`stored, this`taken, data
      ensures Valid() ==> taken <= stored && |stored| - |taken| <= PIPESIZE
    {
      && data.Length == PIPESIZE && nread == |taken| % TWO32 && nwrite == |stored| % TWO32
      && taken <= stored && |stored| - |taken| <= PIPESIZE
      && forall i: nat :: |taken| <= i < |stored| ==> data[i % PIPESIZE] == stored[i]
    }

    ghost predicate Full()
      reads this`stored, this`taken
    {
      |stored| - |taken| == PIPESIZE
    }

    ghost predicate Empty()
      reads this`stored, this`taken
    {
      |stored| == |taken|
    }

    /** Readers sleep only on an empty pipe that can still be written, writers only
        on a full one that can still be read; a sleeping reader has the read end
        open. */
    ghost predicate SleepersRight()
      reads this
    {
      && (readers != {} ==> Empty() && writeopen && readopen)
      && (writers != {} ==> Full() && readopen)
    }

    /** pipealloc's initialisation. */
    constructor ()
      ensures Valid() && SleepersRight() && stored == taken == [] && readopen && writeopen && readers == writers == {}
      ensures fresh(data)
    {
      data := new byte[PIPESIZE];
      nread, nwrite, readopen, writeopen, readers, writers := 0, 0, true, true, {}, {};
      stored, taken := [], [];
    }

    /** The wrapping counters tell full and empty apart. */
    lemma Counters()
      requires Valid()
      ensures nwrite == (nread + PIPESIZE) % TWO32 <==> Full()
      ensures nread == nwrite <==> Empty()
    {
      var d := |stored| - |taken|;
      assert |stored| == |taken| + d;
      if |taken| % TWO32 + d < TWO32 {
        assert (|taken| + d) % TWO32 == |taken| % TWO32 + d by { ModAdd(|taken|, d); }
      } else {
        assert (|taken| + d) % TWO32 == |taken| % TWO32 + d - TWO32 by { ModAdd(|taken|, d); }
      }
    }

    /** data[nwrite++ % PIPESIZE] = c */
    method Put(c: byte)
      requires Valid() && !Full()
      modifies this`nwrite, this`stored, data
      ensures Valid() && stored == old(stored) + [c]
    {
      Slot(|stored|);
      data[nwrite % PIPESIZE] := c;
      nwrite := (nwrite + 1) % TWO32;
      ModAdd(|stored|, 1);
      ghost var was := stored;
      stored := stored + [c];
      forall x: nat | |taken| <= x < |stored| ensures data[x % PIPESIZE] == stored[x] {
        if x < |was| { DistinctSlots(x, |was|); }
      }
    }

    /** A region of pipewrite that has i0 of its n bytes behind it. */
    method Write(addr: seq<byte>, n: int, i0: nat, me: int, killed: bool) returns (i: nat, out: Outcome)
      requires Valid() && n <= |addr| && (i0 == 0 || i0 < n)
      modifies this`nwrite, this`readers, this`writers, this`stored, data
      ensures Valid() && i == if i0 < n then i0 + Least(n - i0, PIPESIZE - old(|stored| - |taken|)) else i0
      ensures stored == if i0 < n then old(stored) + addr[i0..i] else old(stored)
      ensures out == Asleep <==> i < n && readopen && !killed
      ensures out == Asleep ==> Full() && readers == {} && writers == old(writers) + {me}
      ensures out == Returned(-1) && n >= 0 ==>
              i < n && Full() && (!readopen || killed) && writers == old(writers) && readers == old(readers)
      ensures out != Asleep && out != Returned(-1) ==>
              out == Returned(n) && i >= n && readers == {} && writers == old(writers)
      ensures old(SleepersRight()) ==> (SleepersRight() <==> !(killed && old(readers) != {} && n - i0 > PIPESIZE))
    {
      hide Valid;
      i := i0;
      while i < n
        invariant i0 <= i && (i <= n || i == i0) && Valid() && readers == old(readers) && writers == old(writers)
        invariant i0 <= n ==> stored == old(stored) + addr[i0..i]
        invariant i == i0 ==> stored == old(stored)
        invariant |stored| == |old(stored)| + i - i0
      {
        Counters();
        if nwrite == (nread + PIPESIZE) % TWO32 {
          if !readopen || killed {
            return i, Returned(-1);
          }
          readers := {};
          writers := writers + {me};
          return i, Asleep;
        }
        Put(addr[i]);
        assert addr[i0..i + 1] == addr[i0..i] + [addr[i]];
        i := i + 1;
      }
      readers := {};
      out := Returned(n);
    }

    /** data[nread++ % PIPESIZE] */
    method Take() returns (c: byte)
      requires Valid() && !Empty()
      modifies this`nread, this`taken
      ensures Valid() && taken == old(taken) + [c]
    {
      Slot(|taken|);
      c := data[nread % PIPESIZE];
      nread := (nread + 1) % TWO32;
      ModAdd(|taken|, 1);
      taken := taken + [stored[|taken|]];
    }

    /** A region of piperead. */
    method Read(n: int, me: int, killed: bool) returns (got: seq<byte>, out: Outcome)
      requires Valid()
      modifies this`nread, this`readers, this`writers, this`taken
      ensures Valid() && taken == old(taken) + got
      ensures out == Asleep <==> old(Empty()) && writeopen && !killed
      ensures out == Returned(-1) <==> old(Empty()) && writeopen && killed
      ensures out == Asleep ==>
              got == [] && Empty() && writeopen && !killed && readers == old(readers) + {me} && writers == old(writers)
      ensures out == Returned(-1) ==>
              got == [] && Empty() && writeopen && killed && readers == old(readers) && writers == old(writers)
      ensures out != Asleep && out != Returned(-1) ==>
                out == Returned(|got|) && writers == {} &&
                    |got| == Least(if n < 0 then 0 else n, old(|stored| - |taken|))
      ensures got <= old(stored[|taken|..])
      ensures old(SleepersRight()) && readopen ==> SleepersRight()
    {
      hide Valid;
      got := [];
      Counters();
      if nread == nwrite && writeopen {
        if killed {
          return [], Returned(-1);
        }
        readers := readers + {me};
        return [], Asleep;
      }
      var i := 0;
      while i < n
        invariant 0 <= i == |got| && Valid() && taken == old(taken) + got && (i == 0 || i <= n) &&
                  readers == old(readers)
      {
        Counters();
        if nread == nwrite {
          break;
        }
        var c := Take();
        got := got + [c];
        i := i + 1;
      }
      Counters();
      writers := {};
      out := Returned(i);
    }

    /** kill of a sleeper (proc.c): it is made runnable, and its next region starts
        where sleep returns. */
    method KillWakes(who: int)
      requires Valid()
      modifies this`readers, this`writers
      ensures Valid() && readers == old(readers) - {who} && writers == old(writers) - {who}
      ensures old(SleepersRight()) ==> SleepersRight()
    {
      readers, writers := readers - {who}, writers - {who};
    }

    /** pipeclose; true when the pipe's page is to be freed.  Closing the read end wakes
        no reader, so the sleepers stay right exactly when none is asleep then; and no
        one is asleep on a pipe that is freed. */
    method Close(writable: bool) returns (free: bool)
      requires Valid()
      modifies this`readopen, this`writeopen, this`readers, this`writers
      ensures Valid() && free == (!readopen && !writeopen)
      ensures if writable then !writeopen && readopen == old(readopen) && readers == {} && writers == old(writers)
              else !readopen && writeopen == old(writeopen) && writers == {} && readers == old(readers)
      ensures old(SleepersRight()) ==> (SleepersRight() <==> writable || old(readers) == {})
      ensures old(SleepersRight()) && free ==> readers == writers == {}
    {
      if writable {
        writeopen := false;
        readers := {};
      } else {
        readopen := false;
        writers := {};
      }
      free := !readopen && !writeopen;
    }
  }

  /** The failing input: a reader goes to sleep on an empty pipe, and a killed writer of
      one byte more than the pipe holds returns without waking it. */
  method ReaderLeftAsleep(src: seq<byte>) returns (p: Pipe)
    requires |src| == PIPESIZE + 1
    ensures fresh(p) && p.Valid() && p.readers != {} && p.Full() && !p.SleepersRight()
  {
    p := new Pipe();
    var got, asleep := p.Read(1, 1, false);
    assert p.Empty() && p.readers == {1};
    var i, out := p.Write(src, |src|, 0, 2, true);
    assert p.taken == [] && |p.stored| <= PIPESIZE;
    assert out == Returned(-1);
  }

  lemma ModAdd(a: nat, d: nat)
    requires d <= PIPESIZE
    ensures (a + d) % TWO32 == (a % TWO32 + d) % TWO32
    ensures (a % TWO32 + d) % TWO32 == if a % TWO32 + d < TWO32 then a % TWO32 + d else a % TWO32 + d - TWO32
  {
    var q := a / TWO32;
    assert a + d == TWO32 * q + (a % TWO32 + d);
  }

  /** PIPESIZE divides 2^32, so wrapping does not disturb the ring index. */
  lemma Slot(i: nat)
    ensures i % TWO32 % PIPESIZE == i % PIPESIZE
  {
    var q := i / TWO32;
    assert i == PIPESIZE * (q * 0x80_0000) + i % TWO32;
  }

  lemma DistinctSlots(x: nat, y: nat)
    requires x < y < x + PIPESIZE
    ensures x % PIPESIZE != y % PIPESIZE
  {
  }
}
