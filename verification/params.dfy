/** The constants of param.h that several components share, and a few notions about
    numbers and sets. */
module Params {
  const TWO32: nat := 0x1_0000_0000
  const MAXOPBLOCKS: nat := 10
  const LOGSIZE: nat := 30      // MAXOPBLOCKS * 3
  const NBUF: nat := 30         // MAXOPBLOCKS * 3
  const NPROC: nat := 64

  type byte = b: int | 0 <= b < 256

  function Least(a: nat, b: nat): nat {
    if a < b then a else b
  }

  predicate NotBelow(x: nat, low: nat) {
    low <= x
  }

  /** The numbers from lo up to hi. */
  function Range(lo: nat, hi: nat): (r: set<nat>)
    ensures forall x :: x in r <==> lo <= x < hi
  {
    set x: nat | x < hi && NotBelow(x, lo)
  }

  lemma {:induction false} SubsetSize<T>(a: set<T>, b: set<T>)
    requires a <= b
    ensures |a| <= |b|
    decreases |a|
  {
    if a != {} {
      var x :| x in a;
      SubsetSize(a - {x}, b - {x});
    }
  }

  lemma {:induction false} RangeSize(lo: nat, hi: nat)
    requires lo <= hi
    ensures |Range(lo, hi)| == hi - lo
    decreases hi
  {
    if lo == hi {
      assert Range(lo, hi) == {};
    } else {
      RangeSize(lo, hi - 1);
      assert Range(lo, hi) == Range(lo, hi - 1) + {hi - 1};
    }
  }
}
