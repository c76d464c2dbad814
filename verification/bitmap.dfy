/** Bits of a bitmap byte (the m = 1 << (bi % 8) arithmetic of balloc and bfree in fs.c). */
module Bitmap {
  import opened Blocks
  import opened Params

  const BPB := 4096      // BSIZE * 8

  /** Whether v & (1 << k) is nonzero. */
  predicate Bit(v: nat, k: nat) {
    if k == 0 then v % 2 == 1 else Bit(v / 2, k - 1)
  }

  /** v | (1 << k) */
  function OrBit(v: nat, k: nat): nat {
    if k == 0 then v / 2 * 2 + 1 else 2 * OrBit(v / 2, k - 1) + v % 2
  }

  /** v & ~(1 << k) */
  function ClearBit(v: nat, k: nat): nat {
    if k == 0 then v / 2 * 2 else 2 * ClearBit(v / 2, k - 1) + v % 2
  }

  lemma {:induction false} OrBitBits(v: nat, k: nat, j: nat)
    ensures Bit(OrBit(v, k), j) <==> j == k || Bit(v, j)
  {
    if k > 0 && j > 0 {
      assert OrBit(v, k) / 2 == OrBit(v / 2, k - 1);
      OrBitBits(v / 2, k - 1, j - 1);
    }
  }

  lemma {:induction false} ClearBitBits(v: nat, k: nat, j: nat)
    ensures Bit(ClearBit(v, k), j) <==> j != k && Bit(v, j)
  {
    if k > 0 && j > 0 {
      assert ClearBit(v, k) / 2 == ClearBit(v / 2, k - 1);
      ClearBitBits(v / 2, k - 1, j - 1);
    }
  }

  function Pow2(n: nat): nat {
    if n == 0 then 1 else 2 * Pow2(n - 1)
  }

  lemma HalfOf(v: nat, p: nat)
    requires p > 0
    ensures v / 2 / p == v / (2 * p)
  {
    var q := v / 2 / p;
    Division(v / 2, p);
    assert 2 * (p * q) <= v < 2 * (p * (q + 1));
    assert 2 * (p * q) == 2 * p * q && 2 * (p * (q + 1)) == 2 * p * (q + 1);
    Quotient(v, 2 * p, q);
  }

  lemma Division(x: nat, p: nat)
    requires p > 0
    ensures p * (x / p) <= x < p * (x / p + 1)
  {
    assert x == p * (x / p) + x % p;
  }

  lemma Quotient(x: nat, p: nat, q: nat)
    requires p > 0 && p * q <= x < p * (q + 1)
    ensures x / p == q
  {
    var d := x / p;
    Division(x, p);
    if d < q {
      Times(p, d + 1, q);
    } else if q < d {
      Times(p, q + 1, d);
    }
  }

  lemma Times(p: nat, a: nat, b: nat)
    requires a <= b
    ensures p * a <= p * b
  {
  }

  lemma Pow2Positive(k: nat)
    ensures Pow2(k) > 0
  {
  }

  /** Bit k is the one of weight 2^k. */
  lemma {:induction false} BitWeight(v: nat, k: nat)
    ensures Pow2(k) > 0 && (Bit(v, k) <==> v / Pow2(k) % 2 == 1)
  {
    Pow2Positive(k);
    if k > 0 {
      Pow2Positive(k - 1);
      BitWeight(v / 2, k - 1);
      HalfOf(v, Pow2(k - 1));
    }
  }

  /** A bit operation inside the width stays inside the width. */
  lemma {:induction false} StaysInWidth(v: nat, k: nat, n: nat)
    requires v < Pow2(n) && k < n
    ensures OrBit(v, k) < Pow2(n) && ClearBit(v, k) < Pow2(n)
  {
    if k > 0 {
      StaysInWidth(v / 2, k - 1, n - 1);
    }
  }

  function SetByteBit(v: byte, k: nat): byte
    requires k < 8
  {
    ByteWidth(v, k);
    OrBit(v, k)
  }

  function ClearByteBit(v: byte, k: nat): byte
    requires k < 8
  {
    ByteWidth(v, k);
    ClearBit(v, k)
  }

  lemma ByteWidth(v: byte, k: nat)
    requires k < 8
    ensures OrBit(v, k) < 256 && ClearBit(v, k) < 256
  {
    assert Pow2(4) == 16;
    assert Pow2(8) == 256;
    StaysInWidth(v, k, 8);
  }

  // ---------- a bitmap block ----------

  predicate BlockBit(b: Block, bi: nat)
    requires bi < BPB
  {
    Bit(b[bi / 8], bi % 8)
  }

  lemma BlockBitWeight(b: Block, bi: nat)
    requires bi < BPB
    ensures Pow2(bi % 8) > 0 && (BlockBit(b, bi) <==> b[bi / 8] as int / Pow2(bi % 8) % 2 == 1)
  {
    BitWeight(b[bi / 8], bi % 8);
  }

  function SetBlockBit(b: Block, bi: nat): Block
    requires bi < BPB
  {
    b[bi / 8 := SetByteBit(b[bi / 8], bi % 8)]
  }

  function ClearBlockBit(b: Block, bi: nat): Block
    requires bi < BPB
  {
    b[bi / 8 := ClearByteBit(b[bi / 8], bi % 8)]
  }

  lemma SetBlockBitBits(b: Block, bi: nat, bj: nat)
    requires bi < BPB && bj < BPB
    ensures BlockBit(SetBlockBit(b, bi), bj) <==> bj == bi || BlockBit(b, bj)
  {
    if bi / 8 == bj / 8 {
      OrBitBits(b[bi / 8], bi % 8, bj % 8);
    }
  }

  lemma ClearBlockBitBits(b: Block, bi: nat, bj: nat)
    requires bi < BPB && bj < BPB
    ensures BlockBit(ClearBlockBit(b, bi), bj) <==> bj != bi && BlockBit(b, bj)
  {
    if bi / 8 == bj / 8 {
      ClearBitBits(b[bi / 8], bi % 8, bj % 8);
    }
  }

  lemma {:induction false} ZeroBit(k: nat)
    ensures !Bit(0, k)
  {
    if k > 0 { ZeroBit(k - 1); }
  }

  lemma ZeroBits(bi: nat)
    requires bi < BPB
    ensures !BlockBit(ZeroBlock(), bi)
  {
    ZeroBit(bi % 8);
  }
}
