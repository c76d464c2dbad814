/** Disk blocks as BSIZE bytes, little-endian 32-bit words inside a block, and
    the disk as a sequence of blocks changed by whole-block writes (fs.h, memide.c). */
module Blocks {
  import opened Params

  const BSIZE := 512
  const WORDS := 128      // BSIZE / sizeof(uint)

  type Block = s: seq<byte> | |s| == BSIZE witness seq(BSIZE, i => 0)

  function ZeroBlock(): Block {
    seq(BSIZE, i => 0)
  }

  type Disk = seq<Block>

  /** The i-th uint of a block, read through a (uint*) cast. */
  function Word(b: Block, i: nat): (w: nat)
    requires i < WORDS
    ensures w < TWO32
  {
    b[4 * i] as int + 0x100 * b[4 * i + 1] as int + 0x1_0000 * b[4 * i + 2] as int + 0x100_0000 * b[4 * i + 3] as int
  }

  function SetWord(b: Block, i: nat, w: nat): Block
    requires i < WORDS && w < TWO32
  {
    b[4 * i := w % 256][4 * i + 1 := w / 0x100 % 256][4 * i + 2 := w / 0x1_0000 % 256][4 * i + 3 := w / 0x100_0000]
  }

  /** A stored word is read back, and its neighbours are untouched. */
  lemma WordOfSetWord(b: Block, i: nat, w: nat, j: nat)
    requires i < WORDS && j < WORDS && w < TWO32
    ensures Word(SetWord(b, i, w), j) == if j == i then w else Word(b, j)
  {
    if j == i {
      Digits(w);
    } else {
      var c := SetWord(b, i, w);
      assert 4 * j + 3 < 4 * i || 4 * i + 3 < 4 * j;
      assert c[4 * j] == b[4 * j] && c[4 * j + 1] == b[4 * j + 1];
      assert c[4 * j + 2] == b[4 * j + 2] && c[4 * j + 3] == b[4 * j + 3];
    }
  }

  /** The bytes of a word, the lowest first. */
  lemma WordBytes(b: Block, i: nat)
    requires i < WORDS
    ensures var w := Word(b, i);
            && b[4 * i] as int == w % 0x100 && b[4 * i + 1] as int == w / 0x100 % 0x100
            && b[4 * i + 2] as int == w / 0x1_0000 % 0x100 && b[4 * i + 3] as int == w / 0x100_0000
  {
    FourBytes(b[4 * i] as int, b[4 * i + 1] as int, b[4 * i + 2] as int, b[4 * i + 3] as int);
  }

  lemma FourBytes(b0: nat, b1: nat, b2: nat, b3: nat)
    requires b0 < 256 && b1 < 256 && b2 < 256 && b3 < 256
    ensures var w := b0 + 0x100 * b1 + 0x1_0000 * b2 + 0x100_0000 * b3;
            b0 == w % 0x100 && b1 == w / 0x100 % 0x100 && b2 == w / 0x1_0000 % 0x100 && b3 == w / 0x100_0000
  {
    var y := b2 + 0x100 * b3;
    var x := b1 + 0x100 * y;
    var w := b0 + 0x100 * x;
    assert w / 0x100 == x && x % 0x100 == b1;
    assert w == 0x1_0000 * y + (b0 + 0x100 * b1);
    assert w / 0x1_0000 == y && y % 0x100 == b2;
    assert w == 0x100_0000 * b3 + (b0 + 0x100 * b1 + 0x1_0000 * b2);
  }

  lemma Digits(w: nat)
    requires w < TWO32
    ensures w == w % 256 + 0x100 * (w / 0x100 % 256) + 0x1_0000 * (w / 0x1_0000 % 256) + 0x100_0000 * (w / 0x100_0000)
  {
  }

  lemma ZeroBlockWords(i: nat)
    requires i < WORDS
    ensures Word(ZeroBlock(), i) == 0
  {
  }

  /** One synchronous transfer of a dirty buffer to the disk (iderw). */
  datatype Write = Write(block: nat, data: Block)

  function WriteTo(d: Disk, w: Write): Disk {
    if w.block < |d| then d[w.block := w.data] else d
  }

  /** The disk after a list of writes; a crash leaves some prefix of the list done. */
  function ApplyWrites(d: Disk, ws: seq<Write>): (r: Disk)
    ensures |r| == |d|
  {
    if ws == [] then d else WriteTo(ApplyWrites(d, ws[..|ws| - 1]), ws[|ws| - 1])
  }

  /** The blocks that a list of writes names. */
  ghost function Targets(ws: seq<Write>): set<nat> {
    set w | w in ws :: w.block
  }

  lemma TargetsSnoc(ws: seq<Write>, w: Write)
    ensures Targets(ws + [w]) == Targets(ws) + {w.block}
  {
    assert forall v :: v in ws + [w] <==> v in ws || v == w;
  }

  lemma NoWrites(d: Disk)
    ensures Targets([]) == {} && ApplyWrites(d, []) == d
  {
  }

  lemma ApplyAppend(d: Disk, ws: seq<Write>, w: Write)
    ensures ApplyWrites(d, ws + [w]) == WriteTo(ApplyWrites(d, ws), w)
  {
    assert (ws + [w])[..|ws|] == ws;
  }

  lemma {:induction false} ApplyConcat(d: Disk, ws: seq<Write>, vs: seq<Write>)
    ensures ApplyWrites(d, ws + vs) == ApplyWrites(ApplyWrites(d, ws), vs)
    decreases |vs|
  {
    if vs == [] {
      assert ws + vs == ws;
    } else {
      var n := |vs| - 1;
      ApplyConcat(d, ws, vs[..n]);
      assert ws + vs == (ws + vs[..n]) + [vs[n]];
      ApplyAppend(d, ws + vs[..n], vs[n]);
    }
  }
}
