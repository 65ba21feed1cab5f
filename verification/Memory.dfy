/** Physical memory as bytes, and page frames as 1024 little-endian words. */
module Memory {
  import opened Machine
  import opened PmmSpec

  type Byte = x: nat | x < 256

  type Ram = m: seq<Byte> | |m| == MEM witness seq(MEM, _ => 0)

  function FromBytes(b0: nat, b1: nat, b2: nat, b3: nat): nat {
    b0 + 0x100 * b1 + 0x1_0000 * b2 + 0x100_0000 * b3
  }

  lemma ToBytes(w: Word)
    ensures FromBytes(w % 0x100, w / 0x100 % 0x100, w / 0x1_0000 % 0x100, w / 0x100_0000) == w
  {
    var x, y := w / 0x100, w / 0x1_0000;
    assert w == 0x100 * x + w % 0x100;
    assert y == x / 0x100;
    assert x == 0x100 * y + x % 0x100;
    assert w / 0x100_0000 == y / 0x100;
    assert y == 0x100 * (y / 0x100) + y % 0x100;
  }

  function WordAt(m: Ram, a: nat): Word
    requires a + 4 <= MEM
  {
    FromBytes(m[a], m[a + 1], m[a + 2], m[a + 3])
  }

  function PutWord(m: Ram, a: nat, w: Word): Ram
    requires a + 4 <= MEM
  {
    m[a := w % 0x100][a + 1 := w / 0x100 % 0x100][a + 2 := w / 0x1_0000 % 0x100][a + 3 := w / 0x100_0000]
  }

  lemma PutWordSame(m: Ram, a: nat, w: Word)
    requires a + 4 <= MEM
    ensures WordAt(PutWord(m, a, w), a) == w
  {
    ToBytes(w);
  }

  lemma FromBytesDigits(b0: Byte, b1: Byte, b2: Byte, b3: Byte)
    ensures var w := FromBytes(b0, b1, b2, b3);
            w % 0x100 == b0 && w / 0x100 % 0x100 == b1 && w / 0x1_0000 % 0x100 == b2 && w / 0x100_0000 == b3
  {
    var w := FromBytes(b0, b1, b2, b3);
    assert w / 0x100 == b1 + 0x100 * b2 + 0x1_0000 * b3;
    assert w / 0x1_0000 == b2 + 0x100 * b3;
  }

  /** Reading a word and writing it elsewhere copies its four bytes. */
  lemma CopyWord(m: Ram, src: nat, dst: nat)
    requires src + 4 <= MEM && dst + 4 <= MEM
    ensures PutWord(m, dst, WordAt(m, src)) ==
            m[dst := m[src]][dst + 1 := m[src + 1]][dst + 2 := m[src + 2]][dst + 3 := m[src + 3]]
  {
    FromBytesDigits(m[src], m[src + 1], m[src + 2], m[src + 3]);
  }

  /** Word i of frame f. */
  function Ent(m: Ram, f: nat, i: nat): Word
    requires f < PAGES && i < 1024
  {
    WordAt(m, f * PAGE + 4 * i)
  }

  function PutEnt(m: Ram, f: nat, i: nat, w: Word): Ram
    requires f < PAGES && i < 1024
  {
    PutWord(m, f * PAGE + 4 * i, w)
  }

  /** Writing one word changes that word of that frame, and nothing in any other frame. */
  lemma PutEntFrame(m: Ram, f: nat, i: nat, w: Word)
    requires f < PAGES && i < 1024
    ensures Ent(PutEnt(m, f, i, w), f, i) == w
    ensures forall g, j :: 0 <= g < PAGES && 0 <= j < 1024 && (g != f || j != i) ==>
            Ent(PutEnt(m, f, i, w), g, j) == Ent(m, g, j)
    ensures forall x :: 0 <= x < MEM && x / PAGE != f ==> PutEnt(m, f, i, w)[x] == m[x]
  {
    PutWordSame(m, f * PAGE + 4 * i, w);
  }

  function ZeroFrame(m: Ram, f: nat): Ram
    requires f < PAGES
  {
    seq(MEM, x requires 0 <= x < MEM => if x / PAGE == f then 0 else m[x])
  }

  lemma ZeroFrameEnts(m: Ram, f: nat)
    requires f < PAGES
    ensures forall j :: 0 <= j < 1024 ==> Ent(ZeroFrame(m, f), f, j) == 0
    ensures forall g, j :: 0 <= g < PAGES && 0 <= j < 1024 && g != f ==> Ent(ZeroFrame(m, f), g, j) == Ent(m, g, j)
  {
  }

  function CopyFrame(m: Ram, src: nat, dst: nat): Ram
    requires src < PAGES && dst < PAGES
  {
    seq(MEM, x requires 0 <= x < MEM => if x / PAGE == dst then m[src * PAGE + x % PAGE] else m[x])
  }

  lemma CopyFrameEnts(m: Ram, src: nat, dst: nat)
    requires src < PAGES && dst < PAGES
    ensures forall j :: 0 <= j < 1024 ==> Ent(CopyFrame(m, src, dst), dst, j) == Ent(m, src, j)
    ensures forall g, j :: 0 <= g < PAGES && 0 <= j < 1024 && g != dst ==>
            Ent(CopyFrame(m, src, dst), g, j) == Ent(m, g, j)
  {
  }
}
