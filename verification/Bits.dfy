/** 32-bit words as rows of 32 flags. The bit-vector operators sit behind names, so that only the first few
    lemmas reason about bit vectors. */
module Bits {

  function Double(x: bv32): bv32 { x << 1 }

  function Or(w: bv32, x: bv32): bv32 { w | x }

  function AndNot(w: bv32, x: bv32): bv32 { w & !x }

  predicate Meets(w: bv32, x: bv32) { w & x != 0 }

  /** 1 << j. */
  function Mask(j: nat): bv32
    requires j < 32
  {
    if j == 0 then 1 else Double(Mask(j - 1))
  }

  predicate Test(w: bv32, j: nat)
    requires j < 32
  {
    Meets(w, Mask(j))
  }

  lemma DoubleApart(x: bv32, y: bv32)
    ensures !Meets(x, y) ==> !Meets(Double(x), Double(y))
    ensures !Meets(1, Double(y))
  {
  }

  lemma MeetsCommutes(x: bv32, y: bv32)
    ensures Meets(x, y) <==> Meets(y, x)
  {
  }

  lemma OrSame(w: bv32, x: bv32)
    requires x != 0
    ensures Meets(Or(w, x), x) && !Meets(AndNot(w, x), x)
  {
  }

  lemma OrOther(w: bv32, x: bv32, y: bv32)
    requires !Meets(x, y)
    ensures Meets(Or(w, x), y) == Meets(w, y)
  {
  }

  lemma AndNotOther(w: bv32, x: bv32, y: bv32)
    requires !Meets(x, y)
    ensures Meets(AndNot(w, x), y) == Meets(w, y)
  {
  }

  lemma MaskValues0()
    ensures Mask(0) == 0x1 && Mask(1) == 0x2 && Mask(2) == 0x4 && Mask(3) == 0x8
    ensures Mask(4) == 0x10 && Mask(5) == 0x20 && Mask(6) == 0x40 && Mask(7) == 0x80
  {
    assert Mask(0) == 0x1;
    assert Mask(1) == 0x2;
    assert Mask(2) == 0x4;
    assert Mask(3) == 0x8;
    assert Mask(4) == 0x10;
    assert Mask(5) == 0x20;
    assert Mask(6) == 0x40;
    assert Mask(7) == 0x80;
  }

  lemma MaskValues8()
    ensures Mask(8) == 0x100 && Mask(9) == 0x200 && Mask(10) == 0x400 && Mask(11) == 0x800
    ensures Mask(12) == 0x1000 && Mask(13) == 0x2000 && Mask(14) == 0x4000 && Mask(15) == 0x8000
  {
    MaskValues0();
    assert Mask(8) == 0x100;
    assert Mask(9) == 0x200;
    assert Mask(10) == 0x400;
    assert Mask(11) == 0x800;
    assert Mask(12) == 0x1000;
    assert Mask(13) == 0x2000;
    assert Mask(14) == 0x4000;
    assert Mask(15) == 0x8000;
  }

  lemma MaskValues16()
    ensures Mask(16) == 0x10000 && Mask(17) == 0x20000 && Mask(18) == 0x40000 && Mask(19) == 0x80000
    ensures Mask(20) == 0x100000 && Mask(21) == 0x200000 && Mask(22) == 0x400000 && Mask(23) == 0x800000
  {
    MaskValues8();
    assert Mask(16) == 0x10000;
    assert Mask(17) == 0x20000;
    assert Mask(18) == 0x40000;
    assert Mask(19) == 0x80000;
    assert Mask(20) == 0x100000;
    assert Mask(21) == 0x200000;
    assert Mask(22) == 0x400000;
    assert Mask(23) == 0x800000;
  }

  lemma MaskValues24()
    ensures Mask(24) == 0x1000000 && Mask(25) == 0x2000000 && Mask(26) == 0x4000000 && Mask(27) == 0x8000000
    ensures Mask(28) == 0x10000000 && Mask(29) == 0x20000000 && Mask(30) == 0x40000000 && Mask(31) == 0x80000000
  {
    MaskValues16();
    assert Mask(24) == 0x1000000;
    assert Mask(25) == 0x2000000;
    assert Mask(26) == 0x4000000;
    assert Mask(27) == 0x8000000;
    assert Mask(28) == 0x10000000;
    assert Mask(29) == 0x20000000;
    assert Mask(30) == 0x40000000;
    assert Mask(31) == 0x80000000;
  }

  lemma MaskNonzero(j: nat)
    requires j < 32
    ensures Mask(j) != 0
    decreases 32 - j
  {
    if j == 31 {
      MaskValues24();
    } else {
      MaskNonzero(j + 1);
      assert Mask(j + 1) == Double(Mask(j));
    }
  }

  /** Different bits have disjoint masks. */
  lemma {:induction false} MasksApart(a: nat, b: nat)
    requires a < b < 32
    ensures !Meets(Mask(a), Mask(b))
  {
    hide Meets, Double;
    DoubleApart(if a == 0 then 0 else Mask(a - 1), Mask(b - 1));
    if a > 0 {
      MasksApart(a - 1, b - 1);
    }
  }

  /** Or-ing a mask in sets that bit and no other; and-ing its complement clears it and no other. */
  lemma BitOps(w: bv32, a: nat, b: nat)
    requires a < 32 && b < 32
    ensures Test(Or(w, Mask(a)), b) <==> a == b || Test(w, b)
    ensures Test(AndNot(w, Mask(a)), b) <==> a != b && Test(w, b)
  {
    hide Mask, Meets, Or, AndNot;
    if a == b {
      MaskNonzero(a);
      OrSame(w, Mask(a));
    } else {
      if a < b {
        MasksApart(a, b);
      } else {
        MasksApart(b, a);
        MeetsCommutes(Mask(a), Mask(b));
      }
      OrOther(w, Mask(a), Mask(b));
      AndNotOther(w, Mask(a), Mask(b));
    }
  }

  lemma AllSet(w: bv32)
    requires w & 0x1 != 0 && w & 0x2 != 0 && w & 0x4 != 0 && w & 0x8 != 0 && w & 0x10 != 0 && w & 0x20 != 0
    requires w & 0x40 != 0 && w & 0x80 != 0
    requires w & 0x100 != 0 && w & 0x200 != 0 && w & 0x400 != 0 && w & 0x800 != 0 && w & 0x1000 != 0 && w & 0x2000 != 0
    requires w & 0x4000 != 0 && w & 0x8000 != 0
    requires w & 0x10000 != 0 && w & 0x20000 != 0 && w & 0x40000 != 0 && w & 0x80000 != 0 && w & 0x100000 != 0
    requires w & 0x200000 != 0 && w & 0x400000 != 0 && w & 0x800000 != 0
    requires w & 0x1000000 != 0 && w & 0x2000000 != 0 && w & 0x4000000 != 0 && w & 0x8000000 != 0 && w & 0x10000000 != 0
    requires w & 0x20000000 != 0 && w & 0x40000000 != 0 && w & 0x80000000 != 0
    ensures w == 0xFFFF_FFFF
  {
  }

  /** A word has a clear bit exactly when it is not all ones. */
  lemma SomeClear(w: bv32)
    ensures w != 0xFFFF_FFFF <==> exists j: nat :: j < 32 && !Test(w, j)
  {
    if forall j: nat :: j < 32 ==> Test(w, j) {
      FullWord(w);
    }
    if w == 0xFFFF_FFFF {
      forall j: nat | j < 32 ensures Test(w, j) {
        OnesMeet(Mask(j));
        MaskNonzero(j);
      }
    }
  }

  lemma OnesMeet(x: bv32)
    ensures x != 0 ==> Meets(0xFFFF_FFFF, x)
  {
  }

  lemma FullWord(w: bv32)
    requires forall j: nat :: j < 32 ==> Test(w, j)
    ensures w == 0xFFFF_FFFF
  {
    hide Mask;
    MaskValues0();
    MaskValues8();
    MaskValues16();
    MaskValues24();
    assert Test(w, 0);
    assert Test(w, 1);
    assert Test(w, 2);
    assert Test(w, 3);
    assert Test(w, 4);
    assert Test(w, 5);
    assert Test(w, 6);
    assert Test(w, 7);
    assert Test(w, 8);
    assert Test(w, 9);
    assert Test(w, 10);
    assert Test(w, 11);
    assert Test(w, 12);
    assert Test(w, 13);
    assert Test(w, 14);
    assert Test(w, 15);
    assert Test(w, 16);
    assert Test(w, 17);
    assert Test(w, 18);
    assert Test(w, 19);
    assert Test(w, 20);
    assert Test(w, 21);
    assert Test(w, 22);
    assert Test(w, 23);
    assert Test(w, 24);
    assert Test(w, 25);
    assert Test(w, 26);
    assert Test(w, 27);
    assert Test(w, 28);
    assert Test(w, 29);
    assert Test(w, 30);
    assert Test(w, 31);
    AllSet(w);
  }
}
