/** The free map: one bit per block, BPB bits to a bitmap block. */
module Bitmap {
  import opened Prelude
  import opened Blocks

  const BPB: nat := 4096

  /** 1 << k in a byte. */
  function Mask(k: nat): bv8
    requires k < 8
  {
    (1 as bv8) << k
  }

  predicate Meets(x: bv8, m: bv8) {
    x & m != 0
  }

  function Or(x: bv8, m: bv8): bv8 {
    x | m
  }

  function AndNot(x: bv8, m: bv8): bv8 {
    x & !m
  }

  lemma MaskArithmetic(x: bv8, m: bv8, n: bv8)
    requires Meets(n, n) && (Meets(m, n) ==> m == n)
    ensures Meets(Or(x, m), n) <==> m == n || Meets(x, n)
    ensures Meets(AndNot(x, m), n) <==> m != n && Meets(x, n)
  {
  }

  lemma MasksDiffer(k: nat, j: nat)
    requires k < 8 && j < 8
    ensures Meets(Mask(j), Mask(j)) && (k != j ==> !Meets(Mask(k), Mask(j)) && Mask(k) != Mask(j))
  {
  }

  /** A byte as the processor has it. */
  function Bits(x: Byte): bv8 {
    x as bv8
  }

  function FromBits(x: bv8): Byte {
    x as int
  }

  lemma BitsRoundTrip(x: bv8)
    ensures Bits(FromBits(x)) == x
  {
  }

  /** (x & m) != 0, x | m and x & ~m with m = 1 << k */
  predicate TestBit(x: Byte, k: nat)
    requires k < 8
  {
    Meets(Bits(x), Mask(k))
  }

  function OrBit(x: Byte, k: nat): Byte
    requires k < 8
  {
    FromBits(Or(Bits(x), Mask(k)))
  }

  function AndNotBit(x: Byte, k: nat): Byte
    requires k < 8
  {
    FromBits(AndNot(Bits(x), Mask(k)))
  }

  lemma BitChanges(x: Byte, k: nat, j: nat)
    requires k < 8 && j < 8
    ensures TestBit(OrBit(x, k), j) <==> j == k || TestBit(x, j)
    ensures TestBit(AndNotBit(x, k), j) <==> j != k && TestBit(x, j)
  {
    hide Mask, Bits, FromBits, Meets, Or, AndNot;
    BitsRoundTrip(Or(Bits(x), Mask(k)));
    BitsRoundTrip(AndNot(Bits(x), Mask(k)));
    MasksDiffer(k, j);
    MaskArithmetic(Bits(x), Mask(k), Mask(j));
  }

  predicate GetBit(b: Block, i: nat)
    requires i < BPB
  {
    TestBit(b[i / 8], i % 8)
  }

  function SetBit(b: Block, i: nat): Block
    requires i < BPB
  {
    b[i / 8 := OrBit(b[i / 8], i % 8)]
  }

  function ClearBit(b: Block, i: nat): Block
    requires i < BPB
  {
    b[i / 8 := AndNotBit(b[i / 8], i % 8)]
  }

  lemma SetBitChanges(b: Block, i: nat, j: nat)
    requires i < BPB && j < BPB
    ensures GetBit(SetBit(b, i), j) <==> j == i || GetBit(b, j)
  {
    hide TestBit, OrBit, AndNotBit;
    BitChanges(b[i / 8], i % 8, j % 8);
  }

  lemma ClearBitChanges(b: Block, i: nat, j: nat)
    requires i < BPB && j < BPB
    ensures GetBit(ClearBit(b, i), j) <==> j != i && GetBit(b, j)
  {
    hide TestBit, OrBit, AndNotBit;
    BitChanges(b[i / 8], i % 8, j % 8);
  }

  // ----- The numbering of the bits, in integers -----

  function Pow2(k: nat): (p: nat)
    ensures p >= 1
  {
    if k == 0 then 1 else 2 * Pow2(k - 1)
  }

  lemma HalfAgain(x: nat, k: nat)
    requires 0 < k < 8
    ensures x / Pow2(k) == x / 2 / Pow2(k - 1)
  {
    assert Pow2(0) == 1 && Pow2(1) == 2 && Pow2(2) == 4 && Pow2(3) == 8 && Pow2(4) == 16;
    assert Pow2(5) == 32 && Pow2(6) == 64 && Pow2(7) == 128;
    match k
    case 1 =>
    case 2 =>
    case 3 =>
    case 4 =>
    case 5 =>
    case 6 =>
    case 7 =>
  }

  lemma ShiftIsHalf(x: bv8)
    ensures FromBits(x >> 1) == FromBits(x) / 2
  {
  }

  lemma LowestBit(x: bv8)
    ensures Meets(x, Mask(0)) <==> FromBits(x) % 2 == 1
  {
  }

  lemma MaskShifts(x: bv8, k: nat)
    requires 0 < k < 8
    ensures Meets(x >> 1, Mask(k - 1)) <==> Meets(x, Mask(k))
  {
  }

  lemma {:induction false} BitIsDigit(x: bv8, k: nat)
    requires k < 8
    ensures Meets(x, Mask(k)) <==> FromBits(x) / Pow2(k) % 2 == 1
  {
    hide Meets, Mask, FromBits;
    if k == 0 {
      LowestBit(x);
    } else {
      BitIsDigit(x >> 1, k - 1);
      MaskShifts(x, k);
      ShiftIsHalf(x);
      HalfAgain(FromBits(x), k);
    }
  }

  lemma {:induction false} MaskIsPow2(k: nat)
    requires k < 8
    ensures FromBits(Mask(k)) == Pow2(k)
  {
    if k > 0 {
      MaskIsPow2(k - 1);
      assert Mask(k - 1) == Mask(k) >> 1 && FromBits(Mask(k)) % 2 == 0;
      ShiftIsHalf(Mask(k));
    }
  }

  lemma OneBit(x: bv8, k: nat)
    requires k < 8
    ensures Meets(x, Mask(k)) ==> x & Mask(k) == Mask(k)
  {
  }

  lemma AddsMask(x: bv8, m: bv8)
    requires !Meets(x, m)
    ensures FromBits(Or(x, m)) == FromBits(x) + FromBits(m)
  {
  }

  lemma TakesMask(x: bv8, m: bv8)
    requires x & m == m
    ensures FromBits(AndNot(x, m)) == FromBits(x) - FromBits(m)
  {
  }

  lemma KeepsMask(x: bv8, m: bv8)
    ensures x & m == m ==> Or(x, m) == x
    ensures !Meets(x, m) ==> AndNot(x, m) == x
  {
  }

  lemma DigitChanges(x: Byte, k: nat)
    requires k < 8
    ensures TestBit(x, k) <==> x / Pow2(k) % 2 == 1
    ensures OrBit(x, k) == x + if TestBit(x, k) then 0 else Pow2(k)
    ensures AndNotBit(x, k) == x - if TestBit(x, k) then Pow2(k) else 0
  {
    hide Mask, Bits, FromBits, Meets, Or, AndNot;
    var v := Bits(x);
    ByteRoundTrip(x);
    BitIsDigit(v, k);
    MaskIsPow2(k);
    OneBit(v, k);
    KeepsMask(v, Mask(k));
    if TestBit(x, k) {
      TakesMask(v, Mask(k));
    } else {
      AddsMask(v, Mask(k));
    }
  }

  /** Bit i of a block is digit i % 8 of byte i / 8, counted from the lowest; setting and clearing it add and
      take away that power of two, and change no other byte. */
  lemma BitNumbering(b: Block, i: nat)
    requires i < BPB
    ensures GetBit(b, i) <==> b[i / 8] / Pow2(i % 8) % 2 == 1
    ensures forall n :: 0 <= n < BSIZE ==>
              SetBit(b, i)[n] == b[n] + if n == i / 8 && !GetBit(b, i) then Pow2(i % 8) else 0
    ensures forall n :: 0 <= n < BSIZE ==>
              ClearBit(b, i)[n] == b[n] - if n == i / 8 && GetBit(b, i) then Pow2(i % 8) else 0
  {
    hide TestBit, OrBit, AndNotBit;
    DigitChanges(b[i / 8], i % 8);
  }

  lemma NextByte(v: bv8)
    requires FromBits(v) < 255
    ensures FromBits(v + 1) == FromBits(v) + 1
  {
  }

  lemma {:induction false} ByteRoundTrip(x: Byte)
    ensures FromBits(Bits(x)) == x
  {
    hide Bits, FromBits;
    BitsRoundTrip(0);
    if x == 0 {
      ZeroByte();
    } else {
      ByteRoundTrip(x - 1);
      var v := Bits(x - 1);
      NextByte(v);
      BitsRoundTrip(v + 1);
    }
  }

  lemma ZeroByte()
    ensures FromBits(0) == 0
  {
  }
}
