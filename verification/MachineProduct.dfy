/** Products of residues modulo the Castagnoli polynomial, on 32-bit machine words. */
module MachineProduct {
  import opened BitStrings
  import opened Crc32c
  import opened MachineWord
  import opened Residue

  /** One turn of Horner's rule, with the lowest bit of `a`. */
  function Turn(a: bv32, b: bv32, acc: bv32): bv32 {
    if a & 1 == 0 then Shift(acc) else Shift(acc) ^ b
  }

  function MulByte(a: bv32, b: bv32, acc: bv32): bv32 {
    Turn(a >> 7, b, Turn(a >> 6, b, Turn(a >> 5, b, Turn(a >> 4, b,
      Turn(a >> 3, b, Turn(a >> 2, b, Turn(a >> 1, b, Turn(a, b, acc))))))))
  }

  function Mul(a: bv32, b: bv32): bv32 {
    MulByte(a >> 24, b, MulByte(a >> 16, b, MulByte(a >> 8, b, MulByte(a, b, 0))))
  }

  function MulBits(a: bv32, b: bv32, acc: bv32, k: nat): bv32
    decreases k
  {
    if k == 0 then acc else MulBits(Half(a), b, Turn(a, b, acc), k - 1)
  }

  lemma TurnForm(a: bv32, b: bv32, acc: bv32)
    ensures Turn(a, b, acc) == if Odd(a) then XorWord(Shift(acc), b) else Shift(acc)
  {
    assert a & 1 == 0 || a & 1 == 1;
  }

  lemma TurnIsHorner(a: bv32, b: bv32, acc: bv32)
    ensures Bits(Turn(a, b, acc), 32)
         == Xor(TimesX(Castagnoli(), Bits(acc, 32)), Masked(Odd(a), Bits(b, 32)))
  {
    hide Turn, Odd, Shift, XorWord, Bits, Castagnoli, Step;
    TurnForm(a, b, acc);
    ShiftIsStep(acc);
    BitsXor(Shift(acc), b, 32);
    var w := Bits(Shift(acc), 32);
    assert Xor(w, Zeros(32)) == w;
  }

  lemma {:induction false} MulBitsIsHorner(a: bv32, b: bv32, acc: bv32, k: nat)
    ensures Bits(MulBits(a, b, acc, k), 32) == Horner(Castagnoli(), Bits(acc, 32), Bits(a, k), Bits(b, 32))
    decreases k
  {
    hide Turn, Odd, Half, Castagnoli, TimesX, Masked;
    if k > 0 {
      TurnIsHorner(a, b, acc);
      MulBitsIsHorner(Half(a), b, Turn(a, b, acc), k - 1);
      assert Bits(a, k)[1..] == Bits(Half(a), k - 1);
    }
  }

  lemma Halves(a: bv32)
    ensures Half(a) == a >> 1
    ensures Half(a >> 1) == a >> 2
    ensures Half(a >> 2) == a >> 3
    ensures Half(a >> 3) == a >> 4
    ensures Half(a >> 4) == a >> 5
    ensures Half(a >> 5) == a >> 6
    ensures Half(a >> 6) == a >> 7
  {
  }

  lemma MulByteIsBits(a: bv32, b: bv32, acc: bv32)
    ensures MulByte(a, b, acc) == MulBits(a, b, acc, 8)
  {
    hide Turn, Half;
    Halves(a);
    var c1 := Turn(a, b, acc);
    var c2 := Turn(a >> 1, b, c1);
    var c3 := Turn(a >> 2, b, c2);
    var c4 := Turn(a >> 3, b, c3);
    var c5 := Turn(a >> 4, b, c4);
    var c6 := Turn(a >> 5, b, c5);
    var c7 := Turn(a >> 6, b, c6);
    assert MulBits(a, b, acc, 8) == MulBits(a >> 1, b, c1, 7);
    assert MulBits(a >> 1, b, c1, 7) == MulBits(a >> 2, b, c2, 6);
    assert MulBits(a >> 2, b, c2, 6) == MulBits(a >> 3, b, c3, 5);
    assert MulBits(a >> 3, b, c3, 5) == MulBits(a >> 4, b, c4, 4);
    assert MulBits(a >> 4, b, c4, 4) == MulBits(a >> 5, b, c5, 3);
    assert MulBits(a >> 5, b, c5, 3) == MulBits(a >> 6, b, c6, 2);
    assert MulBits(a >> 6, b, c6, 2) == MulBits(a >> 7, b, c7, 1);
  }

  lemma MulByteIsHorner(a: bv32, b: bv32, acc: bv32)
    ensures Bits(MulByte(a, b, acc), 32) == Horner(Castagnoli(), Bits(acc, 32), Bits(a, 8), Bits(b, 32))
  {
    hide MulByte, MulBits, Bits, Horner, Castagnoli;
    MulByteIsBits(a, b, acc);
    MulBitsIsHorner(a, b, acc, 8);
  }

  lemma FourBytes(a: bv32)
    ensures Bits(a, 32) == Bits(a, 8) + (Bits(a >> 8, 8) + (Bits(a >> 16, 8) + Bits(a >> 24, 8)))
  {
    hide Bits, ShiftRight;
    BytesDown(a);
    ShiftRightByte(a);
    ShiftRightByte(a >> 8);
    ShiftRightByte(a >> 16);
    BitsConcat(a, 8, 24);
    BitsConcat(a >> 8, 8, 16);
    BitsConcat(a >> 16, 8, 8);
  }

  lemma BytesDown(a: bv32)
    ensures ByteShift(a) == a >> 8 && ByteShift(a >> 8) == a >> 16 && ByteShift(a >> 16) == a >> 24
  {
  }

  lemma {:induction false} NoBitsSet(k: nat)
    ensures Bits(0, k) == Zeros(k)
    decreases k
  {
    if k > 0 {
      assert !Odd(0) && Half(0) == 0;
      NoBitsSet(k - 1);
    }
  }

  /** The machine product is the product of the polynomials. */
  lemma MulIsProduct(a: bv32, b: bv32)
    ensures Bits(Mul(a, b), 32) == Product(Castagnoli(), Bits(a, 32), Bits(b, 32))
  {
    hide MulByte, Bits, Horner, Castagnoli;
    var (p, r) := (Castagnoli(), Bits(b, 32));
    var (s0, s1, s2, s3) := (Bits(a, 8), Bits(a >> 8, 8), Bits(a >> 16, 8), Bits(a >> 24, 8));
    var c0 := MulByte(a, b, 0);
    var c1 := MulByte(a >> 8, b, c0);
    var c2 := MulByte(a >> 16, b, c1);
    NoBitsSet(32);
    FourBytes(a);
    MulByteIsHorner(a, b, 0);
    MulByteIsHorner(a >> 8, b, c0);
    MulByteIsHorner(a >> 16, b, c1);
    MulByteIsHorner(a >> 24, b, c2);
    HornerConcat(p, Zeros(32), s0, s1 + (s2 + s3), r);
    HornerConcat(p, Bits(c0, 32), s1, s2 + s3, r);
    HornerConcat(p, Bits(c1, 32), s2, s3, r);
  }
}
