/**
 The checksum register as the 32-bit machine word the scripts compute with.  Shifting a constant word is
 plain evaluation, which is what a concrete error pattern needs.
 */
module MachineWord {
  import opened BitStrings
  import opened Bytes
  import opened Crc32c

  function Half(v: bv32): bv32 {
    v >> 1
  }

  function ByteShift(v: bv32): bv32 {
    v >> 8
  }

  predicate Odd(v: bv32) {
    v & 1 == 1
  }

  function XorWord(v: bv32, w: bv32): bv32 {
    v ^ w
  }

  /** The `k` lowest bits of a machine word, lowest first. */
  function Bits(v: bv32, k: nat): (r: seq<bool>)
    ensures |r| == k
    decreases k
  {
    if k == 0 then [] else [Odd(v)] + Bits(Half(v), k - 1)
  }

  /** `v` shifted right `k` times by one. */
  function ShiftRight(v: bv32, k: nat): bv32
    decreases k
  {
    if k == 0 then v else ShiftRight(Half(v), k - 1)
  }

  lemma {:induction false} BitsConcat(v: bv32, j: nat, k: nat)
    ensures Bits(v, j + k) == Bits(v, j) + Bits(ShiftRight(v, j), k)
    decreases j
  {
    hide Half, Odd;
    if j > 0 {
      BitsConcat(Half(v), j - 1, k);
    }
  }

  lemma {:induction false} ShiftRightTwice(v: bv32, j: nat, k: nat)
    ensures ShiftRight(v, j + k) == ShiftRight(ShiftRight(v, j), k)
    decreases j
  {
    hide Half;
    if j > 0 {
      ShiftRightTwice(Half(v), j - 1, k);
    }
  }

  lemma HalfEight(v: bv32)
    ensures Half(Half(Half(Half(Half(Half(Half(Half(v)))))))) == ByteShift(v)
  {
  }

  lemma ShiftRightByte(v: bv32)
    ensures ShiftRight(v, 8) == ByteShift(v)
  {
    hide Half, ByteShift;
    HalfEight(v);
    ShiftRightTwice(v, 4, 4);
  }

  lemma FourByteShifts(v: bv32)
    ensures ByteShift(ByteShift(ByteShift(ByteShift(v)))) == 0
  {
  }

  lemma AllShiftedOut(v: bv32)
    ensures ShiftRight(v, 32) == 0
  {
    hide ShiftRight, ByteShift;
    var (a, b, c) := (ByteShift(v), ByteShift(ByteShift(v)), ByteShift(ByteShift(ByteShift(v))));
    FourByteShifts(v);
    ShiftRightByte(v);
    ShiftRightByte(a);
    ShiftRightByte(b);
    ShiftRightByte(c);
    ShiftRightTwice(v, 8, 24);
    ShiftRightTwice(a, 8, 16);
    ShiftRightTwice(b, 8, 8);
  }

  lemma XorOnce(v: bv32, w: bv32)
    ensures Half(XorWord(v, w)) == XorWord(Half(v), Half(w))
    ensures Odd(XorWord(v, w)) == (Odd(v) != Odd(w))
  {
  }

  lemma {:induction false} BitsXor(v: bv32, w: bv32, k: nat)
    ensures Bits(XorWord(v, w), k) == Xor(Bits(v, k), Bits(w, k))
    decreases k
  {
    hide Half, Odd, XorWord;
    if k > 0 {
      XorOnce(v, w);
      BitsXor(Half(v), Half(w), k - 1);
    }
  }

  lemma BitsShifted(v: bv32)
    ensures Bits(Half(v), 32) == Bits(v, 32)[1..] + [false]
  {
    hide Half, Odd, ShiftRight;
    BitsConcat(v, 32, 1);
    AllShiftedOut(v);
    LastBit();
    assert Bits(v, 33)[1..] == Bits(Half(v), 32);
  }

  lemma LastBit()
    ensures Bits(0, 1) == [false]
  {
    assert !Odd(0);
  }

  lemma PolynomialByte(v: bv32, e: nat)
    requires (v, e) in {(0x82F6_3B78, 31), (0x82_F63B, 23), (0x82F6, 15), (0x82, 7)}
    ensures Bits(v, 8) == seq(8, i => HasTerm(e - i))
  {
  }

  lemma PolynomialBits()
    ensures Bits(0x82F6_3B78, 32) == ReflectedPolynomial()
  {
    hide Bits, ShiftRight;
    PolynomialByte(0x82F6_3B78, 31);
    PolynomialByte(0x82_F63B, 23);
    PolynomialByte(0x82F6, 15);
    PolynomialByte(0x82, 7);
    ShiftRightByte(0x82F6_3B78);
    ShiftRightByte(0x82_F63B);
    ShiftRightByte(0x82F6);
    BitsConcat(0x82F6_3B78, 8, 24);
    BitsConcat(0x82_F63B, 8, 16);
    BitsConcat(0x82F6, 8, 8);
  }

  /** The lowest eight bits of `v` are those of the byte `b`. */
  predicate SameByte(v: bv32, b: byte) {
    && (v & 1 == 1) == (b % 2 == 1)
    && (v & 2 == 2) == (b / 2 % 2 == 1)
    && (v & 4 == 4) == (b / 4 % 2 == 1)
    && (v & 8 == 8) == (b / 8 % 2 == 1)
    && (v & 16 == 16) == (b / 16 % 2 == 1)
    && (v & 32 == 32) == (b / 32 % 2 == 1)
    && (v & 64 == 64) == (b / 64 % 2 == 1)
    && (v & 128 == 128) == (b / 128 % 2 == 1)
  }

  /** The bit of weight `w` comes down one place at a time. */
  lemma OddHalves(v: bv32)
    ensures Odd(v) == (v & 1 == 1)
    ensures Odd(Half(v)) == (v & 2 == 2)
    ensures Odd(Half(Half(v))) == (v & 4 == 4)
    ensures Odd(Half(Half(Half(v)))) == (v & 8 == 8)
  {
  }

  lemma OddHalvesHigh(v: bv32)
    ensures var u := Half(Half(Half(Half(v))));
            && Odd(u) == (v & 16 == 16)
            && Odd(Half(u)) == (v & 32 == 32)
            && Odd(Half(Half(u))) == (v & 64 == 64)
            && Odd(Half(Half(Half(u)))) == (v & 128 == 128)
  {
  }

  lemma NatBitsPair(n: nat, k: nat)
    ensures NatBits(n, k + 2) == [n % 2 == 1, n / 2 % 2 == 1] + NatBits(n / 4, k)
  {
    assert n / 2 / 2 == n / 4;
    assert NatBits(n / 2, k + 1) == [n / 2 % 2 == 1] + NatBits(n / 4, k);
  }

  lemma Quarter(n: nat)
    ensures n / 4 / 2 == n / 8 && n / 4 / 4 == n / 16
  {
  }

  lemma NibbleBits(n: nat, k: nat)
    ensures NatBits(n, k + 4) == [n % 2 == 1, n / 2 % 2 == 1, n / 4 % 2 == 1, n / 8 % 2 == 1] + NatBits(n / 16, k)
  {
    hide NatBits;
    Quarter(n);
    NatBitsPair(n, k + 2);
    NatBitsPair(n / 4, k);
  }

  lemma Sixteenth(b: byte)
    ensures b / 16 / 2 == b / 32 && b / 16 / 4 == b / 64 && b / 16 / 8 == b / 128
  {
  }

  lemma NibbleOf(v: bv32)
    ensures Bits(v, 4) == [Odd(v), Odd(Half(v)), Odd(Half(Half(v))), Odd(Half(Half(Half(v))))]
    ensures ShiftRight(v, 4) == Half(Half(Half(Half(v))))
  {
    hide Odd, Half;
    var (a, b, c) := (Half(v), Half(Half(v)), Half(Half(Half(v))));
    assert Bits(c, 1) == [Odd(c)];
    assert Bits(b, 2) == [Odd(b), Odd(c)];
    assert Bits(a, 3) == [Odd(a), Odd(b), Odd(c)];
    assert ShiftRight(c, 1) == Half(c) && ShiftRight(b, 2) == Half(c) && ShiftRight(a, 3) == Half(c);
  }

  lemma ByteOdds(v: bv32, b: byte)
    requires SameByte(v, b)
    ensures [Odd(v), Odd(Half(v)), Odd(Half(Half(v))), Odd(Half(Half(Half(v))))]
         == [b % 2 == 1, b / 2 % 2 == 1, b / 4 % 2 == 1, b / 8 % 2 == 1]
    ensures var u := Half(Half(Half(Half(v))));
            && [Odd(u), Odd(Half(u)), Odd(Half(Half(u))), Odd(Half(Half(Half(u))))]
            == [b / 16 % 2 == 1, b / 32 % 2 == 1, b / 64 % 2 == 1, b / 128 % 2 == 1]
  {
    hide Odd, Half;
    OddHalves(v);
    OddHalvesHigh(v);
  }

  lemma ByteAt(v: bv32, b: byte)
    requires SameByte(v, b)
    ensures Bits(v, 8) == ByteBits(b)
  {
    hide Odd, Half, Bits, ShiftRight, NatBits, SameByte;
    var u := Half(Half(Half(Half(v))));
    ByteOdds(v, b);
    NibbleOf(v);
    NibbleOf(u);
    BitsConcat(v, 4, 4);
    NibbleBits(b, 4);
    NibbleBits(b / 16, 0);
    Sixteenth(b);
    NoBits(b / 16 / 16);
  }

  lemma NoBits(n: nat)
    ensures NatBits(n, 0) == []
  {
  }

  /** One turn of the inner loop. */
  function Shift(v: bv32): bv32 {
    if v & 1 == 0 then v >> 1 else (v >> 1) ^ 0x82F6_3B78
  }

  lemma ShiftForm(v: bv32)
    ensures Shift(v) == if Odd(v) then XorWord(Half(v), 0x82F6_3B78) else Half(v)
  {
    assert v & 1 == 0 || v & 1 == 1;
  }

  lemma ShiftIsStep(v: bv32)
    ensures Bits(Shift(v), 32) == Step(Castagnoli(), Bits(v, 32), false)
  {
    hide Half, Odd, XorWord, Shift, Castagnoli;
    ShiftForm(v);
    BitsShifted(v);
    BitsXor(Half(v), 0x82F6_3B78, 32);
    PolynomialBits();
    ReflectedIsCastagnoli();
  }
}
