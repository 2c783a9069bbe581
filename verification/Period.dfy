/**
 The order of x modulo the Castagnoli polynomial is 2^31 - 1: repeated squaring leads from x back to x after
 31 squarings, and 2^31 - 1 has no proper divisor.
 */
module Period {
  import opened BitStrings
  import opened Bytes
  import opened Crc32c
  import opened MachineWord
  import opened MachineProduct
  import opened Mersenne
  import opened Residue
  import opened Unnoticed

  /** x^n. */
  function Power(n: nat): Word {
    TimesPower(Castagnoli(), One(), n)
  }

  lemma Square(n: nat, v: bv32, w: bv32)
    requires Power(n) == Bits(v, 32) && Mul(v, v) == w
    ensures Power(2 * n) == Bits(w, 32)
  {
    hide TimesPower, Product, One, Castagnoli, Mul, Bits;
    PowersMultiply(Castagnoli(), n, n);
    MulIsProduct(v, v);
  }

  lemma OneWord()
    ensures Bits(0x8000_0000, 32) == One()
  {
    hide Bits, ByteBits, MessageBits;
    var d: seq<byte> := [0, 0, 0, 0x80];
    ByteAt(0x8000_0000, 0);
    assert ByteShift(0x8000_0000) == 0x80_0000;
    ByteAt(0x80_0000, 0);
    assert ByteShift(0x80_0000) == 0x8000;
    ByteAt(0x8000, 0);
    assert ByteShift(0x8000) == 0x80;
    ByteAt(0x80, 0x80);
    WordBits(0x8000_0000, d);
    MessageOfFour(d);
    ByteValues();
  }

  lemma ByteValues()
    ensures ByteBits(0) == Zeros(8)
    ensures ByteBits(0x80) == Zeros(7) + [true]
  {
    hide NatBits;
    NibbleBits(0, 4);
    NibbleBits(0, 0);
    NibbleBits(0x80, 4);
    NibbleBits(8, 0);
    NoBits(0);
    assert 0x80 / 16 == 8 && 8 / 16 == 0;
  }

  lemma FirstPower()
    ensures Power(1) == Bits(0x4000_0000, 32)
  {
    hide TimesPower, TimesX, One, Castagnoli, Bits, Step;
    PowerFirst(Castagnoli(), One(), 0);
    PowerFirst(Castagnoli(), TimesX(Castagnoli(), One()), 0);
    OneWord();
    ShiftIsStep(0x8000_0000);
    assert Shift(0x8000_0000) == 0x4000_0000;
    StepIsTimesX(One());
  }

  lemma StepIsTimesX(r: Word)
    ensures TimesX(Castagnoli(), r) == Step(Castagnoli(), r, false)
  {
  }

  lemma Squares0()
    ensures Mul(0x4000_0000, 0x4000_0000) == 0x2000_0000
    ensures Mul(0x2000_0000, 0x2000_0000) == 0x0800_0000
    ensures Mul(0x0800_0000, 0x0800_0000) == 0x0080_0000
    ensures Mul(0x0080_0000, 0x0080_0000) == 0x0000_8000
  {
  }

  lemma Squares4()
    ensures Mul(0x0000_8000, 0x0000_8000) == 0x82F6_3B78
    ensures Mul(0x82F6_3B78, 0x82F6_3B78) == 0x6EA2_D55C
    ensures Mul(0x6EA2_D55C, 0x6EA2_D55C) == 0x18B8_EA18
    ensures Mul(0x18B8_EA18, 0x18B8_EA18) == 0x510A_C59A
  {
  }

  lemma Squares8()
    ensures Mul(0x510A_C59A, 0x510A_C59A) == 0xB82B_E955
    ensures Mul(0xB82B_E955, 0xB82B_E955) == 0xB8FD_B1E7
    ensures Mul(0xB8FD_B1E7, 0xB8FD_B1E7) == 0x88E5_6F72
    ensures Mul(0x88E5_6F72, 0x88E5_6F72) == 0x74C3_60A4
  {
  }

  lemma Squares12()
    ensures Mul(0x74C3_60A4, 0x74C3_60A4) == 0xE417_2B16
    ensures Mul(0xE417_2B16, 0xE417_2B16) == 0x0D65_762A
    ensures Mul(0x0D65_762A, 0x0D65_762A) == 0x35D7_3A62
    ensures Mul(0x35D7_3A62, 0x35D7_3A62) == 0x2846_1564
  {
  }

  lemma Squares16()
    ensures Mul(0x2846_1564, 0x2846_1564) == 0xBF45_5269
    ensures Mul(0xBF45_5269, 0xBF45_5269) == 0xE2EA_32DC
    ensures Mul(0xE2EA_32DC, 0xE2EA_32DC) == 0xFE77_40E6
    ensures Mul(0xFE77_40E6, 0xFE77_40E6) == 0xF946_610B
  {
  }

  lemma Squares20()
    ensures Mul(0xF946_610B, 0xF946_610B) == 0x3C20_4F8F
    ensures Mul(0x3C20_4F8F, 0x3C20_4F8F) == 0x5385_86E3
    ensures Mul(0x5385_86E3, 0x5385_86E3) == 0x5972_6915
    ensures Mul(0x5972_6915, 0x5972_6915) == 0x734D_5309
  {
  }

  lemma Squares24()
    ensures Mul(0x734D_5309, 0x734D_5309) == 0xBC1A_C763
    ensures Mul(0xBC1A_C763, 0xBC1A_C763) == 0x7D07_22CC
    ensures Mul(0x7D07_22CC, 0x7D07_22CC) == 0xD289_CABE
    ensures Mul(0xD289_CABE, 0xD289_CABE) == 0xE94C_A9BC
  {
  }

  lemma Squares28()
    ensures Mul(0xE94C_A9BC, 0xE94C_A9BC) == 0x05B7_4F3F
    ensures Mul(0x05B7_4F3F, 0x05B7_4F3F) == 0xA51E_1F42
    ensures Mul(0xA51E_1F42, 0xA51E_1F42) == 0x4000_0000
  {
  }

  lemma Powers0()
    requires Power(1) == Bits(0x4000_0000, 32)
    ensures Power(2) == Bits(0x2000_0000, 32)
    ensures Power(4) == Bits(0x0800_0000, 32)
    ensures Power(8) == Bits(0x0080_0000, 32)
    ensures Power(16) == Bits(0x0000_8000, 32)
  {
    hide Power, Bits, Mul;
    Squares0();
    Square(1, 0x4000_0000, 0x2000_0000);
    Square(2, 0x2000_0000, 0x0800_0000);
    Square(4, 0x0800_0000, 0x0080_0000);
    Square(8, 0x0080_0000, 0x0000_8000);
  }

  lemma Powers4()
    requires Power(16) == Bits(0x0000_8000, 32)
    ensures Power(32) == Bits(0x82F6_3B78, 32)
    ensures Power(64) == Bits(0x6EA2_D55C, 32)
    ensures Power(128) == Bits(0x18B8_EA18, 32)
    ensures Power(256) == Bits(0x510A_C59A, 32)
  {
    hide Power, Bits, Mul;
    Squares4();
    Square(16, 0x0000_8000, 0x82F6_3B78);
    Square(32, 0x82F6_3B78, 0x6EA2_D55C);
    Square(64, 0x6EA2_D55C, 0x18B8_EA18);
    Square(128, 0x18B8_EA18, 0x510A_C59A);
  }

  lemma Powers8()
    requires Power(256) == Bits(0x510A_C59A, 32)
    ensures Power(512) == Bits(0xB82B_E955, 32)
    ensures Power(1024) == Bits(0xB8FD_B1E7, 32)
    ensures Power(2048) == Bits(0x88E5_6F72, 32)
    ensures Power(4096) == Bits(0x74C3_60A4, 32)
  {
    hide Power, Bits, Mul;
    Squares8();
    Square(256, 0x510A_C59A, 0xB82B_E955);
    Square(512, 0xB82B_E955, 0xB8FD_B1E7);
    Square(1024, 0xB8FD_B1E7, 0x88E5_6F72);
    Square(2048, 0x88E5_6F72, 0x74C3_60A4);
  }

  lemma Powers12()
    requires Power(4096) == Bits(0x74C3_60A4, 32)
    ensures Power(8192) == Bits(0xE417_2B16, 32)
    ensures Power(16384) == Bits(0x0D65_762A, 32)
    ensures Power(32768) == Bits(0x35D7_3A62, 32)
    ensures Power(65536) == Bits(0x2846_1564, 32)
  {
    hide Power, Bits, Mul;
    Squares12();
    Square(4096, 0x74C3_60A4, 0xE417_2B16);
    Square(8192, 0xE417_2B16, 0x0D65_762A);
    Square(16384, 0x0D65_762A, 0x35D7_3A62);
    Square(32768, 0x35D7_3A62, 0x2846_1564);
  }

  lemma Powers16()
    requires Power(65536) == Bits(0x2846_1564, 32)
    ensures Power(131072) == Bits(0xBF45_5269, 32)
    ensures Power(262144) == Bits(0xE2EA_32DC, 32)
    ensures Power(524288) == Bits(0xFE77_40E6, 32)
    ensures Power(1048576) == Bits(0xF946_610B, 32)
  {
    hide Power, Bits, Mul;
    Squares16();
    Square(65536, 0x2846_1564, 0xBF45_5269);
    Square(131072, 0xBF45_5269, 0xE2EA_32DC);
    Square(262144, 0xE2EA_32DC, 0xFE77_40E6);
    Square(524288, 0xFE77_40E6, 0xF946_610B);
  }

  lemma Powers20()
    requires Power(1048576) == Bits(0xF946_610B, 32)
    ensures Power(2097152) == Bits(0x3C20_4F8F, 32)
    ensures Power(4194304) == Bits(0x5385_86E3, 32)
    ensures Power(8388608) == Bits(0x5972_6915, 32)
    ensures Power(16777216) == Bits(0x734D_5309, 32)
  {
    hide Power, Bits, Mul;
    Squares20();
    Square(1048576, 0xF946_610B, 0x3C20_4F8F);
    Square(2097152, 0x3C20_4F8F, 0x5385_86E3);
    Square(4194304, 0x5385_86E3, 0x5972_6915);
    Square(8388608, 0x5972_6915, 0x734D_5309);
  }

  lemma Powers24()
    requires Power(16777216) == Bits(0x734D_5309, 32)
    ensures Power(33554432) == Bits(0xBC1A_C763, 32)
    ensures Power(67108864) == Bits(0x7D07_22CC, 32)
    ensures Power(134217728) == Bits(0xD289_CABE, 32)
    ensures Power(268435456) == Bits(0xE94C_A9BC, 32)
  {
    hide Power, Bits, Mul;
    Squares24();
    Square(16777216, 0x734D_5309, 0xBC1A_C763);
    Square(33554432, 0xBC1A_C763, 0x7D07_22CC);
    Square(67108864, 0x7D07_22CC, 0xD289_CABE);
    Square(134217728, 0xD289_CABE, 0xE94C_A9BC);
  }

  lemma Powers28()
    requires Power(268435456) == Bits(0xE94C_A9BC, 32)
    ensures Power(536870912) == Bits(0x05B7_4F3F, 32)
    ensures Power(1073741824) == Bits(0xA51E_1F42, 32)
    ensures Power(2147483648) == Bits(0x4000_0000, 32)
  {
    hide Power, Bits, Mul;
    Squares28();
    Square(268435456, 0xE94C_A9BC, 0x05B7_4F3F);
    Square(536870912, 0x05B7_4F3F, 0xA51E_1F42);
    Square(1073741824, 0xA51E_1F42, 0x4000_0000);
  }

  /** x^(2^31) == x. */
  lemma FullCircle()
    ensures Power(2147483648) == Power(1)
  {
    hide Power, Bits;
    FirstPower();
    Powers0();
    Powers4();
    Powers8();
    Powers12();
    Powers16();
    Powers20();
    Powers24();
    Powers28();
  }

  /** Multiplying 2^31 - 1 times by x changes no word. */
  lemma ComesBack(r: Word)
    ensures TimesPower(Castagnoli(), r, M) == r
  {
    hide TimesPower, Product, One, Castagnoli;
    var p := Castagnoli();
    FullCircle();
    PowerIsProduct(p, 2_147_483_648, r);
    PowerIsProduct(p, 1, r);
    PowerAdds(p, r, M, 1);
    PowerInjective(p, TimesPower(p, r, M), r, 1);
  }

  lemma PowerDifference(a: nat, c: nat)
    requires a <= c
    ensures Power(c) == Power(a) <==> Power(c - a) == One()
  {
    hide TimesPower, One, Castagnoli;
    var p := Castagnoli();
    PowerAdds(p, One(), c - a, a);
    if Power(c) == Power(a) {
      PowerInjective(p, Power(c - a), One(), a);
    }
  }

  ghost predicate IsOne(n: nat) {
    Power(n) == One()
  }

  lemma OnesClosed()
    ensures Closed((n: nat) => IsOne(n))
  {
    hide Power, One;
    var s := (n: nat) => IsOne(n);
    forall a: nat, c: nat | a <= c && s(a) && s(c)
      ensures s(c - a)
    {
      PowerDifference(a, c);
    }
  }

  lemma XIsNotOne()
    ensures Power(1) != One()
  {
    hide TimesPower, Castagnoli;
    PowerOfOne(Castagnoli(), 1);
    assert One()[31] && !(Zeros(30) + [true] + Zeros(1))[31];
  }

  lemma {:induction false} MultiplesAreOne(k: nat)
    ensures Power(M * k) == One()
    decreases k
  {
    hide TimesPower, One, Castagnoli;
    var p := Castagnoli();
    if k == 0 {
      PowerFirst(p, One(), 0);
    } else {
      MultiplesAreOne(k - 1);
      assert M * k == M * (k - 1) + M;
      PowerAdds(p, One(), M * (k - 1), M);
      ComesBack(One());
    }
  }

  /** The order of x is 2^31 - 1. */
  lemma OrderIff(n: nat)
    ensures Power(n) == One() <==> n % M == 0
  {
    hide Power, One;
    if Power(n) == One() {
      var s := (n: nat) => IsOne(n);
      OnesClosed();
      MultiplesAreOne(1);
      GcdIn(s, n, M);
      var i, j := GcdDivides(n, M);
      NoProperDivisor(Gcd(n, M), j);
      XIsNotOne();
      assert n == M * i;
    }
    if n % M == 0 {
      MultiplesAreOne(n / M);
    }
  }

  lemma SamePowerIff(a: nat, c: nat)
    ensures Power(a) == Power(c) <==> (a - c) % M == 0
  {
    hide Power, One;
    if a >= c {
      PowerDifference(c, a);
      OrderIff(a - c);
    } else {
      PowerDifference(a, c);
      OrderIff(c - a);
      assert (a - c) % M == 0 <==> (c - a) % M == 0;
    }
  }
}
