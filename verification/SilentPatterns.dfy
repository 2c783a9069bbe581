/**
 Error patterns across an edge of the stored word that no check can notice: one each for Manifests of 128
 bytes, records of 56 bytes and commit slots of 128 bytes, evaluated with machine products.
 */
module SilentPatterns {
  import opened Bytes
  import opened BitStrings
  import opened Crc32c
  import opened Checksummed
  import opened MachineProduct
  import opened MachineWord
  import opened Period
  import opened Residue
  import opened Unnoticed

  /** `bytes` at position `lo` of `n` bytes, zeros elsewhere. */
  function Pattern(n: nat, lo: nat, bytes: seq<byte>): (m: seq<byte>)
    requires lo + |bytes| <= n
    ensures |m| == n
  {
    ZeroBytes(lo) + bytes + ZeroBytes(n - lo - |bytes|)
  }

  /** The remainder of four bytes `d` followed by `r` zero bytes. */
  lemma BurstRemainder(k: nat, d: seq<byte>, r: nat)
    requires |d| == 4
    ensures Update(Zeros(32), ZeroBytes(k) + d + ZeroBytes(r))
         == TimesPower(Castagnoli(), MessageBits(d), 8 * (4 + r))
  {
    hide Feed, MessageBits, ZeroBytes, Castagnoli;
    var (p, bits) := (Castagnoli(), MessageBits(d));
    UpdateConcat(Zeros(32), ZeroBytes(k) + d, ZeroBytes(r));
    UpdateConcat(Zeros(32), ZeroBytes(k), d);
    ZeroBits(k);
    ZeroBits(r);
    FeedNothing(p, 8 * k);
    FeedAbsorbs(p, Zeros(32), bits);
    assert XorPrefix(Zeros(32), bits) == bits;
    FeedConcat(p, bits, Zeros(32), Zeros(8 * r));
    assert Zeros(32) + Zeros(8 * r) == Zeros(8 * (4 + r));
  }

  lemma SilentPattern(m: seq<byte>, offset: nat, k: nat, d: seq<byte>)
    requires offset + 4 <= |m| && k + 4 <= |m| && |d| == 4
    requires ZeroedField(m, offset) == Pattern(|m|, k, d)
    requires TimesPower(Castagnoli(), MessageBits(d), 8 * (|m| - k)) == MessageBits(m[offset..offset + 4])
    ensures Silent(m, offset)
  {
    hide MessageBits, Update, TimesPower, Castagnoli;
    BurstRemainder(k, d, |m| - k - 4);
  }

  /** A word times a power of x, on machine words. */
  lemma TimesWord(n: nat, u: bv32, v: bv32, w: bv32)
    requires Power(n) == Bits(u, 32) && Mul(u, v) == w
    ensures TimesPower(Castagnoli(), Bits(v, 32), n) == Bits(w, 32)
  {
    hide TimesPower, Product, One, Castagnoli, Mul, Bits;
    PowerIsProduct(Castagnoli(), n, Bits(v, 32));
    MulIsProduct(u, v);
  }

  lemma SmallPowers()
    ensures Power(16) == Bits(0x0000_8000, 32) && Power(32) == Bits(0x82F6_3B78, 32)
    ensures Power(64) == Bits(0x6EA2_D55C, 32) && Power(128) == Bits(0x18B8_EA18, 32)
    ensures Power(256) == Bits(0x510A_C59A, 32) && Power(512) == Bits(0xB82B_E955, 32)
  {
    hide Power, Bits;
    FirstPower();
    Powers0();
    Powers4();
    Powers8();
  }

  /** The remainder of 84 1A followed by 48 zero bytes. */
  lemma ManifestShift()
    ensures TimesPower(Castagnoli(), Bits(0x0000_1A84, 32), 400) == Bits(0x0000_5D99, 32)
  {
    hide TimesPower, Bits, Power, Castagnoli;
    var p := Castagnoli();
    SmallPowers();
    TimesWord(16, 0x0000_8000, 0x0000_1A84, 0xCEF5_7472);
    TimesWord(128, 0x18B8_EA18, 0xCEF5_7472, 0x3787_829A);
    PowerAdds(p, Bits(0x0000_1A84, 32), 16, 128);
    TimesWord(256, 0x510A_C59A, 0x3787_829A, 0x0000_5D99);
    PowerAdds(p, Bits(0x0000_1A84, 32), 144, 256);
  }

  /** The remainder of 11 23 followed by 30 zero bytes. */
  lemma RecordShift()
    ensures TimesPower(Castagnoli(), Bits(0x0000_2311, 32), 256) == Bits(0x421C_0000, 32)
  {
    hide TimesPower, Bits, Power, Castagnoli;
    var p := Castagnoli();
    SmallPowers();
    TimesWord(256, 0x510A_C59A, 0x0000_2311, 0x421C_0000);
  }

  /** The remainder of A1 B6 63 followed by 73 zero bytes. */
  lemma SlotShift()
    ensures TimesPower(Castagnoli(), Bits(0x0063_B6A1, 32), 608) == Bits(0x4B00_0000, 32)
  {
    hide TimesPower, Bits, Power, Castagnoli;
    var p := Castagnoli();
    SmallPowers();
    TimesWord(32, 0x82F6_3B78, 0x0063_B6A1, 0x27CB_FD59);
    TimesWord(64, 0x6EA2_D55C, 0x27CB_FD59, 0xCD0E_5B4F);
    PowerAdds(p, Bits(0x0063_B6A1, 32), 32, 64);
    TimesWord(512, 0xB82B_E955, 0xCD0E_5B4F, 0x4B00_0000);
    PowerAdds(p, Bits(0x0063_B6A1, 32), 96, 512);
  }

  lemma ManifestData()
    ensures MessageBits([0x84, 0x1A, 0, 0]) == Bits(0x1A84, 32)
  {
    hide MessageBits, Bits, ByteBits;
    ByteAt(0x1A84, 0x84);
    assert ByteShift(0x1A84) == 0x1A;
    ByteAt(0x1A, 0x1A);
    assert ByteShift(0x1A) == 0;
    ByteAt(0, 0);
    assert ByteShift(0) == 0;
    WordBits(0x1A84, [0x84, 0x1A, 0, 0]);
  }

  lemma ManifestWord()
    ensures MessageBits([0x99, 0x5D, 0, 0]) == Bits(0x5D99, 32)
  {
    hide MessageBits, Bits, ByteBits;
    ByteAt(0x5D99, 0x99);
    assert ByteShift(0x5D99) == 0x5D;
    ByteAt(0x5D, 0x5D);
    assert ByteShift(0x5D) == 0;
    ByteAt(0, 0);
    assert ByteShift(0) == 0;
    WordBits(0x5D99, [0x99, 0x5D, 0, 0]);
  }

  lemma RecordData()
    ensures MessageBits([0x11, 0x23, 0, 0]) == Bits(0x2311, 32)
  {
    hide MessageBits, Bits, ByteBits;
    ByteAt(0x2311, 0x11);
    assert ByteShift(0x2311) == 0x23;
    ByteAt(0x23, 0x23);
    assert ByteShift(0x23) == 0;
    ByteAt(0, 0);
    assert ByteShift(0) == 0;
    WordBits(0x2311, [0x11, 0x23, 0, 0]);
  }

  lemma RecordWord()
    ensures MessageBits([0, 0, 0x1C, 0x42]) == Bits(0x421C_0000, 32)
  {
    hide MessageBits, Bits, ByteBits;
    ByteAt(0x421C_0000, 0);
    assert ByteShift(0x421C_0000) == 0x42_1C00;
    ByteAt(0x42_1C00, 0);
    assert ByteShift(0x42_1C00) == 0x421C;
    ByteAt(0x421C, 0x1C);
    assert ByteShift(0x421C) == 0x42;
    ByteAt(0x42, 0x42);
    WordBits(0x421C_0000, [0, 0, 0x1C, 0x42]);
  }

  lemma SlotData()
    ensures MessageBits([0xA1, 0xB6, 0x63, 0]) == Bits(0x63_B6A1, 32)
  {
    hide MessageBits, Bits, ByteBits;
    ByteAt(0x63_B6A1, 0xA1);
    assert ByteShift(0x63_B6A1) == 0x63B6;
    ByteAt(0x63B6, 0xB6);
    assert ByteShift(0x63B6) == 0x63;
    ByteAt(0x63, 0x63);
    assert ByteShift(0x63) == 0;
    ByteAt(0, 0);
    WordBits(0x63_B6A1, [0xA1, 0xB6, 0x63, 0]);
  }

  lemma SlotWord()
    ensures MessageBits([0, 0, 0, 0x4B]) == Bits(0x4B00_0000, 32)
  {
    hide MessageBits, Bits, ByteBits;
    ByteAt(0x4B00_0000, 0);
    assert ByteShift(0x4B00_0000) == 0x4B_0000;
    ByteAt(0x4B_0000, 0);
    assert ByteShift(0x4B_0000) == 0x4B00;
    ByteAt(0x4B00, 0);
    assert ByteShift(0x4B00) == 0x4B;
    ByteAt(0x4B, 0x4B);
    WordBits(0x4B00_0000, [0, 0, 0, 0x4B]);
  }

  /** Bytes 78 to 81 of 128 bytes, with the stored word at 80. */
  lemma ManifestPattern()
    ensures Silent(Pattern(128, 78, [0x84, 0x1A, 0x99, 0x5D]), 80)
  {
    hide MessageBits, Bits, TimesPower, Silent, Castagnoli;
    var m := Pattern(128, 78, [0x84, 0x1A, 0x99, 0x5D]);
    var d: seq<byte> := [0x84, 0x1A, 0, 0];
    ManifestData();
    ManifestWord();
    ManifestShift();
    assert m[80..84] == [0x99, 0x5D, 0, 0];
    assert ZeroedField(m, 80) == Pattern(128, 78, d);
    SilentPattern(m, 80, 78, d);
  }

  /** Bytes 22 to 25 of 56 bytes, with the stored word at 20. */
  lemma RecordPattern()
    ensures Silent(Pattern(56, 22, [0x1C, 0x42, 0x11, 0x23]), 20)
  {
    hide MessageBits, Bits, TimesPower, Silent, Castagnoli;
    var m := Pattern(56, 22, [0x1C, 0x42, 0x11, 0x23]);
    var d: seq<byte> := [0x11, 0x23, 0, 0];
    RecordData();
    RecordWord();
    RecordShift();
    assert m[20..24] == [0, 0, 0x1C, 0x42];
    assert ZeroedField(m, 20) == Pattern(56, 24, d);
    SilentPattern(m, 20, 24, d);
  }

  /** Bytes 51 to 54 of 128 bytes, with the stored word at 48. */
  lemma SlotPattern()
    ensures Silent(Pattern(128, 51, [0x4B, 0xA1, 0xB6, 0x63]), 48)
  {
    hide MessageBits, Bits, TimesPower, Silent, Castagnoli;
    var m := Pattern(128, 51, [0x4B, 0xA1, 0xB6, 0x63]);
    var d: seq<byte> := [0xA1, 0xB6, 0x63, 0];
    SlotData();
    SlotWord();
    SlotShift();
    assert m[48..52] == [0, 0, 0, 0x4B];
    assert ZeroedField(m, 48) == Pattern(128, 52, d);
    SilentPattern(m, 48, 52, d);
  }
}
