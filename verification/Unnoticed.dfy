/**
 Exactly which changes to a block that carries its own CRC-32C go unnoticed.  The answer depends only on
 the error pattern, the bitwise difference of the two blocks, and never on their contents.
 */
module Unnoticed {
  import opened BitStrings
  import opened Bytes
  import opened Crc32c
  import opened Checksummed
  import opened MachineWord

  function XorByte(x: byte, y: byte): (r: byte)
    ensures ByteBits(r) == Xor(ByteBits(x), ByteBits(y))
  {
    PackByte(Xor(ByteBits(x), ByteBits(y)))
  }

  /** `a` with the bits of the error pattern `m` flipped; also the pattern that turns `a` into `m`. */
  function XorBytes(a: seq<byte>, m: seq<byte>): (r: seq<byte>)
    requires |a| == |m|
    ensures |r| == |a|
    ensures forall i | 0 <= i < |a| :: r[i] == XorByte(a[i], m[i])
  {
    seq(|a|, i requires 0 <= i < |a| => XorByte(a[i], m[i]))
  }

  lemma ByteOfBits(x: byte, y: byte)
    requires ByteBits(x) == ByteBits(y)
    ensures x == y
  {
    assert Pow2(8) == 256;
    BitsOfNat(x, 8);
    BitsOfNat(y, 8);
  }

  lemma XorByteTwice(x: byte, y: byte)
    ensures XorByte(x, XorByte(x, y)) == y
  {
    hide XorByte, ByteBits;
    assert Xor(ByteBits(x), Xor(ByteBits(x), ByteBits(y))) == ByteBits(y);
    ByteOfBits(XorByte(x, XorByte(x, y)), y);
  }

  lemma XorByteNone(x: byte)
    ensures XorByte(x, 0) == x && XorByte(x, x) == 0
  {
    hide XorByte;
    assert ByteBits(0) == Zeros(8);
    hide ByteBits;
    assert Xor(ByteBits(x), Zeros(8)) == ByteBits(x) && Xor(ByteBits(x), ByteBits(x)) == Zeros(8);
    ByteOfBits(XorByte(x, 0), x);
    ByteOfBits(XorByte(x, x), 0);
  }

  /** Every change of contents is an error pattern, and only one. */
  lemma XorBytesTwice(a: seq<byte>, b: seq<byte>)
    requires |a| == |b|
    ensures XorBytes(a, XorBytes(a, b)) == b
  {
    hide XorByte;
    forall i | 0 <= i < |a|
      ensures XorBytes(a, XorBytes(a, b))[i] == b[i]
    {
      XorByteTwice(a[i], b[i]);
    }
  }

  lemma {:induction false} MessageXor(a: seq<byte>, m: seq<byte>)
    requires |a| == |m|
    ensures MessageBits(XorBytes(a, m)) == Xor(MessageBits(a), MessageBits(m))
  {
    hide XorByte, ByteBits;
    if a != [] {
      assert XorBytes(a, m)[1..] == XorBytes(a[1..], m[1..]);
      MessageXor(a[1..], m[1..]);
    }
  }

  // ---------------------------------------------------------------- The checksum is affine

  lemma StepLinear(p: Generator, r: Word, q: Word, x: bool, y: bool)
    ensures Step(p, Xor(r, q), x != y) == Xor(Step(p, r, x), Step(p, q, y))
  {
  }

  lemma {:induction false} FeedLinear(p: Generator, r: Word, q: Word, x: seq<bool>, y: seq<bool>)
    requires |x| == |y|
    ensures Feed(p, Xor(r, q), Xor(x, y)) == Xor(Feed(p, r, x), Feed(p, q, y))
    decreases |x|
  {
    hide Step;
    if x != [] {
      StepLinear(p, r, q, x[0], y[0]);
      assert Xor(x, y)[1..] == Xor(x[1..], y[1..]);
      FeedLinear(p, Step(p, r, x[0]), Step(p, q, y[0]), x[1..], y[1..]);
    }
  }

  /** An error pattern changes the checksum by its own remainder, whatever the data. */
  lemma ChecksumXor(a: seq<byte>, m: seq<byte>)
    requires |a| == |m|
    ensures Checksum(XorBytes(a, m)) == Xor(Checksum(a), Update(Zeros(32), m))
  {
    hide Feed, MessageBits;
    MessageXor(a, m);
    assert Xor(Ones(32), Zeros(32)) == Ones(32);
    FeedLinear(Castagnoli(), Ones(32), Zeros(32), MessageBits(a), MessageBits(m));
  }

  // ---------------------------------------------------------------- Unnoticed patterns

  /** The pattern changes the stored word by exactly as much as it changes the checksum. */
  predicate Silent(m: seq<byte>, offset: nat) {
    && offset + 4 <= |m|
    && StoredWord(m, offset) == Update(Zeros(32), ZeroedField(m, offset))
  }

  lemma FieldXor(a: seq<byte>, m: seq<byte>, offset: nat)
    requires |a| == |m| && offset + 4 <= |a|
    ensures StoredWord(XorBytes(a, m), offset) == Xor(StoredWord(a, offset), StoredWord(m, offset))
    ensures ZeroedField(XorBytes(a, m), offset) == XorBytes(ZeroedField(a, offset), ZeroedField(m, offset))
  {
    hide XorByte, MessageBits;
    var b := XorBytes(a, m);
    assert b[offset..offset + 4] == XorBytes(a[offset..offset + 4], m[offset..offset + 4]);
    MessageXor(a[offset..offset + 4], m[offset..offset + 4]);
    XorByteNone(0);
  }

  /** A changed block still passes its check if and only if the pattern of the change is silent. */
  lemma UnnoticedIff(a: seq<byte>, b: seq<byte>, offset: nat)
    requires Sealed(a, offset) && |a| == |b|
    ensures Sealed(b, offset) <==> Silent(XorBytes(a, b), offset)
  {
    hide XorBytes, StoredWord, Update, Checksum, ZeroedField;
    var m := XorBytes(a, b);
    XorBytesTwice(a, b);
    FieldXor(a, m, offset);
    ChecksumXor(ZeroedField(a, offset), ZeroedField(m, offset));
    var (w, v, s, t) := (StoredWord(a, offset), StoredWord(b, offset), StoredWord(m, offset),
                         Update(Zeros(32), ZeroedField(m, offset)));
    assert v == Xor(w, s);
    CancelXor(w, s, t);
  }

  lemma CancelXor(w: Word, s: Word, t: Word)
    ensures Xor(w, s) == Xor(w, t) <==> s == t
  {
    if Xor(w, s) == Xor(w, t) {
      forall i | 0 <= i < 32
        ensures s[i] == t[i]
      {
        assert Xor(w, s)[i] == Xor(w, t)[i];
      }
    }
  }

  /** The window [lo, hi) reaches across an edge of the stored word. */
  predicate Straddles(lo: nat, hi: nat, offset: nat) {
    lo < offset < hi || lo < offset + 4 < hi
  }

  /** A change within four adjacent bytes goes unnoticed only across an edge, and there exactly when silent. */
  lemma BurstUnnoticedIff(a: seq<byte>, b: seq<byte>, offset: nat, lo: nat, hi: nat)
    requires Sealed(a, offset) && a != b
    requires AgreeOutside(a, b, lo, hi) && hi <= lo + 4
    ensures Sealed(b, offset) <==> Straddles(lo, hi, offset) && Silent(XorBytes(a, b), offset)
  {
    hide Sealed, Silent, XorBytes;
    UnnoticedIff(a, b, offset);
    if !Straddles(lo, hi, offset) {
      BurstDetected(a, b, offset, lo, hi);
    }
  }

  // ---------------------------------------------------------------- Zeros and machine words

  lemma {:induction false} ZeroBits(n: nat)
    ensures MessageBits(ZeroBytes(n)) == Zeros(8 * n)
  {
    if n > 0 {
      ZeroBits(n - 1);
      assert ZeroBytes(n)[1..] == ZeroBytes(n - 1);
      assert ByteBits(0) == Zeros(8);
    }
  }

  lemma {:induction false} FeedNothing(p: Generator, n: nat)
    ensures Feed(p, Zeros(32), Zeros(n)) == Zeros(32)
  {
    if n > 0 {
      assert Step(p, Zeros(32), false) == Zeros(32);
      assert Zeros(n)[1..] == Zeros(n - 1);
      FeedNothing(p, n - 1);
    }
  }

  lemma WordBits(v: bv32, d: seq<byte>)
    requires |d| == 4
    requires Bits(v, 8) == ByteBits(d[0]) && Bits(ByteShift(v), 8) == ByteBits(d[1])
    requires Bits(ByteShift(ByteShift(v)), 8) == ByteBits(d[2])
    requires Bits(ByteShift(ByteShift(ByteShift(v))), 8) == ByteBits(d[3])
    ensures MessageBits(d) == Bits(v, 32)
  {
    hide Bits, ByteBits, ShiftRight, ByteShift, MessageBits;
    var (a, b) := (ByteShift(v), ByteShift(ByteShift(v)));
    BitsConcat(v, 8, 24);
    BitsConcat(a, 8, 16);
    BitsConcat(b, 8, 8);
    ShiftRightByte(v);
    ShiftRightByte(a);
    ShiftRightByte(b);
    MessageOfFour(d);
  }

  lemma MessageOfFour(d: seq<byte>)
    requires |d| == 4
    ensures MessageBits(d) == ByteBits(d[0]) + (ByteBits(d[1]) + (ByteBits(d[2]) + ByteBits(d[3])))
  {
    hide ByteBits;
    assert d[1..][1..] == d[2..] && d[2..][1..] == d[3..] && d[3..][1..] == [];
    assert MessageBits(d[3..]) == ByteBits(d[3]);
    assert MessageBits(d[2..]) == ByteBits(d[2]) + MessageBits(d[3..]);
    assert MessageBits(d[1..]) == ByteBits(d[1]) + MessageBits(d[2..]);
  }

}
