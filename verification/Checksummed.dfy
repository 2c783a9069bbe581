/**
 Blocks that carry their own CRC-32C: the stored word must equal the checksum of the block with
 the stored word zeroed.
 */
module Checksummed {
  import opened BitStrings
  import opened Bytes
  import opened Crc32c

  /** The 32-bit field at `offset`, as a word. */
  function StoredWord(data: seq<byte>, offset: nat): Word
    requires offset + 4 <= |data|
  {
    MessageBits(data[offset..offset + 4])
  }

  function PackByte(bits: seq<bool>): (b: byte)
    requires |bits| == 8
    ensures ByteBits(b) == bits
  {
    IndexExists(bits);
    BitsNat(bits)
  }

  /** The bytes of a word; the inverse of `MessageBits`. */
  function WordBytes(bits: seq<bool>): (r: seq<byte>)
    requires |bits| % 8 == 0
    ensures |r| == |bits| / 8
    ensures MessageBits(r) == bits
  {
    if bits == [] then [] else
      var r := [PackByte(bits[..8])] + WordBytes(bits[8..]);
      assert r[1..] == WordBytes(bits[8..]);
      assert bits == bits[..8] + bits[8..];
      r
  }

  function ZeroedField(data: seq<byte>, offset: nat): (r: seq<byte>)
    requires offset + 4 <= |data|
    ensures |r| == |data|
  {
    data[..offset] + ZeroBytes(4) + data[offset + 4..]
  }

  predicate Sealed(data: seq<byte>, offset: nat) {
    && offset + 4 <= |data|
    && StoredWord(data, offset) == Checksum(ZeroedField(data, offset))
  }

  /** The block with its checksum filled in. */
  function Seal(data: seq<byte>, offset: nat): (r: seq<byte>)
    requires offset + 4 <= |data|
    ensures |r| == |data|
    ensures forall i | 0 <= i < |data| && !(offset <= i < offset + 4) :: r[i] == data[i]
  {
    data[..offset] + WordBytes(Checksum(ZeroedField(data, offset))) + data[offset + 4..]
  }

  lemma ReplacedField(data: seq<byte>, offset: nat, word: seq<byte>)
    requires offset + 4 <= |data| && |word| == 4
    ensures var r := data[..offset] + word + data[offset + 4..];
            r[offset..offset + 4] == word && ZeroedField(r, offset) == ZeroedField(data, offset)
  {
  }

  lemma SealIsSealed(data: seq<byte>, offset: nat)
    requires offset + 4 <= |data|
    ensures Sealed(Seal(data, offset), offset)
  {
    hide Checksum, WordBytes, ZeroedField;
    ReplacedField(data, offset, WordBytes(Checksum(ZeroedField(data, offset))));
  }

  /** Outside [lo, hi) the two blocks agree. */
  predicate AgreeOutside(a: seq<byte>, b: seq<byte>, lo: nat, hi: nat) {
    && lo <= hi <= |a| == |b|
    && a[..lo] == b[..lo]
    && a[hi..] == b[hi..]
  }

  lemma ReplacedWindow(data: seq<byte>, lo: nat, hi: nat)
    requires lo <= hi <= |data|
    ensures data == data[..lo] + data[lo..hi] + data[hi..]
  {
  }

  lemma FieldBurst(a: seq<byte>, b: seq<byte>, offset: nat, lo: nat, hi: nat)
    requires Sealed(a, offset) && Sealed(b, offset)
    requires AgreeOutside(a, b, lo, hi)
    requires offset <= lo && hi <= offset + 4
    ensures a == b
  {
    assert a[..offset] == a[..lo][..offset] == b[..lo][..offset] == b[..offset];
    assert a[offset + 4..] == a[hi..][offset + 4 - hi..] == b[hi..][offset + 4 - hi..] == b[offset + 4..];
    assert ZeroedField(a, offset) == ZeroedField(b, offset);
    MessageBitsInjective(a[offset..offset + 4], b[offset..offset + 4]);
    ReplacedWindow(a, offset, offset + 4);
    ReplacedWindow(b, offset, offset + 4);
  }

  lemma WindowBurst(x: seq<byte>, y: seq<byte>, lo: nat, hi: nat)
    requires AgreeOutside(x, y, lo, hi) && hi <= lo + 4
    requires Checksum(x) == Checksum(y)
    ensures x == y
  {
    ReplacedWindow(x, lo, hi);
    ReplacedWindow(y, lo, hi);
    BurstChangesChecksum(x[..lo], x[lo..hi], y[lo..hi], x[hi..]);
  }

  lemma FieldAgrees(a: seq<byte>, b: seq<byte>, offset: nat, lo: nat, hi: nat)
    requires AgreeOutside(a, b, lo, hi) && offset + 4 <= |a|
    requires hi <= offset || offset + 4 <= lo
    ensures a[offset..offset + 4] == b[offset..offset + 4]
  {
    if hi <= offset {
      assert a[offset..offset + 4] == a[hi..][offset - hi..offset + 4 - hi];
      assert b[offset..offset + 4] == b[hi..][offset - hi..offset + 4 - hi];
    } else {
      assert a[offset..offset + 4] == a[..lo][offset..offset + 4];
      assert b[offset..offset + 4] == b[..lo][offset..offset + 4];
    }
  }

  lemma ZeroedDetermines(a: seq<byte>, b: seq<byte>, offset: nat)
    requires |a| == |b| && offset + 4 <= |a|
    requires ZeroedField(a, offset) == ZeroedField(b, offset)
    requires a[offset..offset + 4] == b[offset..offset + 4]
    ensures a == b
  {
    var (x, y) := (ZeroedField(a, offset), ZeroedField(b, offset));
    assert a[..offset] == x[..offset] == y[..offset] == b[..offset];
    assert a[offset + 4..] == x[offset + 4..] == y[offset + 4..] == b[offset + 4..];
    ReplacedWindow(a, offset, offset + 4);
    ReplacedWindow(b, offset, offset + 4);
  }

  lemma DataBurst(a: seq<byte>, b: seq<byte>, offset: nat, lo: nat, hi: nat)
    requires Sealed(a, offset) && Sealed(b, offset)
    requires AgreeOutside(a, b, lo, hi) && hi <= lo + 4
    requires hi <= offset || offset + 4 <= lo
    ensures a == b
  {
    FieldAgrees(a, b, offset, lo, hi);
    ZeroedAgree(a, b, offset, lo, hi);
    WindowBurst(ZeroedField(a, offset), ZeroedField(b, offset), lo, hi);
    ZeroedDetermines(a, b, offset);
  }

  lemma ZeroedAgree(a: seq<byte>, b: seq<byte>, offset: nat, lo: nat, hi: nat)
    requires AgreeOutside(a, b, lo, hi)
    requires offset + 4 <= |a|
    ensures AgreeOutside(ZeroedField(a, offset), ZeroedField(b, offset), lo, hi)
  {
    var (x, y) := (ZeroedField(a, offset), ZeroedField(b, offset));
    forall i | 0 <= i < |a| && !(lo <= i < hi)
      ensures x[i] == y[i]
    {
      if i < lo {
        assert a[..lo][i] == b[..lo][i];
      } else {
        assert a[hi..][i - hi] == b[hi..][i - hi];
      }
    }
  }

  /** No change confined to four adjacent bytes wholly inside or wholly outside the stored word survives. */
  lemma BurstDetected(a: seq<byte>, b: seq<byte>, offset: nat, lo: nat, hi: nat)
    requires Sealed(a, offset) && a != b
    requires AgreeOutside(a, b, lo, hi) && hi <= lo + 4
    requires hi <= offset || offset + 4 <= lo || (offset <= lo && hi <= offset + 4)
    ensures !Sealed(b, offset)
  {
    if Sealed(b, offset) {
      if offset <= lo && hi <= offset + 4 {
        FieldBurst(a, b, offset, lo, hi);
      } else {
        DataBurst(a, b, offset, lo, hi);
      }
    }
  }

  lemma ZeroBytesBits()
    ensures MessageBits(ZeroBytes(4)) == Zeros(32)
  {
    var z := ZeroBytes(4);
    assert ByteBits(0) == Zeros(8);
    assert z[1..] == ZeroBytes(3) && z[1..][1..] == ZeroBytes(2) && z[1..][1..][1..] == ZeroBytes(1);
    assert z[1..][1..][1..][1..] == [];
    assert MessageBits(ZeroBytes(1)) == Zeros(8) + [];
    assert MessageBits(ZeroBytes(2)) == Zeros(8) + MessageBits(ZeroBytes(1));
    assert MessageBits(ZeroBytes(3)) == Zeros(8) + MessageBits(ZeroBytes(2));
    assert MessageBits(z) == Zeros(8) + MessageBits(ZeroBytes(3));
  }

  /** Every sealed block has an even number of one bits. */
  lemma SealedParity(data: seq<byte>, offset: nat)
    requires Sealed(data, offset)
    ensures !Parity(MessageBits(data))
  {
    var (before, word, after) := (data[..offset], data[offset..offset + 4], data[offset + 4..]);
    var (m, w, n) := (MessageBits(before), MessageBits(word), MessageBits(after));
    ReplacedWindow(data, offset, offset + 4);
    MessageBitsConcat(before + word, after);
    MessageBitsConcat(before, word);
    ParityConcat(m + w, n);
    ParityConcat(m, w);
    MessageBitsConcat(before + ZeroBytes(4), after);
    MessageBitsConcat(before, ZeroBytes(4));
    ZeroBytesBits();
    ParityZeros(32);
    ParityConcat(m + Zeros(32), n);
    ParityConcat(m, Zeros(32));
    ChecksumParity(ZeroedField(data, offset));
  }

  /** The positions at which two blocks of the same length differ. */
  function FlippedBits(a: seq<byte>, b: seq<byte>): (r: seq<bool>)
    requires |a| == |b|
    ensures |r| == 8 * |a|
  {
    Xor(MessageBits(a), MessageBits(b))
  }

  /** No odd number of flipped bits survives, wherever they lie, the stored word included. */
  lemma OddFlipsDetected(a: seq<byte>, b: seq<byte>, offset: nat)
    requires Sealed(a, offset)
    requires |a| == |b| && Parity(FlippedBits(a, b))
    ensures !Sealed(b, offset)
  {
    ParityXor(MessageBits(a), MessageBits(b));
    SealedParity(a, offset);
    if Sealed(b, offset) {
      SealedParity(b, offset);
    }
  }
}
