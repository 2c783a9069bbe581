/** Byte strings and the little-endian fixed-width fields that the formats are made of. */
module Bytes {

  type byte = b: int | 0 <= b < 256

  datatype Option<+T> = None | Some(value: T)

  /** One more than the greatest value that fits `width` bytes. */
  function Limit(width: nat): (r: nat)
    ensures r > 0
  {
    if width == 0 then 1 else 256 * Limit(width - 1)
  }

  function LE(n: nat, width: nat): (r: seq<byte>)
    ensures |r| == width
    decreases width
  {
    if width == 0 then [] else [n % 256] + LE(n / 256, width - 1)
  }

  function Value(s: seq<byte>): nat {
    if s == [] then 0 else s[0] + 256 * Value(s[1..])
  }

  lemma {:induction false} ValueOfLE(n: nat, width: nat)
    requires n < Limit(width)
    ensures Value(LE(n, width)) == n
    decreases width
  {
    if width > 0 {
      ValueOfLE(n / 256, width - 1);
    }
  }

  lemma {:induction false} LEOfValue(s: seq<byte>)
    ensures Value(s) < Limit(|s|)
    ensures LE(Value(s), |s|) == s
  {
    if s != [] {
      var t := Value(s[1..]);
      LEOfValue(s[1..]);
      LowByte(s[0], t);
      assert LE(Value(s), |s|) == [s[0]] + LE(t, |s| - 1);
      assert s == [s[0]] + s[1..];
    }
  }

  lemma LowByte(b: byte, t: nat)
    ensures (b + 256 * t) % 256 == b && (b + 256 * t) / 256 == t
  {
  }

  lemma LEInjective(n: nat, m: nat, width: nat)
    requires n < Limit(width) && m < Limit(width)
    requires LE(n, width) == LE(m, width)
    ensures n == m
  {
    ValueOfLE(n, width);
    ValueOfLE(m, width);
  }

  lemma Limits()
    ensures Limit(1) == 0x100
    ensures Limit(2) == 0x1_0000
    ensures Limit(4) == 0x1_0000_0000
    ensures Limit(8) == 0x1_0000_0000_0000_0000
  {
    assert Limit(3) == 0x100_0000;
    assert Limit(5) == 0x100_0000_0000;
    assert Limit(6) == 0x1_0000_0000_0000;
    assert Limit(7) == 0x100_0000_0000_0000;
  }

  /** `struct.unpack_from` of one field. */
  function Field(data: seq<byte>, offset: nat, width: nat): nat
    requires offset + width <= |data|
  {
    Value(data[offset..offset + width])
  }

  /** A field determines its bytes. */
  lemma SameField(a: seq<byte>, b: seq<byte>, offset: nat, width: nat)
    requires offset + width <= |a| && offset + width <= |b|
    ensures Field(a, offset, width) == Field(b, offset, width)
       <==> a[offset..offset + width] == b[offset..offset + width]
  {
    hide LE, Value;
    LEOfValue(a[offset..offset + width]);
    LEOfValue(b[offset..offset + width]);
  }

  lemma FourBytesValue(a: seq<byte>)
    requires |a| == 4
    ensures Value(a) == (a[0] as int) + 256 * (a[1] as int) + 65536 * (a[2] as int) + 16777216 * (a[3] as int)
  {
    assert a[1..][1..] == a[2..] && a[2..][1..] == a[3..] && a[3..][1..] == [];
    assert Value(a[3..]) == a[3];
    assert Value(a[2..]) == (a[2] as int) + 256 * (a[3] as int);
    assert Value(a[1..]) == (a[1] as int) + 256 * (a[2] as int) + 65536 * (a[3] as int);
  }

  lemma MagicIs(data: seq<byte>, a: byte, b: byte, c: byte, d: byte)
    requires |data| >= 4
    ensures Field(data, 0, 4) == (a as int) + 0x100 * (b as int) + 0x1_0000 * (c as int) + 0x100_0000 * (d as int)
       <==> data[..4] == [a, b, c, d]
  {
    hide Value;
    var s: seq<byte> := [a, b, c, d];
    assert data[0..4] == data[..4] && s[0..4] == s;
    FourBytesValue(s);
    SameField(data, s, 0, 4);
  }

  lemma SliceOfSlice<T>(data: seq<T>, lo: nat, hi: nat, i: nat, j: nat)
    requires lo <= hi <= |data|
    requires i <= j <= hi - lo
    ensures data[lo..hi][i..j] == data[lo + i..lo + j]
  {
    forall k | 0 <= k < j - i
      ensures data[lo..hi][i..j][k] == data[lo + i..lo + j][k]
    {
    }
  }

  function ZeroBytes(n: nat): (r: seq<byte>)
    ensures |r| == n
    ensures forall i | 0 <= i < n :: r[i] == 0
  {
    seq(n, i => 0)
  }

  /** `struct.pack_into` of one field of a buffer. */
  method PackInto(buffer: array<byte>, offset: nat, field: seq<byte>)
    requires offset + |field| <= buffer.Length
    modifies buffer
    ensures forall i | 0 <= i < buffer.Length ::
              buffer[i] == if offset <= i < offset + |field| then field[i - offset] else old(buffer[i])
  {
    for k := 0 to |field|
      invariant forall i | 0 <= i < buffer.Length ::
                  buffer[i] == if offset <= i < offset + k then field[i - offset] else old(buffer[i])
    {
      buffer[offset + k] := field[k];
    }
  }
}
