/**
 CRC-32C (section 12.1 of RFC 3720) in three forms: the polynomial long division that defines it,
 the bit-by-bit register, and the 256-entry table loop the format scripts run.  The lemmas say that
 the three agree on every byte string, and which corruptions a checksum can never miss.
 */
module Crc32c {
  import opened BitStrings
  import opened Bytes

  /** A 32-bit register, lowest bit first. */
  type Word = w: seq<bool> | |w| == 32
    witness Zeros(32)

  /** Bytes go out lowest bit first. */
  function ByteBits(b: byte): (r: seq<bool>)
    ensures |r| == 8
  {
    NatBits(b, 8)
  }

  function MessageBits(data: seq<byte>): (r: seq<bool>)
    ensures |r| == 8 * |data|
  {
    if data == [] then [] else ByteBits(data[0]) + MessageBits(data[1..])
  }

  // ---------------------------------------------------------------- The definition: long division

  /** Degree 32, leading coefficient first; the leading and the constant coefficient are one. */
  type Generator = p: seq<bool> | |p| == 33 && p[0] && p[32]
    witness Ones(33)

  /**
   The terms of the Castagnoli polynomial 0x11EDC6F41:
   x^32 + x^28 + x^27 + x^26 + x^25 + x^23 + x^22 + x^20 + x^19 + x^18 + x^14 + x^13 + x^11 + x^10
   + x^9 + x^8 + x^6 + 1.
   */
  predicate HasTerm(e: int) {
    || e == 32 || 25 <= e <= 28 || e == 23 || e == 22 || 18 <= e <= 20 || e == 14 || e == 13
    || 8 <= e <= 11 || e == 6 || e == 0
  }

  function Castagnoli(): Generator {
    seq(33, i => HasTerm(32 - i))
  }

  /** The coefficients below x^32 as a machine word: the constant 0x82F63B78. */
  function ReflectedPolynomial(): (r: Word)
    ensures r[31]
  {
    seq(32, i => HasTerm(31 - i))
  }

  /** Schoolbook division: while more than 32 coefficients are left, cancel the leading one. */
  function Remainder(p: Generator, dividend: seq<bool>): (r: Word)
    requires |dividend| >= 32
    decreases |dividend|
  {
    if |dividend| == 32 then dividend
    else if dividend[0] then Remainder(p, XorPrefix(dividend, p)[1..])
    else Remainder(p, dividend[1..])
  }

  /** The message times x^32 with its 32 leading coefficients complemented, divided; then complemented. */
  function LongDivisionCrc(data: seq<byte>): (r: Word)
  {
    Xor(Remainder(Castagnoli(), XorPrefix(MessageBits(data) + Zeros(32), Ones(32))), Ones(32))
  }

  // ---------------------------------------------------------------- The register, one bit at a time

  function Step(p: Generator, r: Word, bit: bool): (next: Word)
  {
    var shifted := r[1..] + [false];
    if r[0] != bit then Xor(shifted, p[1..]) else shifted
  }

  function Feed(p: Generator, r: Word, bits: seq<bool>): (next: Word)
    decreases |bits|
  {
    if bits == [] then r else Feed(p, Step(p, r, bits[0]), bits[1..])
  }

  lemma {:induction false} FeedConcat(p: Generator, r: Word, a: seq<bool>, b: seq<bool>)
    ensures Feed(p, r, a + b) == Feed(p, Feed(p, r, a), b)
    decreases |a|
  {
    if a == [] {
      assert a + b == b;
    } else {
      assert (a + b)[1..] == a[1..] + b;
      FeedConcat(p, Step(p, r, a[0]), a[1..], b);
    }
  }

  lemma DivisionStep(p: Generator, r: Word, bits: seq<bool>)
    requires bits != []
    ensures Remainder(p, XorPrefix(bits + Zeros(32), r))
         == Remainder(p, XorPrefix(bits[1..] + Zeros(32), Step(p, r, bits[0])))
  {
    var dividend := XorPrefix(bits + Zeros(32), r);
    var rest := XorPrefix(bits[1..] + Zeros(32), Step(p, r, bits[0]));
    if dividend[0] {
      assert XorPrefix(dividend, p)[1..] == rest;
    } else {
      assert dividend[1..] == rest;
    }
  }

  /** The register is the long-division remainder: no 32 zero coefficients need to be appended to it. */
  lemma {:induction false} FeedIsRemainder(p: Generator, r: Word, bits: seq<bool>)
    ensures Feed(p, r, bits) == Remainder(p, XorPrefix(bits + Zeros(32), r))
    decreases |bits|
  {
    if bits == [] {
      assert XorPrefix(bits + Zeros(32), r) == r;
    } else {
      FeedIsRemainder(p, Step(p, r, bits[0]), bits[1..]);
      DivisionStep(p, r, bits);
    }
  }

  /** Adding `d` to the register before shifting is the same as feeding it bit by bit. */
  lemma {:induction false} FeedAbsorbs(p: Generator, r: Word, d: seq<bool>)
    requires |d| <= 32
    ensures Feed(p, XorPrefix(r, d), Zeros(|d|)) == Feed(p, r, d)
    decreases |d|
  {
    if d == [] {
      assert XorPrefix(r, d) == r;
    } else {
      assert Step(p, XorPrefix(r, d), false) == XorPrefix(Step(p, r, d[0]), d[1..]);
      assert Zeros(|d|)[1..] == Zeros(|d| - 1);
      FeedAbsorbs(p, Step(p, r, d[0]), d[1..]);
    }
  }

  lemma StepAdds(p: Generator, r: Word, high: Word)
    requires !high[0]
    ensures Step(p, Xor(r, high), false) == Xor(Step(p, r, false), high[1..] + [false])
  {
  }

  lemma ZeroTail(high: Word, n: nat)
    requires 1 <= n <= 32
    ensures (high[1..] + [false])[n - 1..] + Zeros(n - 1) == high[n..] + Zeros(n)
  {
  }

  /** While only zeros are fed, the leading `n` register bits and the others do not interact. */
  lemma {:induction false} FeedSplits(p: Generator, r: Word, high: Word, n: nat)
    requires n <= 32
    requires forall i | 0 <= i < n :: !high[i]
    ensures Feed(p, Xor(r, high), Zeros(n)) == Xor(Feed(p, r, Zeros(n)), high[n..] + Zeros(n))
    decreases n
  {
    if n == 0 {
      assert high[0..] + Zeros(0) == high;
    } else {
      var shifted := high[1..] + [false];
      StepAdds(p, r, high);
      assert Zeros(n)[1..] == Zeros(n - 1);
      FeedSplits(p, Step(p, r, false), shifted, n - 1);
      ZeroTail(high, n);
    }
  }

  // ---------------------------------------------------------------- The checksum, bit by bit

  function Update(r: Word, data: seq<byte>): Word {
    Feed(Castagnoli(), r, MessageBits(data))
  }

  function Checksum(data: seq<byte>): Word {
    Xor(Update(Ones(32), data), Ones(32))
  }

  /** The bit-by-bit checksum is the long-division remainder, for every byte string. */
  lemma ChecksumIsLongDivision(data: seq<byte>)
    ensures Checksum(data) == LongDivisionCrc(data)
  {
    FeedIsRemainder(Castagnoli(), Ones(32), MessageBits(data));
  }

  // ---------------------------------------------------------------- The table loop

  /** What eight shifts make of a table index. */
  function TableEntry(index: byte): Word {
    Feed(Castagnoli(), ByteBits(index) + Zeros(24), Zeros(8))
  }

  /** One table lookup does the work of eight shifts. */
  lemma TableStep(r: Word, b: byte, index: byte)
    requires ByteBits(index) == Xor(r[..8], ByteBits(b))
    ensures Xor(TableEntry(index), r[8..] + Zeros(8)) == Feed(Castagnoli(), r, ByteBits(b))
  {
    var x := XorPrefix(r, ByteBits(b));
    var low := ByteBits(index) + Zeros(24);
    var high := Zeros(8) + r[8..];
    assert x == Xor(low, high);
    FeedSplits(Castagnoli(), low, high, 8);
    assert high[8..] == r[8..];
    FeedAbsorbs(Castagnoli(), r, ByteBits(b));
  }

  lemma IndexExists(bits: seq<bool>)
    requires |bits| == 8
    ensures BitsNat(bits) < 256
    ensures ByteBits(BitsNat(bits)) == bits
  {
    NatOfBits(bits);
    assert Pow2(8) == 256;
  }

  method ShiftEight(poly: Word, index: Word) returns (crc: Word)
    requires poly[31]
    ensures crc == Feed([true] + poly, index, Zeros(8))
  {
    crc := index;
    for k := 0 to 8
      invariant Feed([true] + poly, index, Zeros(8)) == Feed([true] + poly, crc, Zeros(8 - k))
    {
      assert Zeros(8 - k)[1..] == Zeros(8 - (k + 1));
      assert ([true] + poly)[1..] == poly;
      var shifted := crc[1..] + [false];
      crc := if crc[0] then Xor(shifted, poly) else shifted;
    }
  }

  lemma ReflectedIsCastagnoli()
    ensures Castagnoli() == [true] + ReflectedPolynomial()
  {
  }

  method BuildTable() returns (table: seq<Word>)
    ensures |table| == 256
    ensures forall i | 0 <= i < 256 :: table[i] == TableEntry(i)
  {
    hide TableEntry, ReflectedPolynomial, Zeros, NatBits, Feed;
    table := [];
    for index := 0 to 256
      invariant |table| == index
      invariant forall i | 0 <= i < index :: table[i] == TableEntry(i)
    {
      var crc := BuildEntry(index);
      table := table + [crc];
    }
  }

  method BuildEntry(index: nat) returns (crc: Word)
    requires index < 256
    ensures crc == TableEntry(index)
  {
    crc := ShiftEight(ReflectedPolynomial(), NatBits(index, 8) + Zeros(24));
    ReflectedIsCastagnoli();
  }

  /** The script's loop, which computes the checksum defined by long division. */
  method TableChecksum(data: seq<byte>) returns (result: Word)
    ensures result == Checksum(data) == LongDivisionCrc(data)
  {
    var table := BuildTable();
    var crc: Word := Ones(32);
    for i := 0 to |data|
      invariant Update(Ones(32), data) == Update(crc, data[i..])
    {
      var bits := Xor(crc[..8], ByteBits(data[i]));
      var index := BitsNat(bits);
      IndexExists(bits);
      TableStep(crc, data[i], index);
      FeedConcat(Castagnoli(), crc, ByteBits(data[i]), MessageBits(data[i + 1..]));
      crc := Xor(table[index], crc[8..] + Zeros(8));
    }
    result := Xor(crc, Ones(32));
    ChecksumIsLongDivision(data);
  }

  // ---------------------------------------------------------------- What a checksum cannot miss

  /** The register can be run backwards: its last bit tells whether the generator was added. */
  lemma StepInjective(p: Generator, r: Word, bit: bool, q: Word, bit': bool)
    requires Step(p, r, bit) == Step(p, q, bit')
    ensures (r[0] != bit) == (q[0] != bit')
    ensures r[1..] == q[1..]
  {
    var (x, y) := (Step(p, r, bit), Step(p, q, bit'));
    assert x[31] == (r[0] != bit) && y[31] == (q[0] != bit');
    forall i | 0 <= i < 31
      ensures r[1..][i] == q[1..][i]
    {
      assert x[i] == y[i];
    }
  }

  lemma {:induction false} FeedInjective(p: Generator, r: Word, q: Word, bits: seq<bool>)
    requires Feed(p, r, bits) == Feed(p, q, bits)
    ensures r == q
    decreases |bits|
  {
    if bits != [] {
      FeedInjective(p, Step(p, r, bits[0]), Step(p, q, bits[0]), bits[1..]);
      StepInjective(p, r, bits[0], q, bits[0]);
      assert r == [r[0]] + r[1..] && q == [q[0]] + q[1..];
    }
  }

  /** Running up to 32 fed bits backwards: each fed bit is tied to the register bit it met. */
  lemma {:induction false} FeedBackwards(p: Generator, r: Word, a: seq<bool>, q: Word, b: seq<bool>)
    requires |a| == |b| <= 32
    requires Feed(p, r, a) == Feed(p, q, b)
    ensures forall i | 0 <= i < |a| :: (r[i] != a[i]) == (q[i] != b[i])
    ensures forall i | |a| <= i < 32 :: r[i] == q[i]
    decreases |a|
  {
    if a != [] {
      var (x, y) := (Step(p, r, a[0]), Step(p, q, b[0]));
      FeedBackwards(p, x, a[1..], y, b[1..]);
      assert x[31] == y[31];
      assert x[31] == (r[0] != a[0]) && y[31] == (q[0] != b[0]);
      forall i | 1 <= i < 32
        ensures if i < |a| then (r[i] != a[i]) == (q[i] != b[i]) else r[i] == q[i]
      {
        assert (r[i] == x[i - 1]) == (q[i] == y[i - 1]);
        if i < |a| {
          assert a[1..][i - 1] == a[i] && b[1..][i - 1] == b[i];
        }
      }
    }
  }

  lemma {:induction false} MessageBitsConcat(a: seq<byte>, b: seq<byte>)
    ensures MessageBits(a + b) == MessageBits(a) + MessageBits(b)
  {
    if a == [] {
      assert a + b == b;
    } else {
      assert (a + b)[1..] == a[1..] + b;
      MessageBitsConcat(a[1..], b);
    }
  }

  lemma {:induction false} MessageBitsInjective(a: seq<byte>, b: seq<byte>)
    requires |a| == |b|
    requires MessageBits(a) == MessageBits(b)
    ensures a == b
  {
    if a != [] {
      assert ByteBits(a[0]) == MessageBits(a)[..8] == MessageBits(b)[..8] == ByteBits(b[0]);
      assert MessageBits(a[1..]) == MessageBits(a)[8..] == MessageBits(b)[8..] == MessageBits(b[1..]);
      assert Pow2(8) == 256;
      BitsOfNat(a[0], 8);
      BitsOfNat(b[0], 8);
      MessageBitsInjective(a[1..], b[1..]);
    }
  }

  lemma UpdateConcat(r: Word, a: seq<byte>, b: seq<byte>)
    ensures Update(r, a + b) == Update(Update(r, a), b)
  {
    MessageBitsConcat(a, b);
    FeedConcat(Castagnoli(), r, MessageBits(a), MessageBits(b));
  }

  /** Any change within four adjacent bytes changes the checksum. */
  lemma BurstChangesChecksum(before: seq<byte>, a: seq<byte>, b: seq<byte>, after: seq<byte>)
    requires |a| == |b| <= 4
    requires Checksum(before + a + after) == Checksum(before + b + after)
    ensures a == b
  {
    var r := Update(Ones(32), before);
    UpdateConcat(Ones(32), before, a);
    UpdateConcat(Ones(32), before, b);
    UpdateConcat(Ones(32), before + a, after);
    UpdateConcat(Ones(32), before + b, after);
    var (x, y) := (Update(Update(r, a), after), Update(Update(r, b), after));
    assert x == y by {
      assert x == Xor(Checksum(before + a + after), Ones(32));
      assert y == Xor(Checksum(before + b + after), Ones(32));
    }
    FeedInjective(Castagnoli(), Update(r, a), Update(r, b), MessageBits(after));
    FeedBackwards(Castagnoli(), r, MessageBits(a), r, MessageBits(b));
    assert MessageBits(a) == MessageBits(b);
    MessageBitsInjective(a, b);
  }

  lemma StepParity(p: Generator, r: Word, bit: bool)
    requires Parity(p[1..])
    ensures Parity(Step(p, r, bit)) == (Parity(r) != bit)
  {
    var shifted := r[1..] + [false];
    ParityConcat(r[1..], [false]);
    ParityXor(shifted, p[1..]);
  }

  lemma {:induction false} FeedParity(p: Generator, r: Word, bits: seq<bool>)
    requires Parity(p[1..])
    ensures Parity(Feed(p, r, bits)) == (Parity(r) != Parity(bits))
    decreases |bits|
  {
    if bits != [] {
      StepParity(p, r, bits[0]);
      FeedParity(p, Step(p, r, bits[0]), bits[1..]);
    }
  }

  function TermParity(i: nat): bool
    requires i <= 32
    decreases 32 - i
  {
    if i == 32 then false else HasTerm(31 - i) != TermParity(i + 1)
  }

  lemma {:induction false} TermParityFrom(i: nat)
    requires i <= 32
    ensures Parity(ReflectedPolynomial()[i..]) == TermParity(i)
    decreases 32 - i
  {
    if i < 32 {
      assert ReflectedPolynomial()[i..][1..] == ReflectedPolynomial()[i + 1..];
      TermParityFrom(i + 1);
    }
  }

  lemma GeneratorParity()
    ensures Parity(Castagnoli()[1..])
  {
    TermParityFrom(0);
    assert TermParity(0) by {
      assert TermParity(28) && !TermParity(24) && !TermParity(20) && !TermParity(16);
      assert !TermParity(12) && TermParity(8) && !TermParity(4);
    }
    assert Castagnoli()[1..] == ReflectedPolynomial()[0..];
  }

  lemma ParityOnes()
    ensures !Parity(Ones(32))
  {
    ParityEven(16);
  }

  lemma {:induction false} ParityEven(n: nat)
    ensures !Parity(Ones(2 * n))
  {
    if n > 0 {
      var s := Ones(2 * n);
      assert s[1..][1..] == Ones(2 * (n - 1));
      ParityEven(n - 1);
    }
  }

  /** 0x11EDC6F41 is divisible by x + 1, so a checksum has the parity of the data it covers. */
  lemma ChecksumParity(data: seq<byte>)
    ensures Parity(Checksum(data)) == Parity(MessageBits(data))
  {
    GeneratorParity();
    ParityOnes();
    FeedParity(Castagnoli(), Ones(32), MessageBits(data));
    ParityXor(Update(Ones(32), data), Ones(32));
  }

  /** The polynomial constant of the table loop. */
  lemma PolynomialConstant()
    ensures BitsNat(ReflectedPolynomial()) == 0x82F6_3B78
  {
    BitsFrom(0);
    assert ReflectedPolynomial()[0..] == ReflectedPolynomial();
    TermValues();
  }

  function TermValue(i: nat): nat
    requires i <= 32
    decreases 32 - i
  {
    if i == 32 then 0 else (if HasTerm(31 - i) then 1 else 0) + 2 * TermValue(i + 1)
  }

  lemma TermValues()
    ensures TermValue(0) == 0x82F6_3B78
  {
    assert TermValue(24) == 0x82;
    assert TermValue(16) == 0x82F6;
    assert TermValue(8) == 0x82_F63B;
  }

  lemma {:induction false} BitsFrom(i: nat)
    requires i <= 32
    ensures BitsNat(ReflectedPolynomial()[i..]) == TermValue(i)
    decreases 32 - i
  {
    if i < 32 {
      assert ReflectedPolynomial()[i..][1..] == ReflectedPolynomial()[i + 1..];
      BitsFrom(i + 1);
    }
  }
}
