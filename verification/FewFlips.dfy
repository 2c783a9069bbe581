/**
 How few flipped bits a block that carries its own CRC-32C can hide: two exactly when their weights are
 2^31 - 1 apart, and no one, two or three in any block short of 2^28 - 4 bytes.
 */
module FewFlips {
  import opened BitStrings
  import opened Bytes
  import opened Crc32c
  import opened Checksummed
  import opened Mersenne
  import opened Period
  import opened Residue
  import opened Unnoticed

  // ---------------------------------------------------------------- Silence, bit by bit

  /** The pattern with the stored word's bits, from `f` on, cleared. */
  function Cleared(x: seq<bool>, f: nat): (r: seq<bool>)
    requires f + 32 <= |x|
    ensures |r| == |x|
  {
    x[..f] + Zeros(32) + x[f + 32..]
  }

  predicate SilentBits(x: seq<bool>, f: nat) {
    f + 32 <= |x| && x[f..f + 32] == Feed(Castagnoli(), Zeros(32), Cleared(x, f))
  }

  lemma ThreeParts(m: seq<byte>, offset: nat)
    requires offset + 4 <= |m|
    ensures var (x, f) := (MessageBits(m), 8 * offset);
            && f + 32 <= |x|
            && MessageBits(m[..offset]) == x[..f]
            && MessageBits(m[offset..offset + 4]) == x[f..f + 32]
            && MessageBits(m[offset + 4..]) == x[f + 32..]
  {
    hide MessageBits;
    var (before, word, after) := (m[..offset], m[offset..offset + 4], m[offset + 4..]);
    ReplacedWindow(m, offset, offset + 4);
    MessageBitsConcat(before + word, after);
    MessageBitsConcat(before, word);
    var (x, y, z) := (MessageBits(before), MessageBits(word), MessageBits(after));
    assert (x + y + z)[..|x|] == x && (x + y + z)[|x|..|x| + |y|] == y && (x + y + z)[|x| + |y|..] == z;
  }

  lemma ClearedField(m: seq<byte>, offset: nat)
    requires offset + 4 <= |m|
    ensures 8 * offset + 32 <= |MessageBits(m)|
    ensures MessageBits(ZeroedField(m, offset)) == Cleared(MessageBits(m), 8 * offset)
  {
    hide MessageBits, ZeroBytes;
    ThreeParts(m, offset);
    MessageBitsConcat(m[..offset] + ZeroBytes(4), m[offset + 4..]);
    MessageBitsConcat(m[..offset], ZeroBytes(4));
    ZeroBits(4);
  }

  lemma SilentIsBits(m: seq<byte>, offset: nat)
    requires offset + 4 <= |m|
    ensures Silent(m, offset) <==> SilentBits(MessageBits(m), 8 * offset)
  {
    hide MessageBits, Feed, Castagnoli, ZeroedField, Cleared;
    ThreeParts(m, offset);
    ClearedField(m, offset);
  }

  // ---------------------------------------------------------------- One bit

  /** The pattern of `n` bits with the `i`-th set. */
  function Single(n: nat, i: nat): (r: seq<bool>)
    requires i < n
    ensures |r| == n
    ensures forall k | 0 <= k < n :: r[k] <==> k == i
  {
    Zeros(i) + [true] + Zeros(n - i - 1)
  }

  predicate InWord(f: nat, i: nat) {
    f <= i < f + 32
  }

  /** The power of x that bit `i` adds to the stored word, or to the checksum. */
  function Weight(n: nat, f: nat, i: nat): nat
    requires i < n
  {
    if InWord(f, i) then 31 - (i - f) else n - i + 31
  }

  lemma FeedSingle(n: nat, i: nat)
    requires i < n
    ensures Feed(Castagnoli(), Zeros(32), Single(n, i)) == Power(n - i + 31)
  {
    hide Feed, Step, TimesPower, One;
    var p := Castagnoli();
    FeedConcat(p, Zeros(32), Zeros(i) + [true], Zeros(n - i - 1));
    FeedConcat(p, Zeros(32), Zeros(i), [true]);
    FeedNothing(p, i);
    FeedOne(p);
    PowerThirtyTwo(p);
    PowerAdds(p, One(), 32, n - i - 1);
    PowerIsFeed(p, p[1..], n - i - 1);
  }

  lemma PowerIsFeed(p: Generator, r: Word, n: nat)
    ensures TimesPower(p, r, n) == Feed(p, r, Zeros(n))
  {
  }

  lemma FeedOne(p: Generator)
    ensures Feed(p, Zeros(32), [true]) == p[1..]
  {
    assert [true][1..] == [];
    assert Step(p, Zeros(32), true) == p[1..];
  }

  /** What bit `i` adds to the stored word, and what it adds to the checksum. */
  lemma SingleParts(n: nat, f: nat, i: nat)
    requires i < n && f + 32 <= n
    ensures Single(n, i)[f..f + 32] == if InWord(f, i) then Power(Weight(n, f, i)) else Zeros(32)
    ensures Feed(Castagnoli(), Zeros(32), Cleared(Single(n, i), f))
         == if InWord(f, i) then Zeros(32) else Power(Weight(n, f, i))
  {
    hide Feed, TimesPower, One, Castagnoli;
    if InWord(f, i) {
      PowerOfOne(Castagnoli(), 31 - (i - f));
      assert Single(n, i)[f..f + 32] == Zeros(i - f) + [true] + Zeros(31 - (i - f));
      assert Cleared(Single(n, i), f) == Zeros(n);
      FeedNothing(Castagnoli(), n);
    } else {
      assert Single(n, i)[f..f + 32] == Zeros(32);
      assert Cleared(Single(n, i), f) == Single(n, i);
      FeedSingle(n, i);
    }
  }

  // ---------------------------------------------------------------- Two bits

  lemma PairParts(n: nat, f: nat, i: nat, j: nat)
    requires i < n && j < n && f + 32 <= n
    ensures var (x, s, t) := (Xor(Single(n, i), Single(n, j)), Single(n, i), Single(n, j));
            && x[f..f + 32] == Xor(s[f..f + 32], t[f..f + 32])
            && Cleared(x, f) == Xor(Cleared(s, f), Cleared(t, f))
  {
    hide Single;
  }

  lemma Regroup(a: Word, b: Word, c: Word, d: Word)
    ensures Xor(a, b) == Xor(c, d) <==> Xor(a, c) == Xor(b, d)
  {
    if Xor(a, b) == Xor(c, d) {
      forall k | 0 <= k < 32
        ensures Xor(a, c)[k] == Xor(b, d)[k]
      {
        assert Xor(a, b)[k] == Xor(c, d)[k];
      }
    }
    if Xor(a, c) == Xor(b, d) {
      forall k | 0 <= k < 32
        ensures Xor(a, b)[k] == Xor(c, d)[k]
      {
        assert Xor(a, c)[k] == Xor(b, d)[k];
      }
    }
  }

  lemma WithNothing(inWord: bool, w: Word)
    ensures Xor(if inWord then w else Zeros(32), if inWord then Zeros(32) else w) == w
  {
    assert Xor(w, Zeros(32)) == w && Xor(Zeros(32), w) == w;
  }

  function RemainderOf(x: seq<bool>): Word {
    Feed(Castagnoli(), Zeros(32), x)
  }

  lemma RemainderLinear(x: seq<bool>, y: seq<bool>)
    requires |x| == |y|
    ensures RemainderOf(Xor(x, y)) == Xor(RemainderOf(x), RemainderOf(y))
  {
    hide Feed, Castagnoli;
    FeedLinear(Castagnoli(), Zeros(32), Zeros(32), x, y);
    assert Xor(Zeros(32), Zeros(32)) == Zeros(32);
  }

  /** The four contributions of two flipped bits, sorted by bit. */
  lemma PairSilent(n: nat, f: nat, i: nat, j: nat)
    requires i < n && j < n && f + 32 <= n
    ensures var (s, t) := (Single(n, i), Single(n, j));
            SilentBits(Xor(s, t), f) <==>
            Xor(s[f..f + 32], RemainderOf(Cleared(s, f))) == Xor(t[f..f + 32], RemainderOf(Cleared(t, f)))
  {
    hide Feed, Single, Castagnoli, Cleared;
    var (s, t) := (Single(n, i), Single(n, j));
    PairParts(n, f, i, j);
    RemainderLinear(Cleared(s, f), Cleared(t, f));
    Regroup(s[f..f + 32], t[f..f + 32], RemainderOf(Cleared(s, f)), RemainderOf(Cleared(t, f)));
  }

  lemma SingleWeight(n: nat, f: nat, i: nat)
    requires i < n && f + 32 <= n
    ensures Xor(Single(n, i)[f..f + 32], RemainderOf(Cleared(Single(n, i), f))) == Power(Weight(n, f, i))
  {
    hide Feed, Power, Single, Castagnoli, Weight, Cleared;
    SingleParts(n, f, i);
    WithNothing(InWord(f, i), Power(Weight(n, f, i)));
  }

  /** Two flipped bits are silent exactly when their weights differ by a multiple of 2^31 - 1. */
  lemma PairSilentIff(n: nat, f: nat, i: nat, j: nat)
    requires i < n && j < n && f + 32 <= n
    ensures SilentBits(Xor(Single(n, i), Single(n, j)), f) <==> (Weight(n, f, i) - Weight(n, f, j)) % M == 0
  {
    hide RemainderOf, SilentBits, Power, Single, Weight, Cleared;
    PairSilent(n, f, i, j);
    SingleWeight(n, f, i);
    SingleWeight(n, f, j);
    SamePowerIff(Weight(n, f, i), Weight(n, f, j));
  }

  /** `b` is `a` with bits `i` and `j` flipped. */
  ghost predicate TwoFlips(a: seq<byte>, b: seq<byte>, i: nat, j: nat) {
    |a| == |b| && i < j < 8 * |a| && FlippedBits(a, b) == Xor(Single(8 * |a|, i), Single(8 * |a|, j))
  }

  /** Exactly when two flipped bits of a block go unnoticed. */
  lemma TwoFlipsUnnoticedIff(a: seq<byte>, b: seq<byte>, offset: nat, i: nat, j: nat)
    requires Sealed(a, offset) && TwoFlips(a, b, i, j)
    ensures Sealed(b, offset) <==>
            (Weight(8 * |a|, 8 * offset, i) - Weight(8 * |a|, 8 * offset, j)) % M == 0
  {
    hide XorBytes, Silent, SilentBits, Single, Weight, MessageBits;
    UnnoticedIff(a, b, offset);
    FlipsArePattern(a, b);
    SilentIsBits(XorBytes(a, b), offset);
    PairSilentIff(8 * |a|, 8 * offset, i, j);
  }

  lemma FlipsArePattern(a: seq<byte>, b: seq<byte>)
    requires |a| == |b|
    ensures FlippedBits(a, b) == MessageBits(XorBytes(a, b))
  {
    hide XorBytes, MessageBits;
    MessageXor(a, b);
  }

  /** Between data bits only the distance counts, and two bits of the stored word are always noticed. */
  lemma WeightDistance(n: nat, f: nat, i: nat, j: nat)
    requires i < j < n && InWord(f, i) == InWord(f, j)
    ensures Weight(n, f, i) - Weight(n, f, j) == j - i
  {
  }

  // ---------------------------------------------------------------- Counting flips

  function Count(x: seq<bool>): nat {
    if x == [] then 0 else (if x[0] then 1 else 0) + Count(x[1..])
  }

  lemma {:induction false} ParityIsCount(x: seq<bool>)
    ensures Parity(x) <==> Count(x) % 2 == 1
  {
    if x != [] {
      ParityIsCount(x[1..]);
    }
  }

  lemma {:induction false} NoneSet(x: seq<bool>)
    requires Count(x) == 0
    ensures x == Zeros(|x|)
  {
    if x != [] {
      NoneSet(x[1..]);
      assert x == [x[0]] + x[1..];
    }
  }

  lemma {:induction false} OneSet(x: seq<bool>) returns (i: nat)
    requires Count(x) == 1
    ensures i < |x| && x == Single(|x|, i)
  {
    if x[0] {
      NoneSet(x[1..]);
      i := 0;
      assert x == [x[0]] + x[1..];
    } else {
      var k := OneSet(x[1..]);
      i := k + 1;
      assert x == [x[0]] + x[1..];
    }
  }

  lemma {:induction false} TwoSet(x: seq<bool>) returns (i: nat, j: nat)
    requires Count(x) == 2
    ensures i < j < |x| && x == Xor(Single(|x|, i), Single(|x|, j))
  {
    if x[0] {
      var k := OneSet(x[1..]);
      i, j := 0, k + 1;
      assert x == [x[0]] + x[1..];
    } else {
      var k, l := TwoSet(x[1..]);
      i, j := k + 1, l + 1;
      assert x == [x[0]] + x[1..];
    }
  }

  /** Weights in a block below this size are distinct and less than 2^31 - 1 apart. */
  const HIDING_SIZE := 0x1000_0000 - 4

  lemma WeightsClose(n: nat, f: nat, i: nat, j: nat)
    requires i < j < n && f + 32 <= n && n < 8 * HIDING_SIZE
    ensures (Weight(n, f, i) - Weight(n, f, j)) % M != 0
  {
    var d := Weight(n, f, i) - Weight(n, f, j);
    assert d != 0 && -M < d < M;
    if d < 0 {
      assert (d + M) % M == d + M;
    }
  }

  /** No one, two or three flipped bits go unnoticed in a block of less than 2^28 - 4 bytes. */
  lemma FewFlipsNoticed(a: seq<byte>, b: seq<byte>, offset: nat)
    requires Sealed(a, offset) && |a| == |b| && |a| < HIDING_SIZE
    requires 1 <= Count(FlippedBits(a, b)) <= 3
    ensures !Sealed(b, offset)
  {
    hide Sealed, FlippedBits, Single, Weight, Parity, Count;
    var x := FlippedBits(a, b);
    ParityIsCount(x);
    if Count(x) == 2 {
      var i, j := TwoSet(x);
      TwoFlipsUnnoticedIff(a, b, offset, i, j);
      SealedSize(a, offset);
      WeightsClose(8 * |a|, 8 * offset, i, j);
    } else {
      OddFlipsDetected(a, b, offset);
    }
  }

  lemma SealedSize(a: seq<byte>, offset: nat)
    requires Sealed(a, offset)
    ensures offset + 4 <= |a|
  {
  }
}
