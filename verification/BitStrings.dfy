/**
 Strings of bits.  A machine word is its bits, lowest first.  Polynomials over
 GF(2) are bit strings whose first element is the leading coefficient; addition is `Xor`.
 */
module BitStrings {

  function Zeros(n: nat): (r: seq<bool>)
    ensures |r| == n
    ensures forall i | 0 <= i < n :: !r[i]
  {
    seq(n, i => false)
  }

  function Ones(n: nat): (r: seq<bool>)
    ensures |r| == n
    ensures forall i | 0 <= i < n :: r[i]
  {
    seq(n, i => true)
  }

  function Xor(a: seq<bool>, b: seq<bool>): (r: seq<bool>)
    requires |a| == |b|
    ensures |r| == |a|
    ensures forall i | 0 <= i < |a| :: r[i] == (a[i] != b[i])
  {
    seq(|a|, i requires 0 <= i < |a| => a[i] != b[i])
  }

  /** Adds `d` to the leading elements of `a`. */
  function XorPrefix(a: seq<bool>, d: seq<bool>): (r: seq<bool>)
    requires |d| <= |a|
    ensures |r| == |a|
    ensures forall i | 0 <= i < |d| :: r[i] == (a[i] != d[i])
    ensures forall i | |d| <= i < |a| :: r[i] == a[i]
  {
    seq(|a|, i requires 0 <= i < |a| => if i < |d| then a[i] != d[i] else a[i])
  }

  /** Whether an odd number of the bits are set. */
  function Parity(a: seq<bool>): bool {
    if a == [] then false else a[0] != Parity(a[1..])
  }

  lemma {:induction false} ParityConcat(a: seq<bool>, b: seq<bool>)
    ensures Parity(a + b) == (Parity(a) != Parity(b))
  {
    if a == [] {
      assert a + b == b;
    } else {
      assert (a + b)[1..] == a[1..] + b;
      ParityConcat(a[1..], b);
    }
  }

  lemma {:induction false} ParityXor(a: seq<bool>, b: seq<bool>)
    requires |a| == |b|
    ensures Parity(Xor(a, b)) == (Parity(a) != Parity(b))
  {
    if a != [] {
      assert Xor(a, b)[1..] == Xor(a[1..], b[1..]);
      ParityXor(a[1..], b[1..]);
    }
  }

  lemma {:induction false} ParityZeros(n: nat)
    ensures !Parity(Zeros(n))
  {
    if n > 0 {
      assert Zeros(n)[1..] == Zeros(n - 1);
      ParityZeros(n - 1);
    }
  }

  /** The `k` lowest bits of `n`, lowest first. */
  function NatBits(n: nat, k: nat): (r: seq<bool>)
    ensures |r| == k
    decreases k
  {
    if k == 0 then [] else [n % 2 == 1] + NatBits(n / 2, k - 1)
  }

  function BitsNat(s: seq<bool>): nat {
    if s == [] then 0 else (if s[0] then 1 else 0) + 2 * BitsNat(s[1..])
  }

  function Pow2(k: nat): (r: nat)
    ensures r > 0
  {
    if k == 0 then 1 else 2 * Pow2(k - 1)
  }

  lemma {:induction false} BitsOfNat(n: nat, k: nat)
    requires n < Pow2(k)
    ensures BitsNat(NatBits(n, k)) == n
    decreases k
  {
    if k > 0 {
      BitsOfNat(n / 2, k - 1);
    }
  }

  lemma {:induction false} NatOfBits(s: seq<bool>)
    ensures BitsNat(s) < Pow2(|s|)
    ensures NatBits(BitsNat(s), |s|) == s
  {
    if s != [] {
      NatOfBits(s[1..]);
      assert s == [s[0]] + s[1..];
    }
  }
}
