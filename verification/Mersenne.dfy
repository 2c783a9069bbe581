/**
 2^31 - 1 has no proper divisor.  A number whose powers modulo 2^31 - 1 run through 49981 values before they
 return to 1 shows it: the same powers are distinct modulo every divisor, which is therefore greater than
 49981, and two such divisors are too large together.
 */
module Mersenne {
  import opened Arithmetic
  import opened Sequences

  const M := 2_147_483_647

  /** A number of order 151 * 331 modulo `M`. */
  const BASE := 1_143_626_917

  // ---------------------------------------------------------------- Common divisors

  function Gcd(a: nat, c: nat): nat
    decreases a + c
  {
    if a == 0 then c else if c == 0 then a else if a <= c then Gcd(a, c - a) else Gcd(a - c, c)
  }

  lemma {:induction false} GcdDivides(a: nat, c: nat) returns (i: nat, j: nat)
    ensures a == Gcd(a, c) * i && c == Gcd(a, c) * j
    decreases a + c
  {
    var g := Gcd(a, c);
    if a == 0 {
      i, j := 0, 1;
    } else if c == 0 {
      i, j := 1, 0;
    } else if a <= c {
      i, j := GcdDivides(a, c - a);
      assert g * (i + j) == g * i + g * j;
      j := i + j;
    } else {
      i, j := GcdDivides(a - c, c);
      assert g * (i + j) == g * i + g * j;
      i := i + j;
    }
  }

  /** Sets of exponents that are closed under differences. */
  ghost predicate Closed(s: nat -> bool) {
    forall a: nat, c: nat | a <= c && s(a) && s(c) :: s(c - a)
  }

  /** Such a set holds the greatest common divisor of any two of its members. */
  lemma {:induction false} GcdIn(s: nat -> bool, a: nat, c: nat)
    requires Closed(s) && s(a) && s(c)
    ensures s(Gcd(a, c))
    decreases a + c
  {
    if a != 0 && c != 0 {
      if a <= c {
        GcdIn(s, a, c - a);
      } else {
        GcdIn(s, a - c, c);
      }
    }
  }

  // ---------------------------------------------------------------- Powers modulo a number

  function Pow(b: nat, k: nat): nat {
    if k == 0 then 1 else b * Pow(b, k - 1)
  }

  predicate Congruent(x: int, y: int, r: int) {
    r > 0 && (x - y) % r == 0
  }

  lemma {:induction false} PowAdds(b: nat, j: nat, k: nat)
    ensures Pow(b, j + k) == Pow(b, j) * Pow(b, k)
    decreases j
  {
    if j > 0 {
      PowAdds(b, j - 1, k);
      assert b * (Pow(b, j - 1) * Pow(b, k)) == b * Pow(b, j - 1) * Pow(b, k);
    }
  }

  lemma {:induction false} PowTimes(b: nat, j: nat, k: nat)
    ensures Pow(b, j * k) == Pow(Pow(b, j), k)
    decreases k
  {
    if k > 0 {
      PowTimes(b, j, k - 1);
      assert j * k == j + j * (k - 1);
      PowAdds(b, j, j * (k - 1));
    }
  }

  lemma Witness(x: int, y: int, r: int) returns (k: int)
    requires Congruent(x, y, r)
    ensures x == y + r * k
  {
    k := (x - y) / r;
  }

  lemma FromWitness(x: int, y: int, r: int, k: int)
    requires r > 0 && x == y + r * k
    ensures Congruent(x, y, r)
  {
    DivModIs(r * k, r, k, 0);
  }

  lemma CongruentTimes(x: int, x': int, y: int, y': int, r: int)
    requires Congruent(x, x', r) && Congruent(y, y', r)
    ensures Congruent(x * y, x' * y', r)
  {
    var k := Witness(x, x', r);
    var l := Witness(y, y', r);
    assert x * y == x' * y' + r * (k * y' + l * x' + r * k * l);
    FromWitness(x * y, x' * y', r, k * y' + l * x' + r * k * l);
  }

  lemma CongruentTrans(x: int, y: int, z: int, r: int)
    requires Congruent(x, y, r) && Congruent(y, z, r)
    ensures Congruent(x, z, r)
  {
    var k := Witness(x, y, r);
    var l := Witness(y, z, r);
    assert x == z + r * (k + l);
    FromWitness(x, z, r, k + l);
  }

  lemma CongruentModDivisor(x: int, y: int, r: int, h: int)
    requires r > 0 && h > 0 && Congruent(x, y, r * h)
    ensures Congruent(x, y, r)
  {
    var k := Witness(x, y, r * h);
    assert x == y + r * (h * k);
    FromWitness(x, y, r, h * k);
  }

  lemma CongruentSwap(x: int, y: int, r: int)
    requires Congruent(x, y, r)
    ensures Congruent(y, x, r)
  {
    var k := Witness(x, y, r);
    assert y == x + r * -k;
    FromWitness(y, x, r, -k);
  }

  // ---------------------------------------------------------------- Exponents that lead back to 1

  ghost predicate Returns(b: nat, r: int, e: nat) {
    Congruent(Pow(b, e), 1, r)
  }

  lemma ReturnDifference(b: nat, r: int, a: nat, c: nat)
    requires a <= c && Returns(b, r, a) && Returns(b, r, c)
    ensures Returns(b, r, c - a)
  {
    hide Pow, Congruent;
    PowAdds(b, a, c - a);
    var y := Pow(b, c - a);
    CongruentSelf(y, r, Pow(b, a), 1);
    CongruentTimes(Pow(b, a), 1, y, y, r);
    CongruentSwap(Pow(b, a) * y, 1 * y, r);
    CongruentTrans(y, Pow(b, c), 1, r);
  }

  lemma CongruentSelf(y: int, r: int, x: int, z: int)
    requires Congruent(x, z, r)
    ensures Congruent(y, y, r)
  {
  }

  lemma ReturnsClosed(b: nat, r: int)
    ensures Closed((e: nat) => Returns(b, r, e))
  {
    hide Returns;
    var s := (e: nat) => Returns(b, r, e);
    forall a: nat, c: nat | a <= c && s(a) && s(c)
      ensures s(c - a)
    {
      ReturnDifference(b, r, a, c);
    }
  }

  lemma {:induction false} ReturnMultiple(b: nat, r: int, e: nat, t: nat)
    requires Returns(b, r, e)
    ensures Returns(b, r, e * t)
    decreases t
  {
    hide Pow, Congruent;
    if t == 0 {
      assert e * t == 0;
      PowNone(b);
      CongruentSelf(1, r, Pow(b, e), 1);
    } else {
      ReturnMultiple(b, r, e, t - 1);
      assert e * t == e + e * (t - 1);
      PowAdds(b, e, e * (t - 1));
      CongruentTimes(Pow(b, e), 1, Pow(b, e * (t - 1)), 1, r);
    }
  }

  lemma PowNone(b: nat)
    ensures Pow(b, 0) == 1 && Pow(b, 1) == b
  {
  }

  // ---------------------------------------------------------------- The order of the base

  /** One link of an addition chain for the exponent. */
  lemma PowStep(b: nat, j: nat, c: nat, k: nat, d: nat, e: nat)
    requires Congruent(Pow(b, j), c, M) && Congruent(Pow(b, k), d, M) && Congruent(c * d, e, M)
    ensures Congruent(Pow(b, j + k), e, M)
  {
    hide Pow, Congruent;
    PowAdds(b, j, k);
    CongruentTimes(Pow(b, j), c, Pow(b, k), d, M);
    CongruentTrans(Pow(b, j + k), c * d, e, M);
  }

  lemma PowOne(b: nat)
    ensures Congruent(Pow(b, 1), b, M)
  {
    PowNone(b);
  }

  lemma Power151()
    ensures Congruent(Pow(BASE, 151), 1_761_855_083, M)
  {
    hide Pow;
    PowOne(BASE);
    PowStep(BASE, 1, 1_143_626_917, 1, 1_143_626_917, 1_408_766_669);
    PowStep(BASE, 2, 1_408_766_669, 2, 1_408_766_669, 329_716_052);
    PowStep(BASE, 4, 329_716_052, 1, 1_143_626_917, 1_730_649_443);
    PowStep(BASE, 5, 1_730_649_443, 5, 1_730_649_443, 1_376_674_263);
    PowStep(BASE, 10, 1_376_674_263, 10, 1_376_674_263, 1_233_326_474);
    PowStep(BASE, 20, 1_233_326_474, 5, 1_730_649_443, 1_018_536_654);
    PowStep(BASE, 25, 1_018_536_654, 25, 1_018_536_654, 1_268_820_004);
    PowStep(BASE, 50, 1_268_820_004, 25, 1_018_536_654, 2_063_643_943);
    PowStep(BASE, 75, 2_063_643_943, 75, 2_063_643_943, 1_885_571_097);
    PowStep(BASE, 150, 1_885_571_097, 1, 1_143_626_917, 1_761_855_083);
  }

  lemma Power331()
    ensures Congruent(Pow(BASE, 331), 535_044_134, M)
  {
    hide Pow;
    PowOne(BASE);
    PowStep(BASE, 1, 1_143_626_917, 1, 1_143_626_917, 1_408_766_669);
    PowStep(BASE, 2, 1_408_766_669, 2, 1_408_766_669, 329_716_052);
    PowStep(BASE, 4, 329_716_052, 1, 1_143_626_917, 1_730_649_443);
    PowStep(BASE, 5, 1_730_649_443, 5, 1_730_649_443, 1_376_674_263);
    PowStep(BASE, 10, 1_376_674_263, 10, 1_376_674_263, 1_233_326_474);
    PowStep(BASE, 20, 1_233_326_474, 20, 1_233_326_474, 1_386_718_363);
    PowStep(BASE, 40, 1_386_718_363, 1, 1_143_626_917, 1_588_016_686);
    PowStep(BASE, 41, 1_588_016_686, 41, 1_588_016_686, 1_232_724_551);
    PowStep(BASE, 82, 1_232_724_551, 82, 1_232_724_551, 1_464_658_393);
    PowStep(BASE, 164, 1_464_658_393, 1, 1_143_626_917, 414_479_749);
    PowStep(BASE, 165, 414_479_749, 165, 414_479_749, 1_841_267_093);
    PowStep(BASE, 330, 1_841_267_093, 1, 1_143_626_917, 535_044_134);
  }

  lemma PowCongruent(b: nat, c: nat, r: int, k: nat)
    requires Congruent(b, c, r)
    ensures Congruent(Pow(b, k), Pow(c, k), r)
    decreases k
  {
    hide Congruent;
    if k == 0 {
      CongruentSelf(1, r, b, c);
    } else {
      PowCongruent(b, c, r, k - 1);
      CongruentTimes(b, c, Pow(b, k - 1), Pow(c, k - 1), r);
    }
  }

  lemma Power49981()
    ensures Returns(BASE, M, 49_981)
  {
    hide Pow;
    var c := 1_761_855_083;
    PowOne(c);
    PowStep(c, 1, 1_761_855_083, 1, 1_761_855_083, 1_551_098_461);
    PowStep(c, 2, 1_551_098_461, 2, 1_551_098_461, 1_115_509_785);
    PowStep(c, 4, 1_115_509_785, 1, 1_761_855_083, 759_513_457);
    PowStep(c, 5, 759_513_457, 5, 759_513_457, 564_620_125);
    PowStep(c, 10, 564_620_125, 10, 564_620_125, 1_127_616_031);
    PowStep(c, 20, 1_127_616_031, 20, 1_127_616_031, 1_395_004_765);
    PowStep(c, 40, 1_395_004_765, 1, 1_761_855_083, 1_589_611_822);
    PowStep(c, 41, 1_589_611_822, 41, 1_589_611_822, 111_290_952);
    PowStep(c, 82, 111_290_952, 82, 111_290_952, 1_785_968_041);
    PowStep(c, 164, 1_785_968_041, 1, 1_761_855_083, 1_177_465_442);
    PowStep(c, 165, 1_177_465_442, 165, 1_177_465_442, 1_442_812_328);
    PowStep(c, 330, 1_442_812_328, 1, 1_761_855_083, 1);
    Power151();
    PowCongruent(Pow(BASE, 151), c, M, 331);
    PowTimes(BASE, 151, 331);
    CongruentTrans(Pow(BASE, 49_981), Pow(c, 331), 1, M);
  }

  /** A number coprime to `M` is not divisible by a proper divisor of `M`. */
  lemma Coprime(x: nat, u: int, v: int, r: int, h: int)
    requires r > 1 && h > 0 && r * h == M && u * (x - 1) + v * M == 1
    ensures !Congruent(x, 1, r)
  {
    if Congruent(x, 1, r) {
      var k := Witness(x, 1, r);
      assert u * (x - 1) + v * M == r * (u * k + v * h);
      DivModIs(r * (u * k + v * h), r, u * k + v * h, 0);
      DivModIs(1, r, 0, 1);
    }
  }

  lemma NotSoEarly(r: int, h: int)
    requires r > 1 && h > 0 && r * h == M
    ensures !Returns(BASE, r, 151) && !Returns(BASE, r, 331)
    ensures Returns(BASE, r, 49_981)
  {
    hide Pow, Congruent;
    Power151();
    Power331();
    Power49981();
    CongruentModDivisor(Pow(BASE, 151), 1_761_855_083, r, h);
    CongruentModDivisor(Pow(BASE, 331), 535_044_134, r, h);
    CongruentModDivisor(Pow(BASE, 49_981), 1, r, h);
    Coprime(1_761_855_083, 1_924_809_196, -1_579_166_793, r, h);
    Coprime(535_044_134, 1_648_395_377, -410_696_620, r, h);
    if Returns(BASE, r, 151) {
      CongruentSwap(Pow(BASE, 151), 1_761_855_083, r);
      CongruentTrans(1_761_855_083, Pow(BASE, 151), 1, r);
    }
    if Returns(BASE, r, 331) {
      CongruentSwap(Pow(BASE, 331), 535_044_134, r);
      CongruentTrans(535_044_134, Pow(BASE, 331), 1, r);
    }
  }

  predicate NoDivisorUpTo(n: nat, k: nat) {
    k < 2 || (n % k != 0 && NoDivisorUpTo(n, k - 1))
  }

  lemma {:induction false} NoSmallDivisor(n: nat, k: nat, d: nat)
    requires NoDivisorUpTo(n, k) && 2 <= d <= k
    ensures n % d != 0
  {
    if d < k {
      NoSmallDivisor(n, k - 1, d);
    }
  }

  lemma TwoPrimes()
    ensures NoDivisorUpTo(151, 12) && NoDivisorUpTo(331, 18)
  {
    assert NoDivisorUpTo(151, 6);
    assert NoDivisorUpTo(331, 6);
    assert NoDivisorUpTo(331, 12);
  }

  /** `n` has no divisor up to its root, so its divisors are 1 and itself. */
  lemma Prime(n: nat, k: nat, d: nat, e: nat)
    requires n > 1 && NoDivisorUpTo(n, k) && (k + 1) * (k + 1) > n && d * e == n
    ensures d == 1 || e == 1
  {
    if d > 1 && e > 1 {
      if d <= k {
        NoSmallDivisor(n, k, d);
        DivModIs(n, d, e, 0);
      } else if e <= k {
        NoSmallDivisor(n, k, e);
        DivModIs(n, e, d, 0);
      } else {
        SquareGrows(k + 1, d, e);
      }
    }
  }

  lemma SquareGrows(k: nat, d: nat, e: nat)
    requires d >= k && e >= k
    ensures d * e >= k * k
  {
    assert d * e == k * k + k * (e - k) + (d - k) * e;
  }

  /** An exponent without the prime factor `n` of the order already brings the power `j` back to 1. */
  lemma ReturnsEarly(r: int, j: nat, n: nat, root: nat, k: nat)
    requires n > 1 && NoDivisorUpTo(n, root) && (root + 1) * (root + 1) > n
    requires Returns(BASE, r, j * n) && Returns(BASE, r, k) && k % n != 0
    ensures Returns(BASE, r, j)
  {
    hide Pow, Congruent, NoDivisorUpTo;
    var c := Pow(BASE, j);
    var g := Gcd(k, n);
    var x, y := GcdDivides(k, n);
    Prime(n, root, g, y);
    if y == 1 {
      assert k == n * x;
      DivModIs(k, n, x, 0);
    }
    assert g == 1;
    ReturnMultiple(BASE, r, k, j);
    assert k * j == j * k;
    PowTimes(BASE, j, k);
    PowTimes(BASE, j, n);
    ReturnsClosed(c, r);
    GcdIn((e: nat) => Returns(c, r, e), k, n);
    PowNone(c);
  }

  lemma CommonMultiple(k: nat)
    requires k % 331 == 0 && k % 151 == 0 && k > 0
    ensures k >= 49_981
  {
    var u := k / 331;
    var w := k / 151;
    assert k == 331 * u && k == 151 * w;
    assert u == 151 * (125 * w - 274 * u);
  }

  lemma NotBefore(r: int, h: int, k: nat)
    requires r > 1 && h > 0 && r * h == M && 0 < k < 49_981
    ensures !Returns(BASE, r, k)
  {
    hide Returns, NoDivisorUpTo;
    NotSoEarly(r, h);
    TwoPrimes();
    if Returns(BASE, r, k) {
      if k % 331 != 0 {
        ReturnsEarly(r, 151, 331, 18, k);
      } else if k % 151 != 0 {
        ReturnsEarly(r, 331, 151, 12, k);
      } else {
        CommonMultiple(k);
      }
    }
  }

  // ---------------------------------------------------------------- Divisors of M

  lemma SameRemainder(x: int, y: int, r: int)
    requires r > 0 && x % r == y % r
    ensures Congruent(x, y, r)
  {
    assert x == r * (x / r) + x % r && y == r * (y / r) + y % r;
    assert x == y + r * (x / r - y / r);
    FromWitness(x, y, r, x / r - y / r);
  }

  lemma PowersDiffer(r: int, h: int, i: nat, j: nat)
    requires r > 1 && h > 0 && r * h == M && i < j < 49_981
    ensures Pow(BASE, i) % r != Pow(BASE, j) % r
  {
    hide Pow, Congruent;
    if Pow(BASE, i) % r == Pow(BASE, j) % r {
      var (rest, d) := (Pow(BASE, 49_981 - i), j - i);
      SameRemainder(Pow(BASE, j), Pow(BASE, i), r);
      CongruentSelf(rest, r, Pow(BASE, j), Pow(BASE, i));
      CongruentTimes(Pow(BASE, j), Pow(BASE, i), rest, rest, r);
      PowAdds(BASE, j, 49_981 - i);
      PowAdds(BASE, i, 49_981 - i);
      NotSoEarly(r, h);
      CongruentTrans(Pow(BASE, 49_981 + d), Pow(BASE, 49_981), 1, r);
      ReturnDifference(BASE, r, 49_981, 49_981 + d);
      NotBefore(r, h, d);
    }
  }

  lemma DivisorIsLarge(r: int, h: int)
    requires r > 1 && h > 0 && r * h == M
    ensures r >= 49_981
  {
    hide Pow;
    var s := seq(49_981, k requires k >= 0 => Remainder(BASE, k, r));
    forall i, j | 0 <= i < j < |s|
      ensures s[i] != s[j]
    {
      PowersDiffer(r, h, i, j);
    }
    Pigeonhole(s, r);
  }

  function Remainder(b: nat, k: nat, r: int): (e: nat)
    requires r > 0
    ensures e < r && e == Pow(b, k) % r
  {
    Pow(b, k) % r
  }

  lemma NoProperDivisor(g: nat, h: nat)
    requires g * h == M
    ensures g == 1 || h == 1
  {
    if g > 1 && h > 1 {
      assert h * g == M;
      DivisorIsLarge(g, h);
      DivisorIsLarge(h, g);
      SquareGrows(49_981, g, h);
    }
  }
}
