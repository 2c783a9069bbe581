/**
 Words as residues of polynomials modulo a generator: shifting the register once multiplies by x, so the
 words form a ring in which x^n can be computed by squaring.
 */
module Residue {
  import opened BitStrings
  import opened Crc32c
  import opened Unnoticed

  /** r * x. */
  function TimesX(p: Generator, r: Word): Word {
    Step(p, r, false)
  }

  /** r * x^n. */
  function TimesPower(p: Generator, r: Word, n: nat): Word {
    Feed(p, r, Zeros(n))
  }

  /** The polynomial 1. */
  function One(): Word {
    Zeros(31) + [true]
  }

  function Masked(bit: bool, r: Word): Word {
    if bit then r else Zeros(32)
  }

  /** acc * x^|a| + a * r, the coefficients of `a` leading first: Horner's rule. */
  function Horner(p: Generator, acc: Word, a: seq<bool>, r: Word): Word
    decreases |a|
  {
    if a == [] then acc else Horner(p, Xor(TimesX(p, acc), Masked(a[0], r)), a[1..], r)
  }

  /** a * r. */
  function Product(p: Generator, a: seq<bool>, r: Word): Word {
    Horner(p, Zeros(32), a, r)
  }

  // ---------------------------------------------------------------- Powers of x

  lemma TimesXLinear(p: Generator, r: Word, q: Word)
    ensures TimesX(p, Xor(r, q)) == Xor(TimesX(p, r), TimesX(p, q))
  {
    hide Step;
    StepLinear(p, r, q, false, false);
  }

  lemma TimesXNothing(p: Generator)
    ensures TimesX(p, Zeros(32)) == Zeros(32)
  {
  }

  lemma PowerFirst(p: Generator, r: Word, n: nat)
    ensures TimesPower(p, r, 0) == r
    ensures TimesPower(p, r, n + 1) == TimesPower(p, TimesX(p, r), n)
  {
    assert Zeros(n + 1)[1..] == Zeros(n);
    assert Zeros(0) == [];
  }

  lemma PowerAdds(p: Generator, r: Word, m: nat, n: nat)
    ensures TimesPower(p, r, m + n) == TimesPower(p, TimesPower(p, r, m), n)
  {
    hide Feed;
    assert Zeros(m + n) == Zeros(m) + Zeros(n);
    FeedConcat(p, r, Zeros(m), Zeros(n));
  }

  lemma PowerLast(p: Generator, r: Word, n: nat)
    ensures TimesPower(p, r, n + 1) == TimesX(p, TimesPower(p, r, n))
  {
    hide TimesPower, TimesX;
    PowerAdds(p, r, n, 1);
    PowerFirst(p, TimesPower(p, r, n), 0);
    PowerFirst(p, TimesX(p, TimesPower(p, r, n)), 0);
  }

  lemma PowerInjective(p: Generator, r: Word, q: Word, n: nat)
    requires TimesPower(p, r, n) == TimesPower(p, q, n)
    ensures r == q
  {
    hide Feed;
    FeedInjective(p, r, q, Zeros(n));
  }

  // ---------------------------------------------------------------- Products

  lemma {:induction false} HornerConcat(p: Generator, acc: Word, a: seq<bool>, b: seq<bool>, r: Word)
    ensures Horner(p, acc, a + b, r) == Horner(p, Horner(p, acc, a, r), b, r)
    decreases |a|
  {
    hide TimesX, Masked;
    if a == [] {
      assert a + b == b;
    } else {
      assert (a + b)[1..] == a[1..] + b;
      HornerConcat(p, Xor(TimesX(p, acc), Masked(a[0], r)), a[1..], b, r);
    }
  }

  lemma ProductSnoc(p: Generator, a: seq<bool>, c: bool, r: Word)
    ensures Product(p, a + [c], r) == Xor(TimesX(p, Product(p, a, r)), Masked(c, r))
  {
    hide TimesX, Masked;
    HornerConcat(p, Zeros(32), a, [c], r);
    assert [c][1..] == [];
  }

  lemma XorSwap(a: Word, b: Word, c: Word, d: Word)
    ensures Xor(Xor(a, b), Xor(c, d)) == Xor(Xor(a, c), Xor(b, d))
  {
  }

  lemma MaskedLinear(c: bool, r: Word, q: Word)
    ensures Masked(c, Xor(r, q)) == Xor(Masked(c, r), Masked(c, q))
  {
    assert Xor(Zeros(32), Zeros(32)) == Zeros(32);
  }

  /** a * (r + q) == a * r + a * q. */
  lemma {:induction false} ProductLinear(p: Generator, a: seq<bool>, r: Word, q: Word)
    ensures Product(p, a, Xor(r, q)) == Xor(Product(p, a, r), Product(p, a, q))
    decreases |a|
  {
    hide Product, TimesX, Masked;
    if a == [] {
      ProductNone(p, r);
      ProductNone(p, q);
      ProductNone(p, Xor(r, q));
      assert Xor(Zeros(32), Zeros(32)) == Zeros(32);
    } else {
      var (init, c) := (a[..|a| - 1], a[|a| - 1]);
      assert a == init + [c];
      ProductLinear(p, init, r, q);
      ProductSnoc(p, init, c, Xor(r, q));
      ProductSnoc(p, init, c, r);
      ProductSnoc(p, init, c, q);
      TimesXLinear(p, Product(p, init, r), Product(p, init, q));
      MaskedLinear(c, r, q);
      XorSwap(TimesX(p, Product(p, init, r)), TimesX(p, Product(p, init, q)), Masked(c, r), Masked(c, q));
    }
  }

  lemma ProductNone(p: Generator, r: Word)
    ensures Product(p, [], r) == Zeros(32)
  {
  }

  lemma ProductNothing(p: Generator, a: seq<bool>)
    ensures Product(p, a, Zeros(32)) == Zeros(32)
  {
    hide Product;
    ProductLinear(p, a, Zeros(32), Zeros(32));
    assert Xor(Zeros(32), Zeros(32)) == Zeros(32);
    var z := Product(p, a, Zeros(32));
    assert Xor(z, z) == Zeros(32);
  }

  lemma MaskedTimesX(p: Generator, c: bool, r: Word)
    ensures Masked(c, TimesX(p, r)) == TimesX(p, Masked(c, r))
  {
    hide TimesX;
    TimesXNothing(p);
  }

  /** a * (r * x) == (a * r) * x. */
  lemma {:induction false} ProductTimesX(p: Generator, a: seq<bool>, r: Word)
    ensures Product(p, a, TimesX(p, r)) == TimesX(p, Product(p, a, r))
    decreases |a|
  {
    hide Product, TimesX, Masked;
    if a == [] {
      ProductNone(p, r);
      ProductNone(p, TimesX(p, r));
      TimesXNothing(p);
    } else {
      var (init, c) := (a[..|a| - 1], a[|a| - 1]);
      assert a == init + [c];
      ProductTimesX(p, init, r);
      ProductSnoc(p, init, c, r);
      ProductSnoc(p, init, c, TimesX(p, r));
      MaskedTimesX(p, c, r);
      TimesXLinear(p, TimesX(p, Product(p, init, r)), Masked(c, r));
    }
  }

  lemma MaskedProduct(p: Generator, a: seq<bool>, c: bool, r: Word)
    ensures Masked(c, Product(p, a, r)) == Product(p, a, Masked(c, r))
  {
    hide Product;
    ProductNothing(p, a);
  }

  /** a * (b * r) == b * (a * r). */
  lemma {:induction false} ProductsCommute(p: Generator, a: seq<bool>, b: seq<bool>, r: Word)
    ensures Product(p, a, Product(p, b, r)) == Product(p, b, Product(p, a, r))
    decreases |b|
  {
    hide Product, TimesX, Masked;
    var s := Product(p, a, r);
    if b == [] {
      ProductNone(p, r);
      ProductNone(p, s);
      ProductNothing(p, a);
    } else {
      var (init, c) := (b[..|b| - 1], b[|b| - 1]);
      assert b == init + [c];
      ProductsCommute(p, a, init, r);
      ProductSnoc(p, init, c, r);
      ProductSnoc(p, init, c, s);
      ProductLinear(p, a, TimesX(p, Product(p, init, r)), Masked(c, r));
      ProductTimesX(p, a, Product(p, init, r));
      MaskedProduct(p, a, c, r);
    }
  }

  lemma MaskedXor(c: bool, d: bool, r: Word)
    ensures Masked(c != d, r) == Xor(Masked(c, r), Masked(d, r))
  {
    assert Xor(r, r) == Zeros(32) && Xor(r, Zeros(32)) == r && Xor(Zeros(32), r) == r;
    assert Xor(Zeros(32), Zeros(32)) == Zeros(32);
  }

  /** (a + b) * r == a * r + b * r. */
  lemma {:induction false} ProductXor(p: Generator, a: seq<bool>, b: seq<bool>, r: Word)
    requires |a| == |b|
    ensures Product(p, Xor(a, b), r) == Xor(Product(p, a, r), Product(p, b, r))
    decreases |a|
  {
    hide Product, TimesX, Masked;
    if a == [] {
      assert Xor(a, b) == [];
      ProductNone(p, r);
      assert Xor(Zeros(32), Zeros(32)) == Zeros(32);
    } else {
      var n := |a| - 1;
      var (a', c, b', d) := (a[..n], a[n], b[..n], b[n]);
      assert a == a' + [c] && b == b' + [d] && Xor(a, b) == Xor(a', b') + [c != d];
      ProductXor(p, a', b', r);
      ProductSnoc(p, a', c, r);
      ProductSnoc(p, b', d, r);
      ProductSnoc(p, Xor(a', b'), c != d, r);
      TimesXLinear(p, Product(p, a', r), Product(p, b', r));
      MaskedXor(c, d, r);
      XorSwap(TimesX(p, Product(p, a', r)), TimesX(p, Product(p, b', r)), Masked(c, r), Masked(d, r));
    }
  }

  lemma MaskedPowerLast(p: Generator, c: bool, r: Word, n: nat)
    ensures TimesX(p, Masked(c, TimesPower(p, r, n))) == Masked(c, TimesPower(p, r, n + 1))
  {
    hide TimesX, TimesPower;
    PowerLast(p, r, n);
    TimesXNothing(p);
  }

  /** The leading coefficient on its own. */
  lemma {:induction false} ProductLeading(p: Generator, c: bool, a: seq<bool>, r: Word)
    ensures Product(p, [c] + a, r) == Xor(Masked(c, TimesPower(p, r, |a|)), Product(p, a, r))
    decreases |a|
  {
    hide Product, TimesX, Masked, TimesPower;
    if a == [] {
      assert [c] + a == [] + [c];
      ProductSnoc(p, [], c, r);
      ProductNone(p, r);
      TimesXNothing(p);
      PowerFirst(p, r, 0);
      var m := Masked(c, r);
      assert Xor(Zeros(32), m) == m && Xor(m, Zeros(32)) == m;
    } else {
      var (init, d) := (a[..|a| - 1], a[|a| - 1]);
      assert a == init + [d] && [c] + a == [c] + init + [d];
      ProductLeading(p, c, init, r);
      ProductSnoc(p, [c] + init, d, r);
      ProductSnoc(p, init, d, r);
      var (lead, rest) := (Masked(c, TimesPower(p, r, |init|)), Product(p, init, r));
      TimesXLinear(p, lead, rest);
      MaskedPowerLast(p, c, r, |init|);
      var (x, y, z) := (TimesX(p, lead), TimesX(p, rest), Masked(d, r));
      assert Xor(Xor(x, y), z) == Xor(x, Xor(y, z));
    }
  }

  // ---------------------------------------------------------------- Every word is a polynomial in x

  lemma ShiftsUp(p: Generator, a: seq<bool>, c: bool)
    requires |a| < 32
    ensures Xor(TimesX(p, Zeros(32 - |a|) + a), Masked(c, One())) == Zeros(31 - |a|) + (a + [c])
  {
    var w: Word := Zeros(32 - |a|) + a;
    assert !w[0];
    assert TimesX(p, w) == Zeros(31 - |a|) + a + [false];
  }

  /** a * 1 == a. */
  lemma {:induction false} TimesOne(p: Generator, a: seq<bool>)
    requires |a| <= 32
    ensures Product(p, a, One()) == Zeros(32 - |a|) + a
    decreases |a|
  {
    hide Product, TimesX, Masked, One;
    if a == [] {
      ProductNone(p, One());
      assert Zeros(32) + [] == Zeros(32);
    } else {
      var (init, c) := (a[..|a| - 1], a[|a| - 1]);
      assert a == init + [c];
      TimesOne(p, init);
      ProductSnoc(p, init, c, One());
      ShiftsUp(p, init, c);
    }
  }

  lemma {:induction false} PowerOfOne(p: Generator, n: nat)
    requires n <= 31
    ensures TimesPower(p, One(), n) == Zeros(31 - n) + [true] + Zeros(n)
    decreases n
  {
    hide TimesPower;
    if n == 0 {
      PowerFirst(p, One(), 0);
      assert Zeros(31) + [true] + Zeros(0) == One();
    } else {
      PowerOfOne(p, n - 1);
      PowerLast(p, One(), n - 1);
      var w: Word := Zeros(32 - n) + [true] + Zeros(n - 1);
      assert !w[0];
      assert TimesX(p, w) == Zeros(31 - n) + [true] + Zeros(n);
    }
  }

  /** x^32 is the rest of the generator. */
  lemma PowerThirtyTwo(p: Generator)
    ensures TimesPower(p, One(), 32) == p[1..]
  {
    hide TimesPower, One;
    PowerOfOne(p, 31);
    PowerLast(p, One(), 31);
    var w: Word := Zeros(0) + [true] + Zeros(31);
    assert w[0];
    assert TimesX(p, w) == p[1..];
  }

  lemma {:induction false} ProductTimesPower(p: Generator, a: seq<bool>, r: Word, n: nat)
    ensures Product(p, a, TimesPower(p, r, n)) == TimesPower(p, Product(p, a, r), n)
    decreases n
  {
    hide Product, TimesX, TimesPower;
    if n == 0 {
      PowerFirst(p, r, 0);
      PowerFirst(p, Product(p, a, r), 0);
    } else {
      ProductTimesPower(p, a, r, n - 1);
      PowerLast(p, r, n - 1);
      PowerLast(p, Product(p, a, r), n - 1);
      ProductTimesX(p, a, TimesPower(p, r, n - 1));
    }
  }

  lemma Whole(p: Generator, r: Word)
    ensures Product(p, r, One()) == r
  {
    hide Product, One;
    TimesOne(p, r);
    assert Zeros(0) + r == r;
  }

  /** r * x^32 == (p - x^32) * r, for every word. */
  lemma Reduction(p: Generator, r: Word)
    ensures TimesPower(p, r, 32) == Product(p, p[1..], r)
  {
    hide Product, TimesPower, One;
    var q: Word := p[1..];
    Whole(p, r);
    Whole(p, q);
    ProductTimesPower(p, r, One(), 32);
    PowerThirtyTwo(p);
    ProductsCommute(p, r, q, One());
  }

  /** (a * x) * r == (a * r) * x. */
  lemma TimesXProduct(p: Generator, a: Word, r: Word)
    ensures Product(p, TimesX(p, a), r) == TimesX(p, Product(p, a, r))
  {
    hide Product, TimesPower, Masked;
    var (c, rest, q) := (a[0], a[1..], p[1..]);
    assert a == [c] + rest;
    ProductLeading(p, c, rest, r);
    TimesXLinear(p, Masked(c, TimesPower(p, r, 31)), Product(p, rest, r));
    MaskedPowerLast(p, c, r, 31);
    Reduction(p, r);
    ProductSnoc(p, rest, false, r);
    NothingAdded(p, rest, r);
    if c {
      assert TimesX(p, a) == Xor(rest + [false], q);
      ProductXor(p, rest + [false], q, r);
      XorCommutes(Product(p, rest + [false], r), Product(p, q, r));
    } else {
      assert TimesX(p, a) == rest + [false];
    }
    MaskedCases(c, TimesPower(p, r, 32), TimesX(p, Product(p, rest, r)));
  }

  lemma NothingAdded(p: Generator, rest: seq<bool>, r: Word)
    ensures Xor(TimesX(p, Product(p, rest, r)), Masked(false, r)) == TimesX(p, Product(p, rest, r))
  {
    hide Product, TimesX;
  }

  lemma XorCommutes(a: Word, b: Word)
    ensures Xor(a, b) == Xor(b, a)
  {
  }

  lemma MaskedCases(c: bool, r: Word, s: Word)
    ensures Xor(Masked(c, r), s) == if c then Xor(r, s) else s
  {
  }

  /** Multiplying by the word x^n is shifting n times. */
  lemma {:induction false} PowerIsProduct(p: Generator, n: nat, r: Word)
    ensures Product(p, TimesPower(p, One(), n), r) == TimesPower(p, r, n)
    decreases n
  {
    hide Product, TimesX, TimesPower, One;
    if n == 0 {
      PowerFirst(p, One(), 0);
      PowerFirst(p, r, 0);
      OneIsNeutral(p, r);
    } else {
      PowerIsProduct(p, n - 1, r);
      PowerLast(p, One(), n - 1);
      PowerLast(p, r, n - 1);
      TimesXProduct(p, TimesPower(p, One(), n - 1), r);
    }
  }

  lemma OneIsNeutral(p: Generator, r: Word)
    ensures Product(p, One(), r) == r
  {
    hide Product, One;
    Whole(p, r);
    Whole(p, One());
    ProductsCommute(p, One(), r, One());
  }

  /** x^(m + n) == x^m * x^n. */
  lemma PowersMultiply(p: Generator, m: nat, n: nat)
    ensures TimesPower(p, One(), m + n) == Product(p, TimesPower(p, One(), n), TimesPower(p, One(), m))
  {
    hide Product, TimesPower, One;
    PowerAdds(p, One(), m, n);
    PowerIsProduct(p, n, TimesPower(p, One(), m));
  }
}
