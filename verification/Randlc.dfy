/**
  The key generator of the histogram benchmark: a linear congruential generator modulo 2^46 that
  is computed in double precision from 23-bit halves, and the jump to a unit's part of its
  sequence.

  A double is modelled by a significand and a binary scale. Every floating-point operation has
  the precondition that its exact result fits the 53 bits of a significand, which is when IEEE
  arithmetic returns that result; every conversion to int has the precondition that the value is
  in range.
 */
module Randlc {
  import opened Division
  import opened Powers
  import opened ModularPowers

  const M23: int := 0x80_0000
  const M46: int := 0x4000_0000_0000
  const M53: int := 0x20_0000_0000_0000
  const INT_LIMIT: int := 0x8000_0000

  /** The number significand / 2^scale. */
  datatype Double = Double(significand: int, scale: nat) {
    predicate Fits() {
      -M53 < significand < M53 && scale <= 1022
    }

    /** The significand at a finer scale. */
    function At(e: nat): int
      requires scale <= e
    {
      significand * Pow2(e - scale)
    }
  }

  function Max(x: nat, y: nat): nat { if x < y then y else x }

  function Product(x: Double, y: Double): Double {
    Double(x.significand * y.significand, x.scale + y.scale)
  }

  function Sum(x: Double, y: Double): Double {
    var e := Max(x.scale, y.scale);
    Double(x.At(e) + y.At(e), e)
  }

  function Difference(x: Double, y: Double): Double {
    var e := Max(x.scale, y.scale);
    Double(x.At(e) - y.At(e), e)
  }

  function Mul(x: Double, y: Double): Double
    requires x.Fits() && y.Fits() && Product(x, y).Fits()
  {
    Product(x, y)
  }

  function Add(x: Double, y: Double): Double
    requires x.Fits() && y.Fits() && Sum(x, y).Fits()
  {
    Sum(x, y)
  }

  function Sub(x: Double, y: Double): Double
    requires x.Fits() && y.Fits() && Difference(x, y).Fits()
  {
    Difference(x, y)
  }

  /** Truncation to int, of a number that is not negative and in range. */
  function ToInt(x: Double): int
    requires x.Fits() && 0 <= x.significand && x.significand / Pow2(x.scale) < INT_LIMIT
  {
    x.significand / Pow2(x.scale)
  }

  function OfInt(j: int): Double { Double(j, 0) }

  // ---------- One number ----------

  /** The integer part of the split: x == 2^23 * Upper(x) + Lower(x). */
  function Upper(x: nat): nat { x / M23 }

  function Lower(x: nat): nat { x % M23 }

  /** What the routine is for. */
  function Times(a: nat, x: nat): nat { a * x % M46 }

  /** The halves give the product: what is dropped is a multiple of 2^46. */
  lemma HalvesGiveProduct(a: nat, x: nat) returns (t1: nat, t3: nat)
    requires a < M46 && x < M46
    ensures t1 == Upper(a) * Lower(x) + Lower(a) * Upper(x)
    ensures t3 == M23 * (t1 % M23) + Lower(a) * Lower(x)
    ensures t1 < 2 * M46 && t1 / M23 < 2 * M23
    ensures t3 < 2 * M46 && t3 / M46 < 2 && t3 % M46 == Times(a, x)
    ensures 0 <= Upper(a) == a / M23 < M23 && 0 <= Lower(a) == a % M23 < M23
    ensures 0 <= Upper(x) == x / M23 < M23 && 0 <= Lower(x) == x % M23 < M23
  {
    var a1, a2, x1, x2 := Upper(a), Lower(a), Upper(x), Lower(x);
    assert a == M23 * a1 + a2 && x == M23 * x1 + x2;
    Below(a1, x2);
    Below(a2, x1);
    Below(a2, x2);
    t1 := a1 * x2 + a2 * x1;
    var t2, z := t1 / M23, t1 % M23;
    assert t1 == M23 * t2 + z;
    t3 := M23 * z + a2 * x2;
    SplitProduct(a1, a2, x1, x2);
    assert a * x == t3 + (a1 * x1 + t2) * M46;
    ModShift(t3, a1 * x1 + t2, M46);
  }

  lemma SplitProduct(a1: int, a2: int, x1: int, x2: int)
    ensures (M23 * a1 + a2) * (M23 * x1 + x2) == M46 * (a1 * x1) + M23 * (a1 * x2 + a2 * x1) + a2 * x2
  {
    assert (M23 * a1 + a2) * (M23 * x1 + x2) == (M23 * a1) * (M23 * x1) + (M23 * a1) * x2 + a2 * (M23 * x1) + a2 * x2;
    assert (M23 * a1) * (M23 * x1) == M46 * (a1 * x1);
    assert (M23 * a1) * x2 == M23 * (a1 * x2);
    assert a2 * (M23 * x1) == M23 * (a2 * x1);
  }

  lemma ProductGrows(x: nat, y: nat, z: nat)
    requires y <= z
    ensures x * y <= x * z
  {
  }

  lemma Below(x: nat, y: nat)
    requires x < M23 && y < M23
    ensures 0 <= x * y < M46
  {
    ProductGrows(x, y, M23);
  }

  ghost predicate IsWord(d: Double) {
    d.scale == 0 && 0 <= d.significand < M46
  }

  class Cell {
    var v: Double

    constructor (v: Double)
      ensures this.v == v
    {
      this.v := v;
    }
  }

  /** The static variables of the routine. */
  class Statics {
    var ks: int
    var r23: Double
    var r46: Double
    var t23: Double
    var t46: Double

    ghost predicate Valid()
      reads this
    {
      ks != 0 ==>
        r23 == Double(1, 23) && t23 == OfInt(M23) && r46 == Double(1, 46) && t46 == OfInt(M46)
    }

    constructor ()
      ensures Valid()
    {
      ks := 0;
      r23, r46, t23, t46 := OfInt(0), OfInt(0), OfInt(0), OfInt(0);
    }

    method Initialise()
      requires Valid()
      modifies this
      ensures Valid() && ks != 0
    {
      Pow2Is();
      hide Pow2, Product;
      if ks == 0 {
        r23, r46, t23, t46 := OfInt(1), OfInt(1), OfInt(1), OfInt(1);
        for i := 1 to 24
          invariant r23 == Double(1, i - 1) && t23 == OfInt(Pow2(i - 1))
          invariant r46 == t46 == OfInt(1) && ks == 0
        {
          HalveAndDouble(i - 1);
          r23 := Mul(Double(1, 1), r23);
          t23 := Mul(OfInt(2), t23);
        }
        for i := 1 to 47
          invariant r46 == Double(1, i - 1) && t46 == OfInt(Pow2(i - 1))
          invariant r23 == Double(1, 23) && t23 == OfInt(M23) && ks == 0
        {
          HalveAndDouble(i - 1);
          r46 := Mul(Double(1, 1), r46);
          t46 := Mul(OfInt(2), t46);
        }
        ks := 1;
      }
    }
  }

  lemma HalveAndDouble(i: nat)
    requires i <= 46
    ensures Product(Double(1, 1), Double(1, i)) == Double(1, i + 1)
    ensures Product(OfInt(2), OfInt(Pow2(i))) == OfInt(Pow2(i + 1))
    ensures 0 < Pow2(i + 1) == 2 * Pow2(i) <= 2 * M46
  {
    Pow2Monotone(i + 1, 47);
    Pow2Is();
  }

  lemma Pow2Is()
    ensures Pow2(0) == 1 && Pow2(23) == M23 && Pow2(44) == M46 / 4 && Pow2(46) == M46 && Pow2(47) == 2 * M46
  {
    assert Pow2(11) == 0x800;
    assert Pow2(12) == 2 * Pow2(11);
    Pow2Split(23, 12);
    Pow2Split(46, 23);
    assert Pow2(47) == 2 * Pow2(46) && Pow2(46) == 2 * Pow2(45) && Pow2(45) == 2 * Pow2(44);
  }

  /** Quotient and remainder by 2^e: a scaling, a truncation and a subtraction. */
  method Divide(down: Double, up: Double, v: Double, ghost n: nat, ghost e: nat)
    returns (quotient: Double, rest: Double)
    requires e <= 46 && down == Double(1, e) && up == OfInt(Pow2(e))
    requires v == OfInt(n) && n < 2 * M46 && n / Pow2(e) < 2 * M23
    ensures quotient == OfInt(n / Pow2(e)) && rest == OfInt(n % Pow2(e))
  {
    Pow2Monotone(e, 46);
    Pow2Is();
    DivideIsExact(n, e);
    hide Pow2, Product, Difference;
    var t := Mul(down, v);
    var j := ToInt(t);
    quotient := OfInt(j);
    rest := Sub(v, Mul(up, quotient));
  }

  lemma DivideIsExact(n: nat, e: nat)
    requires Pow2(e) <= M46 && n < 2 * M46
    ensures Product(Double(1, e), OfInt(n)) == Double(n, e)
    ensures var p := Product(OfInt(Pow2(e)), OfInt(n / Pow2(e)));
      p.Fits() && 0 <= n / Pow2(e) <= n && Difference(OfInt(n), p) == OfInt(n % Pow2(e))
  {
    QuotientAndRest(n, Pow2(e));
    assert Pow2(0) == 1;
    hide Pow2;
    var p := Product(OfInt(Pow2(e)), OfInt(n / Pow2(e)));
    assert p.At(0) == p.significand && OfInt(n).At(0) == n;
  }

  lemma QuotientAndRest(n: nat, d: nat)
    requires d > 0
    ensures n - d * (n / d) == n % d && 0 <= d * (n / d) <= n && 0 <= n / d <= n
  {
    assert n == d * (n / d) + n % d;
    ProductGrows(n / d, 1, d);
  }

  /** A sum of two products. */
  method Cross(a: Double, b: Double, c: Double, d: Double) returns (r: Double)
    requires a.scale == b.scale == c.scale == d.scale == 0
    requires 0 <= a.significand <= M23 && 0 <= b.significand < M23
    requires 0 <= c.significand < M23 && 0 <= d.significand < M23
    ensures r == OfInt(a.significand * b.significand + c.significand * d.significand)
  {
    assert Pow2(0) == 1;
    hide Pow2;
    ProductGrows(b.significand, a.significand, M23);
    Below(c.significand, d.significand);
    r := Add(Mul(a, b), Mul(c, d));
  }

  /**
    One number of the sequence, written through the first argument. Both arguments may be the same
    cell; the halves of both are taken before the result is stored.
   */
  method Randlc(s: Statics, X: Cell, A: Cell) returns (r: Double)
    requires s.Valid() && IsWord(X.v) && IsWord(A.v)
    modifies s, X
    ensures s.Valid() && s.ks != 0
    ensures X.v == OfInt(Times(old(A.v.significand), old(X.v.significand)))
    ensures r == Double(X.v.significand, 46)
  {
    ghost var a, x := A.v.significand, X.v.significand;
    ghost var p, q := HalvesGiveProduct(a, x);
    Pow2Is();
    s.Initialise();
    hide Pow2, Times, Upper, Lower;
    var a1, a2 := Divide(s.r23, s.t23, A.v, a, 23);
    var x1, x2 := Divide(s.r23, s.t23, X.v, x, 23);
    var t1 := Cross(a1, x2, a2, x1);
    var t2, z := Divide(s.r23, s.t23, t1, p, 23);
    var t3 := Cross(s.t23, z, a2, x2);
    var t4, rest := Divide(s.r46, s.t46, t3, q, 46);
    X.v := rest;
    r := Mul(s.r46, X.v);
  }

  // ---------- Jumping ahead ----------

  /** The n-th number of the sequence that starts at x with multiplier a. */
  function Element(x: nat, a: nat, n: nat): nat { x * Power(a, n) % M46 }

  /** Each call of the routine moves on by one number. */
  lemma NextElement(x: nat, a: nat, n: nat)
    ensures Times(a, Element(x, a, n)) == Element(x, a, n + 1)
  {
    ModLeft(x * Power(a, n), a, M46);
    assert a * Element(x, a, n) == Element(x, a, n) * a;
    assert x * Power(a, n) * a == x * Power(a, n + 1);
  }

  /** Squaring the multiplier halves the distance. */
  lemma HalfWay(x: nat, y: nat, k: nat)
    ensures Element(x, Times(y, y), k) == Element(x, y, 2 * k)
    ensures Element(Times(y, x), Times(y, y), k) == Element(x, y, 2 * k + 1)
  {
    var z := Times(y, y);
    PowerTwice(y, k);
    ModUnique(z, M46, 0, z);
    PowerMod(z, y * y, k, M46);
    var p, q := Power(z, k), Power(y, 2 * k);
    ModCongruent(x, x, p, q, M46);
    ModCongruent(Times(y, x), y * x, p, q, M46);
    assert y * x * q == x * Power(y, 2 * k + 1);
  }

  /** Division of C, which truncates. */
  function Truncated(n: int, d: int): int
    requires d != 0
  {
    if n >= 0 then n / d else -((-n) / d)
  }

  function Log2(n: int): nat {
    if n <= 1 then 0 else 1 + Log2(n / 2)
  }

  lemma {:induction false} Log2Is(n: nat)
    requires n > 0
    ensures Pow2(Log2(n)) <= n < 2 * Pow2(Log2(n))
  {
    if n > 1 {
      Log2Is(n / 2);
    }
  }

  /**
    2^mq is the largest power of two that is not above nn / np, or 1 if that is less than one. A
    quotient of two negative numbers is that of their absolute values.
   */
  ghost predicate IsTopPower(mq: nat, np: int, nn: int) {
    var n, d := if np > 0 then nn else -nn, if np > 0 then np else -np;
    if n >= d then Pow2(mq) * d <= n < Pow2(mq + 1) * d else mq == 0
  }

  lemma QuotientTimes(n: nat, d: nat)
    requires d > 0
    ensures (n / d) * d <= n < (n / d + 1) * d
  {
    assert n == d * (n / d) + n % d;
  }

  lemma TimesMonotone(x: int, y: int, d: nat)
    requires x <= y
    ensures x * d <= y * d
  {
  }

  lemma NoQuotient(n: int, d: int)
    requires n < d && d > 0
    ensures Truncated(n, d) <= 0
  {
    if n >= 0 {
      ModUnique(n, d, 0, n);
    }
  }

  /** What the halvings of the truncated quotient come to. */
  lemma TopPowerIs(np: int, nn: int)
    requires np != 0
    ensures IsTopPower(Log2(Truncated(nn, np)), np, nn)
  {
    hide Pow2;
    var n, d := if np > 0 then nn else -nn, if np > 0 then np else -np;
    var q := Truncated(n, d);
    SameQuotient(nn, np);
    hide Truncated;
    if n >= d {
      QuotientTimes(n, d);
      QuotientPositive(n, d);
      Log2Is(q);
      Pow2Step(Log2(q));
      TimesMonotone(Pow2(Log2(q)), q, d);
      TimesMonotone(q + 1, Pow2(Log2(q) + 1), d);
    } else {
      NoQuotient(n, d);
    }
  }

  lemma QuotientPositive(n: nat, d: nat)
    requires 0 < d <= n
    ensures Truncated(n, d) == n / d >= 1
  {
  }

  /** Changing both signs does not change a truncated quotient. */
  lemma SameQuotient(n: int, d: int)
    requires d != 0
    ensures Truncated(-n, -d) == Truncated(n, d)
  {
    if n == 0 {
      ZeroQuotient(d);
      ZeroQuotient(-d);
    } else if n > 0 {
      NegatedDivisor(n, d);
    } else {
      NegatedDivisor(-n, d);
    }
  }

  lemma ZeroQuotient(d: int)
    requires d != 0
    ensures 0 / d == 0
  {
  }

  /** For a dividend that is not negative, changing the sign of the divisor changes that of the quotient. */
  lemma NegatedDivisor(n: nat, d: int)
    requires d != 0
    ensures n / (-d) == -(n / d)
  {
  }

  /** The number of halvings until the share of a unit is at most one. */
  method Halvings(nq0: int) returns (mq: nat)
    ensures mq == Log2(nq0)
  {
    var nq := nq0;
    mq := 0;
    while nq > 1
      invariant mq + Log2(nq) == Log2(nq0)
    {
      mq := mq + 1;
      nq := nq / 2;
    }
  }

  /** Repeated squaring in place, both arguments of each call being the same cell. */
  method Squarings(s: Statics, t1: Cell, mq: nat)
    requires s.Valid() && IsWord(t1.v)
    modifies s, t1
    ensures s.Valid() && t1.v == OfInt(Power(old(t1.v.significand), Pow2(mq)) % M46)
  {
    ghost var a := t1.v.significand;
    PowerOnce(a);
    for i := 1 to mq + 1
      invariant s.Valid() && t1.v == OfInt(Power(a, Pow2(i - 1)) % M46)
    {
      SquareAgain(a, i - 1);
      var t2 := Randlc(s, t1, t1);
    }
  }

  lemma PowerOnce(a: nat)
    requires a < M46
    ensures Power(a, Pow2(0)) % M46 == a
  {
    assert Power(a, 1) == a * Power(a, 0);
  }

  lemma SquareAgain(a: nat, i: nat)
    ensures var p := Power(a, Pow2(i)) % M46; Times(p, p) == Power(a, Pow2(i + 1)) % M46
  {
    PowerAdd(a, Pow2(i), Pow2(i));
    ModBoth(Power(a, Pow2(i)), Power(a, Pow2(i)), M46);
  }

  /** The loop over the bits of the rank. */
  method Jump(s: Statics, t1: Cell, t2: Cell, kn: nat)
    requires s.Valid() && t1 != t2 && IsWord(t1.v) && IsWord(t2.v)
    requires kn < INT_LIMIT
    modifies s, t1, t2
    ensures t1.v == OfInt(Element(old(t1.v.significand), old(t2.v.significand), kn))
  {
    ghost var x, a := t1.v.significand, t2.v.significand;
    IntLimitIs();
    hide Element, Times, Pow2;
    var kk, i := kn, 1;
    while i <= 100
      invariant s.Valid() && IsWord(t1.v) && IsWord(t2.v)
      invariant 1 <= i <= 32 && 0 <= kk < Pow2(32 - i)
      invariant Element(t1.v.significand, t2.v.significand, kk) == Element(x, a, kn)
      decreases 100 - i
    {
      ghost var y, z := t1.v.significand, t2.v.significand;
      var ik := kk / 2;
      HalfWay(y, z, ik);
      TimesIsWord(z, z);
      TimesIsWord(z, y);
      if 2 * ik != kk {
        var t3 := Randlc(s, t1, t2);
      }
      if ik == 0 {
        NoDistance(t1.v.significand, Times(z, z));
        break;
      }
      var t3 := Randlc(s, t2, t2);
      HalveBound(kk, i);
      kk := ik;
      i := i + 1;
    }
  }

  lemma IntLimitIs()
    ensures Pow2(31) == INT_LIMIT
  {
    assert Pow2(10) == 1024;
    Pow2Split(20, 10);
    Pow2Split(31, 20);
    assert Pow2(11) == 2 * Pow2(10);
  }

  lemma HalveBound(kk: nat, i: nat)
    requires 1 <= i <= 32 && kk < Pow2(32 - i) && kk / 2 > 0
    ensures i < 32 && kk / 2 < Pow2(31 - i)
  {
  }

  lemma TimesIsWord(x: nat, y: nat)
    ensures Times(x, y) < M46
  {
  }

  lemma NoDistance(x: nat, a: nat)
    requires x < M46
    ensures Element(x, a, 0) == x
  {
    assert Power(a, 0) == 1;
  }

  /**
    The seed of a unit: the element of the sequence at its rank times the largest power of two that
    is not above the share of a unit. The documentation promises the element at the rank times the
    share; for the multipliers in use the last clause says exactly when that is the same.
   */
  method FindMySeed(s: Statics, kn: nat, np: int, nn: int, seed: Double, a: Double) returns (t: Double)
    requires s.Valid() && np != 0 && kn < INT_LIMIT && IsWord(seed) && IsWord(a)
    modifies s
    ensures exists mq: nat ::
      && IsTopPower(mq, np, nn) && t == OfInt(Element(seed.significand, a.significand, kn * Pow2(mq)))
      && (seed.significand % 2 == 1 && a.significand % 8 == 5 ==>
            forall share: nat :: IsShare(share, np, nn) ==>
              (t == OfInt(Element(seed.significand, a.significand, kn * share)) <==>
               Divides(Pow2(44), kn * (share - Pow2(mq)))))
  {
    hide Element, Log2, Truncated, Pow2, Divides, IsTopPower, IsShare;
    TopPowerIs(np, nn);
    var mq := Halvings(Truncated(nn, np));
    var t1 := new Cell(a);
    Squarings(s, t1, mq);
    var an := t1.v;
    t1.v := seed;
    var t2 := new Cell(an);
    Jump(s, t1, t2, kn);
    PowerOfPower(seed.significand, a.significand, Pow2(mq), kn);
    t := t1.v;
    ghost var x, y := seed.significand, a.significand;
    if x % 2 == 1 && y % 8 == 5 {
      forall share: nat | IsShare(share, np, nn)
        ensures t == OfInt(Element(x, y, kn * share)) <==> Divides(Pow2(44), kn * (share - Pow2(mq)))
      {
        SeedStartsShare(x, y, kn, np, nn, share, mq);
      }
    }
  }

  lemma PowerOfPower(x: nat, a: nat, m: nat, n: nat)
    ensures Element(x, Power(a, m) % M46, n) == Element(x, a, n * m)
  {
    var p := Power(a, m) % M46;
    ModUnique(p, M46, 0, p);
    PowerMod(p, Power(a, m), n, M46);
    PowerTimes(a, m, n);
    ModCongruent(x, x, Power(p, n), Power(Power(a, m), n), M46);
    assert m * n == n * m;
  }

  // ---------- Whether the seed is the one promised ----------

  /**
    With an odd start and a multiplier that is five modulo eight, the sequence has period 2^44
    exactly: two positions hold the same number when they differ by a multiple of 2^44 and in no
    other case.
   */
  lemma SameElement(x: nat, a: nat, m: nat, n: nat)
    requires x % 2 == 1 && a % 8 == 5
    ensures Element(x, a, m) == Element(x, a, n) <==> Divides(Pow2(44), m - n)
  {
    if m >= n {
      SameElementOrdered(x, a, m, n);
    } else {
      SameElementOrdered(x, a, n, m);
      DividesNegated(Pow2(44), m - n);
    }
  }

  lemma DividesNegated(d: nat, x: int)
    requires d > 0
    ensures Divides(d, x) <==> Divides(d, -x)
  {
    DividesMeans(d, x);
    DividesMeans(d, -x);
    if q: int :| x == q * d {
      assert -x == (-q) * d;
    }
    if q: int :| -x == q * d {
      assert x == (-q) * d;
    }
  }

  lemma SameElementOrdered(x: nat, a: nat, m: nat, n: nat)
    requires x % 2 == 1 && a % 8 == 5 && n <= m
    ensures Element(x, a, m) == Element(x, a, n) <==> Divides(Pow2(44), m - n)
  {
    hide Divides, Pow2, Power;
    var y, q := x * Power(a, n), Power(a, m - n);
    OddElement(x, a, n);
    Farther(x, a, m, n);
    OrderOfFive(a, 44, m - n);
    OddFactor(46, q - 1, y);
    Pow2Is();
    assert q * y - y == (q - 1) * y;
    SameRest(q * y, y, M46);
  }

  lemma OddElement(x: nat, a: nat, n: nat)
    requires x % 2 == 1 && a % 8 == 5
    ensures x * Power(a, n) % 2 == 1
  {
    PowerOneMod(a, n, 2);
    OddTimesOdd(x, Power(a, n));
  }

  lemma Farther(x: nat, a: nat, m: nat, n: nat)
    requires n <= m
    ensures x * Power(a, m) == Power(a, m - n) * (x * Power(a, n))
  {
    hide Power;
    PowerAdd(a, m - n, n);
    TimesSwaps(x, Power(a, m - n), Power(a, n));
  }

  lemma TimesSwaps(x: nat, q: nat, p: nat)
    ensures x * (q * p) == q * (x * p)
  {
  }

  lemma SameRest(x: int, y: int, m: nat)
    requires m > 0
    ensures x % m == y % m <==> Divides(m, x - y)
  {
    DividesMeans(m, x - y);
    if x % m == y % m {
      assert x - y == m * (x / m) - m * (y / m);
      assert x - y == (x / m - y / m) * m;
    }
    if q: int :| x - y == q * m {
      ModShift(y, q, m);
    }
  }

  /** The share of each of np units in nn numbers, rounded down. */
  predicate IsShare(share: nat, np: int, nn: int) {
    np > 0 && share * np <= nn < (share + 1) * np
  }

  /**
    The seed is documented as the first number of the unit's own share of the sequence. It is that
    number exactly when 2^44 divides the rank times the amount by which the share exceeds a power
    of two: for every rank if the share is a power of two, and for rank zero.
   */
  lemma SeedStartsShare(seed: nat, a: nat, kn: nat, np: int, nn: int, share: nat, mq: nat)
    requires seed % 2 == 1 && a % 8 == 5 && IsShare(share, np, nn) && IsTopPower(mq, np, nn)
    ensures Element(seed, a, kn * Pow2(mq)) == Element(seed, a, kn * share) <==>
            Divides(Pow2(44), kn * (share - Pow2(mq)))
  {
    hide Pow2, Element, Divides;
    TimesMinus(kn, share, Pow2(mq));
    SameElement(seed, a, kn * share, kn * Pow2(mq));
  }

  lemma TimesMinus(k: int, x: int, y: int)
    ensures k * x - k * y == k * (x - y)
  {
  }

  /** With three units and 2^27 numbers, the second unit does not start at the first third. */
  lemma SeedMissesShare(seed: nat, a: nat, share: nat, mq: nat)
    requires seed % 2 == 1 && a % 8 == 5 && IsShare(share, 3, 0x800_0000) && IsTopPower(mq, 3, 0x800_0000)
    ensures Element(seed, a, Pow2(mq)) != Element(seed, a, share)
  {
    hide Element, Pow2;
    Pow2Is();
    NotPow2(share, mq);
    SeedStartsShare(seed, a, 1, 3, 0x800_0000, share, mq);
    ModUnique(share - Pow2(mq), Pow2(44), 0, share - Pow2(mq));
  }

  lemma NotPow2(n: nat, k: nat)
    requires n % 2 == 0 && n / 2 % 2 == 1 && n > 2
    ensures n != Pow2(k)
  {
    if k >= 2 {
      assert Pow2(k) == 2 * Pow2(k - 1) && Pow2(k - 1) == 2 * Pow2(k - 2);
    }
  }
}
