/** Products and powers modulo m, and the orders of odd numbers modulo powers of two. */
module ModularPowers {
  import opened Division
  import opened Powers

  function Power(a: nat, n: nat): nat {
    if n == 0 then 1 else a * Power(a, n - 1)
  }

  // ---------- Powers ----------

  lemma {:induction false} PowerAdd(a: nat, m: nat, n: nat)
    ensures Power(a, m + n) == Power(a, m) * Power(a, n)
  {
    hide Power;
    if m == 0 {
      PowerStep(a, 0);
    } else {
      PowerAdd(a, m - 1, n);
      PowerStep(a, m - 1);
      PowerStep(a, m - 1 + n);
      TimesAssociates(a, Power(a, m - 1), Power(a, n));
    }
  }

  lemma PowerStep(a: nat, n: nat)
    ensures Power(a, 0) == 1 && Power(a, n + 1) == a * Power(a, n)
  {
  }

  lemma TimesAssociates(x: nat, y: nat, z: nat)
    ensures x * (y * z) == (x * y) * z
  {
  }

  lemma {:induction false} PowerTimes(a: nat, m: nat, n: nat)
    ensures Power(a, m * n) == Power(Power(a, m), n)
  {
    if n > 0 {
      PowerTimes(a, m, n - 1);
      PowerAdd(a, m, m * (n - 1));
      assert m * n == m + m * (n - 1);
    }
  }

  lemma PowerTwice(a: nat, n: nat)
    ensures Power(a * a, n) == Power(a, 2 * n)
  {
    hide Power;
    PowerTimes(a, 2, n);
    PowerStep(a, 0);
    PowerStep(a, 1);
  }

  lemma {:induction false} PowerMod(a: nat, b: nat, n: nat, m: nat)
    requires m > 0 && a % m == b % m
    ensures Power(a, n) % m == Power(b, n) % m
  {
    if n > 0 {
      PowerMod(a, b, n - 1, m);
      ModCongruent(a, b, Power(a, n - 1), Power(b, n - 1), m);
    }
  }

  // ---------- Divisibility by powers of two ----------

  predicate Divides(d: nat, x: int)
    requires d > 0
  {
    x % d == 0
  }

  lemma DividesMeans(d: nat, x: int)
    requires d > 0
    ensures Divides(d, x) <==> exists q: int :: x == q * d
  {
    if Divides(d, x) {
      assert x == (x / d) * d;
    }
    if q: int :| x == q * d {
      ModUnique(x, d, q, 0);
    }
  }

  lemma DividesTwice(d: nat, x: int)
    requires d > 0
    ensures Divides(2 * d, 2 * x) <==> Divides(d, x)
  {
    if Divides(d, x) {
      var q := x / d;
      assert x == q * d;
      ModUnique(2 * x, 2 * d, q, 0);
    }
    if Divides(2 * d, 2 * x) {
      var q := 2 * x / (2 * d);
      assert 2 * x == q * (2 * d);
      assert q * (2 * d) == 2 * (q * d);
      ModUnique(x, d, q, 0);
    }
  }

  lemma DividesHalf(d: nat, x: int)
    requires d > 0 && Divides(2 * d, x)
    ensures x % 2 == 0 && Divides(d, x)
  {
    var q := x / (2 * d);
    assert x == q * (2 * d);
    assert q * (2 * d) == 2 * (q * d) == (2 * q) * d;
    ModUnique(x, d, 2 * q, 0);
  }

  /** An odd factor does not help a power of two to divide. */
  lemma {:induction false} OddFactor(k: nat, x: int, odd: int)
    requires odd % 2 == 1
    ensures Divides(Pow2(k), x * odd) <==> Divides(Pow2(k), x)
  {
    if k > 0 {
      var d := Pow2(k - 1);
      if x % 2 == 0 {
        var y := x / 2;
        assert x * odd == 2 * (y * odd);
        OddFactor(k - 1, y, odd);
        DividesTwice(d, y);
        DividesTwice(d, y * odd);
      } else {
        OddTimesOdd(x, odd);
        if Divides(2 * d, x * odd) {
          DividesHalf(d, x * odd);
        }
        if Divides(2 * d, x) {
          DividesHalf(d, x);
        }
      }
    }
  }

  lemma OddTimesOdd(x: int, y: int)
    requires x % 2 == 1 && y % 2 == 1
    ensures x * y % 2 == 1
  {
    ModBoth(x, y, 2);
  }

  lemma PowerOneMod(a: nat, n: nat, m: nat)
    requires m > 1 && a % m == 1
    ensures Power(a, n) % m == 1
  {
    hide Power;
    OnePower(n);
    ModUnique(1, m, 0, 1);
    PowerMod(a, 1, n, m);
  }

  lemma {:induction false} OnePower(n: nat)
    ensures Power(1, n) == 1
  {
    if n > 0 {
      OnePower(n - 1);
    }
  }

  lemma DifferenceOfSquares(p: int, half: int)
    requires p + 1 == 2 * half
    ensures p * p - 1 == 2 * ((p - 1) * half)
  {
    assert (p - 1) * (p + 1) == p * p - 1;
    assert (p - 1) * (2 * half) == 2 * ((p - 1) * half);
  }

  /** Squaring gains one power of two, because the sum of the two factors is twice an odd number. */
  lemma SquareOrder(p: int, k: nat)
    requires p % 4 == 1
    ensures Divides(Pow2(k + 1), p * p - 1) <==> Divides(Pow2(k), p - 1)
  {
    var half := (p + 1) / 2;
    DifferenceOfSquares(p, half);
    OddFactor(k, p - 1, half);
    DividesTwice(Pow2(k), (p - 1) * half);
  }

  /**
    A number that is five modulo eight has order 2^k modulo 2^(k + 2): its powers come back to
    one exactly at the multiples of 2^k.
   */
  lemma {:induction false} OrderOfFive(a: nat, k: nat, n: nat)
    requires a % 8 == 5
    ensures Divides(Pow2(k + 2), Power(a, n) - 1) <==> Divides(Pow2(k), n)
    decreases k
  {
    if k == 0 {
      OrderBase(a, n);
    } else if n % 2 == 0 {
      OrderOfFive(a, k - 1, n / 2);
      OrderDoubles(a, k - 1, n / 2);
    } else {
      OddNotReached(a, k, n);
    }
  }

  lemma OrderBase(a: nat, n: nat)
    requires a % 8 == 5
    ensures Divides(Pow2(2), Power(a, n) - 1) && Divides(Pow2(0), n)
  {
    hide Power, Pow2, Divides;
    FirstPowers();
    FiveModFour(a);
    PowerOneMod(a, n, 4);
    DividesOneLess(Power(a, n), n);
  }

  lemma DividesOneLess(p: nat, n: nat)
    requires p % 4 == 1
    ensures Divides(4, p - 1) && Divides(1, n)
  {
  }

  lemma FirstPowers()
    ensures Pow2(0) == 1 && Pow2(1) == 2 && Pow2(2) == 4 && Pow2(3) == 8
  {
  }

  lemma FiveModFour(a: nat)
    requires a % 8 == 5
    ensures a % 4 == 1
  {
  }

  lemma OrderDoubles(a: nat, k: nat, m: nat)
    requires a % 8 == 5
    requires Divides(Pow2(k + 2), Power(a, m) - 1) <==> Divides(Pow2(k), m)
    ensures Divides(Pow2(k + 3), Power(a, 2 * m) - 1) <==> Divides(Pow2(k + 1), 2 * m)
  {
    hide Power, Divides, Pow2;
    Pow2Step(k);
    FiveModFour(a);
    DividesTwice(Pow2(k), m);
    PowerOneMod(a, m, 4);
    PowerAdd(a, m, m);
    SquareOrder(Power(a, m), k + 2);
  }

  lemma OddNotReached(a: nat, k: nat, n: nat)
    requires a % 8 == 5 && k > 0 && n % 2 == 1
    ensures !Divides(Pow2(k + 2), Power(a, n) - 1) && !Divides(Pow2(k), n)
  {
    hide Power, Pow2;
    OddPowerOfFive(a, n);
    FirstPowers();
    if Divides(Pow2(k + 2), Power(a, n) - 1) {
      DividesLess(3, k + 2, Power(a, n) - 1);
    }
    if Divides(Pow2(k), n) {
      DividesLess(1, k, n);
    }
  }

  lemma {:induction false} DividesLess(j: nat, k: nat, x: int)
    requires j <= k && Divides(Pow2(k), x)
    ensures Divides(Pow2(j), x)
  {
    if j < k {
      DividesHalf(Pow2(k - 1), x);
      DividesLess(j, k - 1, x);
    }
  }

  lemma OddPowerOfFive(a: nat, n: nat)
    requires a % 8 == 5 && n % 2 == 1
    ensures Power(a, n) % 8 == 5
  {
    hide Power;
    var h := n / 2;
    PowerStep(a, 2 * h);
    PowerTwice(a, h);
    SquareOfFive(a);
    PowerOneMod(a * a, h, 8);
    FiveTimesOne(a, Power(a * a, h));
  }

  lemma SquareOfFive(a: nat)
    requires a % 8 == 5
    ensures (a * a) % 8 == 1
  {
    ModCongruent(a, 5, a, 5, 8);
  }

  lemma FiveTimesOne(a: nat, p: nat)
    requires a % 8 == 5 && p % 8 == 1
    ensures (a * p) % 8 == 5
  {
    ModCongruent(a, 5, p, 1, 8);
  }
}
