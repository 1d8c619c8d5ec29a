/** Powers of two and shifts. */
module Powers {

  function Pow2(n: nat): (p: nat)
    ensures p > 0
  {
    if n == 0 then 1 else 2 * Pow2(n - 1)
  }

  lemma Pow2Step(n: nat)
    ensures Pow2(n + 1) == 2 * Pow2(n)
  {
  }

  lemma {:induction false} Pow2Split(n: nat, k: nat)
    requires k <= n
    ensures Pow2(n) == Pow2(n - k) * Pow2(k)
  {
    if k > 0 {
      Pow2Split(n, k - 1);
      Regroup(Pow2(n - k), Pow2(k - 1));
    }
  }

  lemma Regroup(a: nat, b: nat)
    ensures (2 * a) * b == a * (2 * b)
  {
  }

  lemma {:induction false} Pow2Monotone(a: nat, b: nat)
    requires a <= b
    ensures Pow2(a) <= Pow2(b)
    ensures a < b ==> 2 * Pow2(a) <= Pow2(b)
  {
    if a < b {
      Pow2Monotone(a, b - 1);
    }
  }

  lemma Pow2Injective(a: nat, b: nat)
    ensures Pow2(a) == Pow2(b) <==> a == b
    ensures Pow2(a) < Pow2(b) <==> a < b
  {
    if a < b {
      Pow2Monotone(a, b);
    } else {
      Pow2Monotone(b, a);
    }
  }

  function ShiftRight(x: nat, k: nat): nat {
    if k == 0 then x else ShiftRight(x / 2, k - 1)
  }

  lemma {:induction false} ShiftRightOnce(x: nat, k: nat)
    ensures ShiftRight(x, k + 1) == ShiftRight(x, k) / 2
  {
    if k > 0 {
      ShiftRightOnce(x / 2, k - 1);
    }
  }

  lemma {:induction false} ShiftedOut(x: nat, k: nat)
    ensures ShiftRight(x, k) == 0 <==> x < Pow2(k)
  {
    if k > 0 {
      ShiftedOut(x / 2, k - 1);
    }
  }
}
