/** Division with remainder, and products modulo m. */
module Division {

  lemma Multiple(m: int, d: int)
    requires m > 0
    ensures d >= 1 ==> m * d >= m
    ensures d <= -1 ==> m * d <= -m
  {
  }

  lemma ModUnique(x: int, m: int, q: int, r: int)
    requires m > 0 && x == q * m + r && 0 <= r < m
    ensures x % m == r && x / m == q
  {
    var d := x / m - q;
    assert x == m * (x / m) + x % m;
    assert m * d == m * (x / m) - m * q;
    Multiple(m, d);
  }

  lemma ModShift(x: int, k: int, m: int)
    requires m > 0
    ensures (x + k * m) % m == x % m
  {
    var q, r := x / m, x % m;
    assert x == m * q + r;
    assert (q + k) * m + r == q * m + k * m + r;
    ModUnique(x + k * m, m, q + k, r);
  }

  lemma ModLeft(x: int, y: int, m: int)
    requires m > 0
    ensures (x % m) * y % m == x * y % m
  {
    var q, r := x / m, x % m;
    assert x == q * m + r;
    assert x * y == r * y + (q * y) * m by {
      assert (q * m + r) * y == (q * m) * y + r * y;
      assert (q * m) * y == (q * y) * m;
    }
    ModShift(r * y, q * y, m);
  }

  lemma ModBoth(x: int, y: int, m: int)
    requires m > 0
    ensures (x % m) * (y % m) % m == x * y % m
  {
    ModLeft(x, y % m, m);
    ModLeft(y, x, m);
    assert x * (y % m) == (y % m) * x && y * x == x * y;
  }

  lemma ModCongruent(x: int, x': int, y: int, y': int, m: int)
    requires m > 0 && x % m == x' % m && y % m == y' % m
    ensures x * y % m == x' * y' % m
  {
    ModBoth(x, y, m);
    ModBoth(x', y', m);
  }
}
