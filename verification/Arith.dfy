/** Remainders. */
module Arith {

  /** The remainder is the only number below `m` that differs from `x` by a multiple of `m`. */
  lemma ModUnique(x: int, q: int, r: int, m: nat)
    requires m > 0 && x == q * m + r && 0 <= r < m
    ensures x % m == r
  {
    var d := x / m - q;
    assert x == (x / m) * m + x % m;
    assert (x / m) * m - q * m == d * m;
    Sign(d, m);
  }

  lemma Sign(d: int, m: nat)
    ensures d >= 1 ==> d * m >= m
    ensures d <= -1 ==> d * m <= -1 * m
  {
  }

  lemma ModShift(x: int, k: int, m: nat)
    requires m > 0
    ensures (x + k * m) % m == x % m
  {
    var q := x / m;
    assert (q + k) * m == q * m + k * m;
    ModUnique(x + k * m, q + k, x % m, m);
  }

  lemma ModAdd(x: int, y: int, m: nat)
    requires m > 0
    ensures (x % m + y) % m == (x + y) % m
  {
    assert x == (x / m) * m + x % m;
    ModShift(x % m + y, x / m, m);
  }

  /** A remainder of a remainder. */
  lemma ModMod(a: int, k: nat, c: nat)
    requires k > 0 && c > 0
    ensures k * c > 0 && a % (k * c) % k == a % k
  {
    Positive(k, c);
    var m := k * c;
    var q := a / m;
    assert a == q * m + a % m;
    assert q * m == (q * c) * k by { assert q * (k * c) == (q * c) * k; }
    ModShift(a % m, q * c, k);
  }

  lemma Positive(k: nat, c: nat)
    requires k > 0 && c > 0
    ensures k * c > 0
  {
  }

  /** A number less its remainder is a multiple. */
  lemma ModLess(a: int, k: nat)
    requires k > 0
    ensures (a - a % k) % k == 0
  {
    assert a - a % k == (a / k) * k;
    ModUnique(a - a % k, a / k, 0, k);
  }

  lemma MulGe(a: nat, k: nat)
    requires k >= 1
    ensures a * k >= a
  {
    assert a * k - a == a * (k - 1);
  }

  lemma DivBounds(x: nat, k: nat)
    requires k >= 1
    ensures 0 <= x / k <= x
  {
    assert x == (x / k) * k + x % k;
    MulGe(x / k, k);
  }
}
