/** 64-bit signed integers, and facts about division. */
module Arithmetic {
  const TWO_63: int := 0x8000_0000_0000_0000
  const TWO_64: int := 0x1_0000_0000_0000_0000

  /** The value a 64-bit signed computation leaves for the mathematical result x. */
  function Wrap64(x: int): (r: int)
    ensures -TWO_63 <= r < TWO_63
    ensures -TWO_63 <= x < TWO_63 ==> r == x
  {
    (x + TWO_63) % TWO_64 - TWO_63
  }

  // ----- Quotients and remainders -------------------------------------------

  lemma Multiple(d: int, n: int)
    requires n >= 0
    ensures d >= 1 ==> d * n >= n
    ensures d <= -1 ==> d * n <= -n
  {
  }

  lemma QuotientIs(v: nat, m: nat, q: nat, r: nat)
    requires v == q * m + r && r < m
    ensures v / m == q
  {
    assert (v / m - q) * m == r - v % m;
    Multiple(v / m - q, m);
  }

  lemma Remainder(i: nat, n: nat, q: int, r: nat)
    requires i == q * n + r && r < n
    ensures i % n == r
  {
    assert (i / n - q) * n == r - i % n;
    Multiple(i / n - q, n);
  }

  lemma RemainderOfDouble(i: nat, n: nat)
    requires n > 0
    ensures var r := i % (2 * n); i % n == if r < n then r else r - n
  {
    var q, r := i / (2 * n), i % (2 * n);
    assert i == (2 * q) * n + r;
    if r < n {
      Remainder(i, n, 2 * q, r);
    } else {
      assert i == (2 * q + 1) * n + (r - n);
      Remainder(i, n, 2 * q + 1, r - n);
    }
  }

  lemma DivideTwice(v: nat, m: nat)
    requires m > 0
    ensures v / 256 / m == v / (256 * m)
  {
    var q, r := v / 256 / m, v / 256 % m;
    assert v / 256 == q * m + r;
    var low := v - 256 * (q * m);
    assert v == q * (256 * m) + low && 0 <= low < 256 * m;
    QuotientIs(v, 256 * m, q, low);
  }
}
