/** Which 64-bit words are reached by adding a stride again and again: those that agree with the first in the
    low bits that the stride leaves alone. */
module Strides {
  import opened Bitwise
  import opened Machine

  /** The largest power of two that divides both `t` and 2^n. */
  function CommonPower(t: nat, n: nat): (g: nat)
    ensures g > 0
  {
    if n == 0 || t % 2 == 1 then 1 else 2 * CommonPower(t / 2, n - 1)
  }

  lemma DoubleOf(t: nat, h: nat, g: nat, u: nat)
    requires t == 2 * h && h == g * u
    ensures t == (2 * g) * u
  {
  }

  /** Dividing by it leaves an odd number, or no power of two. */
  lemma {:induction false} CommonPowerSplit(t: nat, n: nat) returns (u: nat, m: nat)
    ensures t == CommonPower(t, n) * u && Pow2(n) == CommonPower(t, n) * Pow2(m) && (m == 0 || u % 2 == 1)
    decreases n
  {
    if n == 0 || t % 2 == 1 {
      u, m := t, n;
    } else {
      u, m := CommonPowerSplit(t / 2, n - 1);
      var g := CommonPower(t / 2, n - 1);
      DoubleOf(t, t / 2, g, u);
      DoubleOf(Pow2(n), Pow2(n - 1), g, Pow2(m));
    }
  }

  lemma Divide(x: nat, m: nat) returns (q: nat, r: nat)
    requires m > 0
    ensures x == q * m + r && r < m && q == x / m && r == x % m
  {
    q, r := x / m, x % m;
  }

  lemma Monotone(g: nat, a: int, b: int)
    ensures a <= b ==> g * a <= g * b
  {
    if a <= b {
      assert g * (b - a) >= 0;
    }
  }

  lemma OtherParity(q: nat, u: nat, digit: nat)
    requires u % 2 == 1 && digit <= 1 && q % 2 != digit
    ensures (q + u) % 2 == digit
  {
  }

  lemma BothMultiples(u: int, p: int, k: int, q: int, low: int)
    requires k * u == q * p + low
    ensures (k + p) * u == (q + u) * p + low
  {
    assert (k + p) * u == k * u + p * u;
    assert (q + u) * p == q * p + u * p;
  }

  /** Adding `p` to the multiplier of an odd number changes the parity of the quotient alone. */
  lemma NextQuotient(u: nat, p: nat, k: nat, q: nat, low: nat, digit: nat) returns (next: nat, quotient: nat)
    requires u % 2 == 1 && k < p && k * u == q * p + low && digit <= 1
    ensures next < 2 * p && next * u == quotient * p + low && quotient % 2 == digit
  {
    if q % 2 == digit {
      next, quotient := k, q;
    } else {
      next, quotient := k + p, q + u;
      BothMultiples(u, p, k, q, low);
      OtherParity(q, u, digit);
    }
  }

  lemma DigitBound(r: nat, p: nat)
    requires p > 0 && r < 2 * p
    ensures r == r / p * p + r % p && 0 <= r / p <= 1
  {
    if r < p {
      QuotientUnique(r, p, 0, r);
    } else {
      QuotientUnique(r, p, 1, r - p);
    }
  }

  lemma Even(q: nat, p: nat, low: nat, digit: nat, x: nat, r: nat)
    requires p > 0 && x == q * p + low && low < p && q % 2 == digit && r == digit * p + low && r < 2 * p
    ensures x % (2 * p) == r
  {
    var h := q / 2;
    assert q == 2 * h + digit;
    assert q * p == (2 * h) * p + digit * p;
    assert (2 * h) * p == h * (2 * p);
    QuotientUnique(x, 2 * p, h, r);
  }

  /** One more binary digit of a multiple of an odd number. */
  lemma NextDigit(u: nat, p: nat, r: nat, k: nat) returns (next: nat)
    requires u % 2 == 1 && p > 0 && r < 2 * p && k < p && k * u % p == r % p
    ensures next < 2 * p && next * u % (2 * p) == r
  {
    var q, low := Divide(k * u, p);
    DigitBound(r, p);
    var digit := r / p;
    var quotient;
    next, quotient := NextQuotient(u, p, k, q, low, digit);
    Even(quotient, p, low, digit, next * u, r);
  }

  /** Some multiple of an odd number has any given remainder modulo 2^n. */
  lemma {:induction false} OddReaches(u: nat, n: nat, r: nat) returns (k: nat)
    requires (n == 0 || u % 2 == 1) && r < Pow2(n)
    ensures k < Pow2(n) && k * u % Pow2(n) == r
    decreases n
  {
    if n == 0 {
      k := 0;
    } else {
      hide Pow2;
      Pow2Step(n);
      var p := Pow2(n - 1);
      k := OddReaches(u, n - 1, r % p);
      k := NextDigit(u, p, r, k);
    }
  }

  /** The largest word reached from `x` by adding `t`. */
  function Highest(x: nat, t: nat): int {
    WORD_LIMIT - CommonPower(t, 64) + x % CommonPower(t, 64)
  }

  lemma Regrouped(g: int, a: int, b: int, c: int)
    ensures g * (a + b * c) == g * a + b * (g * c)
  {
    assert g * (b * c) == b * (g * c);
  }

  /** A multiplier can be taken positive. */
  lemma Positive(k: nat, u: nat, n: nat) returns (l: nat)
    requires k < n
    ensures 1 <= l <= n && l * u % n == k * u % n
  {
    l := k;
    if k == 0 {
      l := n;
      QuotientUnique(n * u, n, u, 0);
    }
  }

  lemma SmallQuotient(c: int, low: nat, g: nat, n: nat)
    requires g > 0 && c * g + low < g * n
    ensures c < n
  {
    Monotone(g, n, c);
  }

  lemma Landed(x: nat, t: nat, k: nat, g: nat, u: nat, c: nat, q: nat, n: nat)
    requires g > 0 && g * n == WORD_LIMIT && t == g * u && x == g * c + x % g && c < n
    requires k * u == q * n + (n - 1 - c)
    ensures (x + k * t) % WORD_LIMIT == WORD_LIMIT - g + x % g
  {
    Regrouped(g, c, k, u);
    assert c + k * u == (n - 1) + q * n;
    Regrouped(g, n - 1, q, n);
    assert g * (n - 1) == g * n - g;
    QuotientUnique(x + k * t, WORD_LIMIT, q, WORD_LIMIT - g + x % g);
  }

  lemma ReachedBy(x: nat, t: nat, g: nat, u: nat, m: nat) returns (k: nat)
    requires g > 0 && g * Pow2(m) == WORD_LIMIT && t == g * u && x < WORD_LIMIT && (m == 0 || u % 2 == 1)
    ensures 1 <= k <= WORD_LIMIT && (x + k * t) % WORD_LIMIT == WORD_LIMIT - g + x % g
  {
    hide Pow2;
    var n := Pow2(m);
    var c, low := Divide(x, g);
    SmallQuotient(c, low, g, n);
    k := OddReaches(u, m, n - 1 - c);
    k := Positive(k, u, n);
    var q, r := Divide(k * u, n);
    assert x == g * c + x % g;
    Landed(x, t, k, g, u, c, q, n);
    Monotone(n, 1, g);
  }

  /** Within 2^64 additions the largest word is reached. */
  lemma HighestReached(x: nat, t: nat) returns (k: nat)
    requires x < WORD_LIMIT
    ensures 1 <= k <= WORD_LIMIT && (x + k * t) % WORD_LIMIT == Highest(x, t)
  {
    hide Pow2, CommonPower;
    var u, m := CommonPowerSplit(t, 64);
    TwoTo64();
    k := ReachedBy(x, t, CommonPower(t, 64), u, m);
  }

  lemma Bounded(x: nat, t: nat, k: nat, g: nat, u: nat, n: nat)
    requires g > 0 && g * n == WORD_LIMIT && t == g * u
    ensures (x + k * t) % WORD_LIMIT <= WORD_LIMIT - g + x % g && (x + k * t) % WORD_LIMIT % g == x % g
  {
    var q, y := Divide(x + k * t, WORD_LIMIT);
    var c, low := Divide(x, g);
    var a := c + k * u - q * n;
    Regrouped(g, c, k, u);
    Regrouped(g, c + k * u, -q, n);
    assert y == a * g + low;
    QuotientUnique(y, g, a, low);
    SmallQuotient(a, low, g, n);
    Monotone(g, a, n - 1);
  }

  /** No larger word is ever reached. */
  lemma NeverHigher(x: nat, t: nat, k: nat)
    ensures (x + k * t) % WORD_LIMIT <= Highest(x, t)
    ensures (x + k * t) % WORD_LIMIT % CommonPower(t, 64) == x % CommonPower(t, 64)
  {
    hide Pow2, CommonPower;
    var g := CommonPower(t, 64);
    var u, m := CommonPowerSplit(t, 64);
    TwoTo64();
    Bounded(x, t, k, g, u, Pow2(m));
  }
}
