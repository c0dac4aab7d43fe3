/** Bitwise operators on natural numbers, and what they compute on the masks of a power of two. */
module Bitwise {
  import opened Machine

  function Pow2(k: nat): (r: nat)
    ensures r > 0
  {
    if k == 0 then 1 else 2 * Pow2(k - 1)
  }

  function And(x: nat, y: nat): nat {
    if x == 0 || y == 0 then 0 else 2 * And(x / 2, y / 2) + x % 2 * (y % 2)
  }

  function Or(x: nat, y: nat): nat
    decreases x + y
  {
    if x == 0 && y == 0 then 0 else 2 * Or(x / 2, y / 2) + (if x % 2 == 1 || y % 2 == 1 then 1 else 0)
  }

  function Xor(x: nat, y: nat): nat
    decreases x + y
  {
    if x == 0 && y == 0 then 0 else 2 * Xor(x / 2, y / 2) + (if x % 2 != y % 2 then 1 else 0)
  }

  lemma QuotientUnique(x: int, m: int, q: int, r: int)
    requires m > 0 && x == q * m + r && 0 <= r < m
    ensures x / m == q && x % m == r
  {
    var k := x / m - q;
    assert k * m == r - x % m;
    assert k >= 1 ==> k * m >= m;
    assert k <= -1 ==> k * m <= -m;
  }

  /** Doubling the modulus adds the low bit. */
  lemma HalfSteps(x: nat, m: nat)
    requires m > 0
    ensures x % (2 * m) == 2 * (x / 2 % m) + x % 2
    ensures x / (2 * m) == x / 2 / m
  {
    var q, r := x / 2 / m, x / 2 % m;
    assert x / 2 == q * m + r;
    assert x == q * (2 * m) + (2 * r + x % 2);
    assert 0 <= 2 * r + x % 2 < 2 * m;
    QuotientUnique(x, 2 * m, q, 2 * r + x % 2);
  }

  lemma AndOdd(x: nat, m: nat)
    requires m > 0
    ensures And(x, 2 * m - 1) == 2 * And(x / 2, m - 1) + x % 2
  {
    assert (2 * m - 1) / 2 == m - 1 && (2 * m - 1) % 2 == 1;
  }

  lemma AndEven(x: nat, m: nat)
    requires m > 0
    ensures And(x, 2 * m) == 2 * And(x / 2, m)
  {
    assert 2 * m / 2 == m && 2 * m % 2 == 0;
  }

  /** The definitions, one step. */
  lemma Pow2Step(k: nat)
    requires k > 0
    ensures Pow2(k) == 2 * Pow2(k - 1)
  {
  }

  lemma Doubled(bit: nat, m: nat)
    ensures bit * (2 * m) == 2 * (bit * m)
  {
  }

  lemma {:induction false} MaskStep(x: nat, k: nat)
    requires k > 0
    ensures And(x, Pow2(k) - 1) == x % Pow2(k)
    decreases k, 0
  {
    hide And, Pow2;
    var m := Pow2(k - 1);
    Pow2Step(k);
    AndLowMask(x / 2, k - 1);
    HalfSteps(x, m);
    AndOdd(x, m);
  }

  /** Masking with 2^k - 1 is the remainder. */
  lemma {:induction false} AndLowMask(x: nat, k: nat)
    ensures And(x, Pow2(k) - 1) == x % Pow2(k)
    decreases k
  {
    if k == 0 {
      assert And(x, 0) == 0;
    } else {
      MaskStep(x, k);
    }
  }

  lemma {:induction false} BitStep(x: nat, k: nat)
    requires k > 0
    ensures And(x, Pow2(k)) == x / Pow2(k) % 2 * Pow2(k)
    decreases k, 0
  {
    hide And, Pow2;
    var m := Pow2(k - 1);
    Pow2Step(k);
    AndOneBit(x / 2, k - 1);
    HalfSteps(x, m);
    AndEven(x, m);
    Doubled(x / 2 / m % 2, m);
  }

  /** Masking with 2^k isolates bit k. */
  lemma {:induction false} AndOneBit(x: nat, k: nat)
    ensures And(x, Pow2(k)) == x / Pow2(k) % 2 * Pow2(k)
    decreases k
  {
    if k == 0 {
      assert And(x / 2, 0) == 0;
    } else {
      BitStep(x, k);
    }
  }

  lemma XorEven(m: nat)
    requires m > 0
    ensures Xor(0, 2 * m) == 2 * Xor(0, m) && Xor(2 * m, 2 * m) == 2 * Xor(m, m)
  {
    assert 2 * m / 2 == m && 2 * m % 2 == 0;
  }

  /** Exclusive-or with 2^k flips that bit. */
  lemma {:induction false} XorOneBit(k: nat)
    ensures Xor(0, Pow2(k)) == Pow2(k) && Xor(Pow2(k), Pow2(k)) == 0
    decreases k
  {
    if k > 0 {
      Pow2Step(k);
      XorOneBit(k - 1);
      XorEven(Pow2(k - 1));
    }
  }

  /** Or joins an index below 2^k with bit k. */
  lemma {:induction false} OrJoin(i: nat, k: nat)
    requires i < Pow2(k)
    ensures Or(i, 0) == i && Or(i, Pow2(k)) == i + Pow2(k)
    decreases k, i
  {
    if k > 0 {
      OrJoin(i / 2, k - 1);
    }
  }

  lemma DoubledProduct(c: nat, a: nat, b: nat)
    requires c == a * b
    ensures 2 * c == (2 * a) * b
  {
  }

  lemma Pow2Zero()
    ensures Pow2(0) == 1
  {
  }

  lemma {:induction false} Pow2Add(a: nat, b: nat)
    ensures Pow2(a + b) == Pow2(a) * Pow2(b)
    decreases a
  {
    hide Pow2;
    if a == 0 {
      Pow2Zero();
    } else {
      Pow2Add(a - 1, b);
      Pow2Step(a);
      Pow2Step(a + b);
      DoubledProduct(Pow2(a - 1 + b), Pow2(a - 1), Pow2(b));
    }
  }

  lemma TwoTo4()
    ensures Pow2(4) == 16
  {
    assert Pow2(2) == 4;
  }

  lemma TwoTo64()
    ensures Pow2(16) == 0x1_0000 && Pow2(64) == WORD_LIMIT
  {
    hide Pow2;
    TwoTo4();
    Pow2Add(4, 4);
    Pow2Add(8, 8);
    Pow2Add(16, 16);
    Pow2Add(32, 32);
  }

  lemma {:induction false} Pow2Monotone(a: nat, b: nat)
    requires a <= b
    ensures Pow2(a) <= Pow2(b)
    decreases b
  {
    if a < b {
      Pow2Monotone(a, b - 1);
    }
  }

  lemma SmallMod(x: nat, m: nat)
    requires x < m
    ensures x % m == x
  {
    QuotientUnique(x, m, 0, x);
  }

  lemma ModAdd(x: nat, y: nat, m: nat)
    requires m > 0
    ensures (x % m + y) % m == (x + y) % m
  {
    var q := (x % m + y) / m;
    QuotientUnique(x + y, m, x / m + q, (x % m + y) % m);
  }
}
