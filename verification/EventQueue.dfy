/** The SMMU event queue's producer and consumer indices: an index of log2 bits with a wrap bit above it
    stands for a counter modulo twice the queue size (section 3.5.1 of the SMMUv3 specification). */
module EventQueue {
  import opened Bitwise

  const INDEX_LIMIT: nat := 0x10_0000

  lemma ModSplit(x: nat, n: nat)
    requires n > 0
    ensures x % (2 * n) == x / n % 2 * n + x % n
  {
    var q, r := x / n, x % n;
    assert x == q * n + r;
    assert x == (q / 2) * (2 * n) + (q % 2 * n + r) by {
      assert q == 2 * (q / 2) + q % 2;
      assert (2 * (q / 2)) * n == (q / 2) * (2 * n);
    }
    assert 0 <= q % 2 * n + r < 2 * n by {
      assert q % 2 == 0 || q % 2 == 1;
    }
    QuotientUnique(x, 2 * n, q / 2, q % 2 * n + r);
  }

  lemma ModStep(x: nat, m: nat)
    requires m > 0
    ensures (x + 1) % m == if x % m + 1 == m then 0 else x % m + 1
  {
    var q, r := x / m, x % m;
    if r + 1 == m {
      assert x + 1 == (q + 1) * m + 0;
      QuotientUnique(x + 1, m, q + 1, 0);
    } else {
      QuotientUnique(x + 1, m, q, r + 1);
    }
  }

  /** Counters less than `m` apart are equal when their remainders are. */
  lemma ModDifference(a: nat, b: nat, m: int)
    requires m > 0 && b <= a < b + m
    ensures (a % m - b % m) % m == a - b
    ensures a % m == b % m <==> a == b
  {
    var k := a / m - b / m;
    assert a % m - b % m == (a - b) - k * m;
    QuotientUnique(a % m - b % m, m, -k, a - b);
    if a % m == b % m {
      assert k >= 1 ==> k * m >= m;
      assert k <= -1 ==> k * m <= -m;
    }
  }

  /** The empty test on index and wrap bits compares the counters modulo 2n. */
  lemma EmptyTest(p: nat, c: nat, k: nat)
    ensures (And(p, Pow2(k) - 1) == And(c, Pow2(k) - 1) && And(p, Pow2(k)) == And(c, Pow2(k)))
      <==> p % (2 * Pow2(k)) == c % (2 * Pow2(k))
  {
    hide And, Pow2;
    var n := Pow2(k);
    AndLowMask(p, k);
    AndLowMask(c, k);
    AndOneBit(p, k);
    AndOneBit(c, k);
    ModSplit(p, n);
    ModSplit(c, n);
    var x, y := p / n % 2, c / n % 2;
    assert x == 0 || x == 1;
    assert y == 0 || y == 1;
  }

  /** The driver's step on index and wrap bit. */
  function Advance(c: nat, k: nat): nat {
    var n := Pow2(k);
    var index, wrap := And(c, n - 1), And(c, n);
    if index + 1 == n then Or(0, Xor(wrap, n)) else Or(index + 1, wrap)
  }

  /** Advancing adds one modulo 2n. */
  lemma AdvanceIsIncrement(c: nat, k: nat)
    ensures Advance(c, k) == (c + 1) % (2 * Pow2(k))
  {
    hide And, Or, Xor, Pow2;
    var n := Pow2(k);
    AndLowMask(c, k);
    AndOneBit(c, k);
    ModSplit(c, n);
    ModStep(c, 2 * n);
    XorOneBit(k);
    OrJoin(0, k);
    if c % n + 1 < n {
      OrJoin(c % n + 1, k);
    }
    var b := c / n % 2;
    if b == 0 {
      assert b * n == 0;
    } else {
      assert b == 1 && b * n == n;
    }
  }

  lemma ModOfMod(x: nat, n: nat)
    requires n > 0
    ensures x % (2 * n) % n == x % n
  {
    ModSplit(x, n);
    var b := x / n % 2;
    QuotientUnique(x % (2 * n), n, b, x % n);
  }

  class Queue {
    const log2: nat
    /** The index fields of the two registers. */
    var prod: nat
    var cons: nat
    /** How many records the SMMU has written and the driver has consumed since reset. */
    ghost var produced: nat
    ghost var consumed: nat

    ghost predicate Valid()
      reads this
    {
      && 2 * Pow2(log2) <= INDEX_LIMIT
      && prod % (2 * Pow2(log2)) == produced % (2 * Pow2(log2))
      && cons % (2 * Pow2(log2)) == consumed % (2 * Pow2(log2))
      && consumed <= produced <= consumed + Pow2(log2)
    }

    constructor (k: nat)
      requires 2 * Pow2(k) <= INDEX_LIMIT
      ensures Valid() && log2 == k && produced == 0 && consumed == 0
    {
      log2, prod, cons, produced, consumed := k, 0, 0, 0, 0;
    }

    /** The occupancy read off the registers is the number of pending records: between none and n. */
    lemma Occupancy()
      requires Valid()
      ensures (prod % (2 * Pow2(log2)) - cons % (2 * Pow2(log2))) % (2 * Pow2(log2)) == produced - consumed
      ensures 0 <= produced - consumed <= Pow2(log2)
    {
      ModDifference(produced, consumed, 2 * Pow2(log2));
    }

    /** Pending records lie in different slots, so none is overwritten before it is consumed. */
    lemma SlotsDistinct(i: nat, j: nat)
      requires Valid() && consumed <= i < j < produced
      ensures i % Pow2(log2) != j % Pow2(log2)
    {
      ModDifference(j, i, Pow2(log2));
    }

    /** The SMMU writes the next record if the queue is not full, in slot `slot`. */
    method Produce() returns (written: bool, slot: nat)
      requires Valid()
      modifies this`prod, this`produced
      ensures Valid() && (written <==> old(produced) - consumed < Pow2(log2))
      ensures produced == old(produced) + (if written then 1 else 0)
      ensures written ==> slot == old(produced) % Pow2(log2)
    {
      var n := Pow2(log2);
      Occupancy();
      slot := prod % n;
      written := (prod % (2 * n) - cons % (2 * n)) % (2 * n) < n;
      if written {
        ModOfMod(prod, n);
        ModOfMod(produced, n);
        ModStep(prod, 2 * n);
        ModStep(produced, 2 * n);
        SmallMod((prod + 1) % (2 * n), 2 * n);
        prod := (prod + 1) % (2 * n);
        produced := produced + 1;
      }
    }

    /** SmmuV3ConsumeEventQueueForErrors: empty is reported exactly when nothing is pending; otherwise the
        slot of the oldest pending record is selected and ReadIndex advances by one modulo 2n. */
    method Consume() returns (isEmpty: bool, slot: nat)
      requires Valid()
      modifies this`cons, this`consumed
      ensures Valid() && (isEmpty <==> old(consumed) == produced)
      ensures isEmpty ==> cons == old(cons) && consumed == old(consumed)
      ensures !isEmpty ==> slot == old(consumed) % Pow2(log2) && consumed == old(consumed) + 1
      ensures !isEmpty ==> cons == (old(cons) + 1) % (2 * Pow2(log2)) < INDEX_LIMIT
    {
      hide And, Or, Xor, Pow2;
      var entries := Pow2(log2);
      var producerIndex, producerWrap := And(prod, entries - 1), And(prod, entries);
      var consumerIndex, consumerWrap := And(cons, entries - 1), And(cons, entries);
      EmptyTest(prod, cons, log2);
      ModDifference(produced, consumed, 2 * entries);
      slot := 0;
      isEmpty := producerIndex == consumerIndex && producerWrap == consumerWrap;
      if isEmpty {
        return;
      }
      AndLowMask(cons, log2);
      ModOfMod(cons, entries);
      ModOfMod(consumed, entries);
      slot := consumerIndex;
      AdvanceIsIncrement(cons, log2);
      ModStep(cons, 2 * entries);
      ModStep(consumed, 2 * entries);
      SmallMod((cons + 1) % (2 * entries), 2 * entries);
      consumerIndex := consumerIndex + 1;
      if consumerIndex == entries {
        consumerIndex := 0;
        consumerWrap := Xor(consumerWrap, entries);
      }
      cons := Or(consumerIndex, consumerWrap);
      consumed := consumed + 1;
    }
  }
}
