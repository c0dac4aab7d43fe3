/** The CPU I/O protocol: the overflow-safe range check and the transfer loops that rely on it. */
module CpuIo {
  import opened Bitwise
  import opened Machine

  const WIDTH_MAXIMUM: nat := 12

  datatype Status = Success | InvalidParameter | Unsupported

  /** Widths 0-3 are plain, 4-7 FIFO (fixed address) and 8-11 fill (fixed buffer); each by log2 of the size. */
  predicate IsFifo(width: nat) { 4 <= width <= 7 }

  function Size(width: nat): (r: nat)
    ensures r > 0
  {
    Pow2(width % 4)
  }

  /** How far each access moves on the bus and in the buffer, by width. */
  const IN_STRIDE: seq<nat> := [1, 2, 4, 8, 0, 0, 0, 0, 1, 2, 4, 8]
  const OUT_STRIDE: seq<nat> := [1, 2, 4, 8, 1, 2, 4, 8, 0, 0, 0, 0]

  /** The number of addresses a transfer reaches: one for a FIFO. */
  function Reach(width: nat, count: nat): nat { if IsFifo(width) then 1 else count }

  /** log2 of one more than the highest address. */
  function LimitBits(mmio: bool): nat { if mmio then 64 else 16 }

  /** The shift-based test, in 64-bit arithmetic, of a transfer of at least one element. */
  predicate Fits(limit: nat, size: nat, address: nat, count: nat)
    requires size > 0
  {
    var maxCount := limit / size;
    count - 1 <= maxCount && address <= (maxCount - count + 1) * size % WORD_LIMIT
  }

  /** The whole range test, for a limit of 2^n - 1. */
  predicate InRange(n: nat, w: nat, address: nat, count: nat) {
    if count == 0 then address <= Pow2(n) - 1 else Fits(Pow2(n) - 1, Pow2(w), address, count)
  }

  /** CpuIoCheckParameter. */
  function CheckParameter(mmio: bool, width: nat, address: nat, count: nat, buffer: nat): Status {
    if buffer == 0 || width >= WIDTH_MAXIMUM then InvalidParameter
    else if !mmio && And(width, 3) == 3 then InvalidParameter
    else if And(address, Size(width) - 1) != 0 then Unsupported
    else if !InRange(LimitBits(mmio), And(width, 3), address, Reach(width, count)) then Unsupported
    else if And(buffer, Size(width) - 1) != 0 then Unsupported
    else Success
  }

  lemma ScaledRange(m: nat, p: nat, address: nat, count: nat)
    requires m > 0 && p > 0 && count > 0
    ensures (m * p - 1) / p == m - 1
    ensures (count <= m && address <= (m - count) * p) <==> address + count * p <= m * p
    ensures count <= m ==> 0 <= (m - count) * p < m * p
  {
    assert m * p - 1 == (m - 1) * p + (p - 1);
    QuotientUnique(m * p - 1, p, m - 1, p - 1);
    assert (m - count) * p == m * p - count * p;
    if count <= m {
      assert count * p <= m * p;
      assert count * p >= p;
    } else {
      assert count * p > m * p;
    }
  }

  /** When the limit is one less than a multiple of the size, the test accepts exactly the transfers that end
      at or below the limit in unbounded arithmetic, and its own product does not wrap. */
  lemma FitsIff(m: nat, p: nat, address: nat, count: nat)
    requires p > 0 && count > 0 && 0 < m * p <= WORD_LIMIT
    ensures Fits(m * p - 1, p, address, count) <==> address + count * p <= m * p
    ensures count - 1 <= (m * p - 1) / p ==> 0 <= ((m * p - 1) / p - count + 1) * p < WORD_LIMIT
  {
    assert m > 0;
    ScaledRange(m, p, address, count);
    var quotient := (m * p - 1) / p;
    if count <= m {
      SmallMod((quotient - count + 1) * p, WORD_LIMIT);
    }
  }

  /** For every limit of the form 2^n - 1 in 64 bits the test accepts exactly when the transfer, in unbounded
      arithmetic, ends at or below the limit. */
  lemma InRangeIff(n: nat, w: nat, address: nat, count: nat)
    requires w <= n <= 64
    ensures InRange(n, w, address, count) <==>
      if count == 0 then address < Pow2(n) else address + count * Pow2(w) <= Pow2(n)
  {
    hide Pow2, Fits;
    if count > 0 {
      Pow2Add(n - w, w);
      Pow2Monotone(n, 64);
      TwoTo64();
      FitsIff(Pow2(n - w), Pow2(w), address, count);
    }
  }

  lemma LowTwoBits(width: nat)
    ensures And(width, 3) == width % 4
  {
    AndLowMask(width, 2);
    assert Pow2(2) == 4;
  }

  lemma SizeOf(width: nat)
    ensures Size(width) == [1, 2, 4, 8][width % 4]
  {
    assert Pow2(0) == 1 && Pow2(1) == 2 && Pow2(2) == 4;
    assert Pow2(3) == 8;
  }

  lemma Limits()
    ensures Pow2(LimitBits(false)) == 0x1_0000 && Pow2(LimitBits(true)) == 0x1_0000_0000_0000_0000
  {
    hide Pow2;
    TwoTo64();
    TwoTo4();
    Pow2Add(4, 4);
    Pow2Add(8, 8);
  }

  /** Exactly which requests pass the check, and why the others do not. */
  lemma CheckParameterIff(mmio: bool, width: nat, address: nat, count: nat, buffer: nat)
    ensures CheckParameter(mmio, width, address, count, buffer) == InvalidParameter <==>
      buffer == 0 || width >= 12 || (!mmio && width % 4 == 3)
    ensures CheckParameter(mmio, width, address, count, buffer) == Success <==>
      var size, limit := [1, 2, 4, 8][width % 4], if mmio then 0x1_0000_0000_0000_0000 else 0x1_0000;
      var reach := if 4 <= width < 8 then 1 else count;
      && buffer != 0 && width < 12 && (mmio || width % 4 != 3)
      && address % size == 0 && buffer % size == 0
      && (if reach == 0 then address < limit else address + reach * size <= limit)
  {
    hide And, Pow2;
    LowTwoBits(width);
    AndLowMask(address, width % 4);
    AndLowMask(buffer, width % 4);
    InRangeIff(LimitBits(mmio), width % 4, address, Reach(width, count));
    SizeOf(width);
    Limits();
  }

  /** One access: the address on the bus, the place in the buffer and the number of bytes. */
  datatype Access = Access(bus: nat, place: nat, size: nat)

  /** The access a transfer is to make i-th: plain transfers move through both sides, a FIFO stays at one
      address and a fill at one place in the buffer. */
  ghost predicate IsAccess(a: Access, width: nat, address: nat, buffer: nat, translation: nat, i: nat) {
    var size := [1, 2, 4, 8][width % 4];
    && a.size == size
    && a.bus == (address + (if 4 <= width < 8 then 0 else i * size) + translation) % WORD_LIMIT
    && a.place == buffer + if 8 <= width then 0 else i * size
  }

  /** The untranslated i-th access lies wholly within the limit. */
  ghost predicate Inside(mmio: bool, width: nat, address: nat, i: nat) {
    var size := [1, 2, 4, 8][width % 4];
    address + (if 4 <= width < 8 then 0 else i * size) + size
    <= if mmio then 0x1_0000_0000_0000_0000 else 0x1_0000
  }

  lemma Stride(width: nat, i: nat)
    requires width < 12
    ensures i * IN_STRIDE[width] == if 4 <= width < 8 then 0 else i * [1, 2, 4, 8][width % 4]
    ensures i * OUT_STRIDE[width] == if 8 <= width then 0 else i * [1, 2, 4, 8][width % 4]
  {
  }

  lemma NextAccess(a: Access, width: nat, address: nat, buffer: nat, translation: nat, i: nat)
    requires width < 12 && IsAccess(a, width, address, buffer, translation, i)
    ensures IsAccess(Access((a.bus + IN_STRIDE[width]) % WORD_LIMIT, a.place + OUT_STRIDE[width], a.size), width,
              address, buffer, translation, i + 1)
  {
    var move, size := IN_STRIDE[width], [1, 2, 4, 8][width % 4];
    Stride(width, i);
    ModAdd(address + i * move + translation, move, WORD_LIMIT);
    assert (i + 1) * size == i * size + size;
  }

  lemma FirstAccess(width: nat, address: nat, buffer: nat, translation: nat)
    ensures IsAccess(Access((address + translation) % WORD_LIMIT, buffer, Size(width)), width, address, buffer,
              translation, 0)
  {
    hide Pow2;
    SizeOf(width);
  }

  lemma EachInside(mmio: bool, width: nat, address: nat, count: nat, buffer: nat, i: nat)
    requires CheckParameter(mmio, width, address, count, buffer) == Success && i < count
    ensures width < 12 && Inside(mmio, width, address, i)
  {
    hide CheckParameter;
    CheckParameterIff(mmio, width, address, count, buffer);
    var size := [1, 2, 4, 8][width % 4];
    assert (i + 1) * size == i * size + size;
    assert (i + 1) * size <= count * size;
  }

  /** The service loops (memory or I/O space, read or write): exactly the accesses asked for, in order, each
      within the limit before it is translated; or none at all. */
  method Transfer(mmio: bool, width: nat, address: nat, count: nat, buffer: nat, translation: nat)
    returns (status: Status, trace: seq<Access>)
    requires address < WORD_LIMIT && (mmio ==> translation == 0)
    ensures status == CheckParameter(mmio, width, address, count, buffer)
    ensures |trace| == if status == Success then count else 0
    ensures forall i :: 0 <= i < |trace| ==>
      IsAccess(trace[i], width, address, buffer, translation, i) && Inside(mmio, width, address, i)
  {
    hide CheckParameter, IsAccess, Inside, Pow2;
    trace := [];
    status := CheckParameter(mmio, width, address, count, buffer);
    if status != Success {
      return;
    }
    CheckParameterIff(mmio, width, address, count, buffer);
    SizeOf(width);
    var now := Access((address + translation) % WORD_LIMIT, buffer, Size(width));
    FirstAccess(width, address, buffer, translation);
    var left := count;
    while left > 0
      invariant 0 <= left <= count && |trace| == count - left
      invariant IsAccess(now, width, address, buffer, translation, |trace|)
      invariant forall i :: 0 <= i < |trace| ==>
        IsAccess(trace[i], width, address, buffer, translation, i) && Inside(mmio, width, address, i)
    {
      EachInside(mmio, width, address, count, buffer, |trace|);
      NextAccess(now, width, address, buffer, translation, |trace|);
      trace := trace + [now];
      now := Access((now.bus + IN_STRIDE[width]) % WORD_LIMIT, now.place + OUT_STRIDE[width], now.size);
      left := left - 1;
    }
  }
}
