/** Setting attributes over a range of the GCD memory space map, one overlapping descriptor at a time. */
module GcdAttributes {
  import opened Machine

  const CACHE_TYPES: Bits := {0, 1, 2, 3, 4}
  const READ_PROTECT: nat := 13
  const EXECUTE_PROTECT: nat := 14
  const READ_ONLY: nat := 17

  datatype Descriptor = Descriptor(base: nat, length: nat, present: bool, capabilities: Bits, attributes: Bits) {
    predicate Covers(a: nat) { base <= a < base + length }

    /** Every region also gets the three software attributes. */
    function NewCapabilities(): Bits { capabilities + {READ_ONLY, READ_PROTECT, EXECUTE_PROTECT} }

    function NewAttributes(requested: Bits): Bits { (attributes - CACHE_TYPES) + (requested * NewCapabilities()) }
  }

  /** Sorted, without gaps, and ending below the top of the address space. */
  ghost predicate Contiguous(spaces: seq<Descriptor>) {
    && (forall i :: 0 <= i < |spaces| ==> spaces[i].length > 0 && spaces[i].base + spaces[i].length < WORD_LIMIT)
    && (forall i, j :: 0 <= i < j < |spaces| ==> spaces[i].base + spaces[i].length <= spaces[j].base)
    && (forall i :: 0 < i < |spaces| ==> spaces[i - 1].base + spaces[i - 1].length == spaces[i].base)
  }

  lemma {:induction false} CoveredBetween(spaces: seq<Descriptor>, a: nat, i: nat) returns (j: nat)
    requires Contiguous(spaces) && i < |spaces| && spaces[0].base <= a < spaces[i].base + spaces[i].length
    ensures j <= i && spaces[j].Covers(a)
    decreases i
  {
    if spaces[i].base <= a {
      j := i;
    } else {
      j := CoveredBetween(spaces, a, i - 1);
    }
  }

  /** The range is not empty and ends within the address space. */
  predicate Proper(base: nat, length: nat) {
    length > 0 && base + length <= WORD_LIMIT
  }

  /** The last address of a range, in 64-bit arithmetic. */
  function Last(base: nat, length: nat): nat {
    (base + length + WORD_LIMIT - 1) % WORD_LIMIT
  }

  /** SearchGcdMemorySpaces: found exactly when some descriptor holds the last address.  The end index is that
      descriptor, and the start index is the descriptor up to there that holds the first address, or 0.  For a
      proper range it is thus the first descriptor that reaches the range. */
  method Search(spaces: seq<Descriptor>, base: nat, length: nat) returns (found: bool, start: nat, end: nat)
    requires Contiguous(spaces) && base < WORD_LIMIT && length < WORD_LIMIT
    ensures found <==> exists i :: 0 <= i < |spaces| && spaces[i].Covers(Last(base, length))
    ensures found ==> start <= end < |spaces| && spaces[end].Covers(Last(base, length))
    ensures found ==> start == 0 || spaces[start].Covers(base)
    ensures found ==> forall j :: 0 <= j <= end && spaces[j].Covers(base) ==> start == j
    ensures found && Proper(base, length) ==>
      && base < spaces[start].base + spaces[start].length
      && forall i :: 0 <= i < start ==> spaces[i].base + spaces[i].length <= base
  {
    start, end, found := 0, 0, false;
    var last := Last(base, length);
    var i := 0;
    while i < |spaces|
      invariant 0 <= i <= |spaces| && start <= i && !found
      invariant forall j :: 0 <= j < i ==> !spaces[j].Covers(last)
      invariant forall j :: 0 <= j < i && spaces[j].Covers(base) ==> start == j
      invariant start > 0 ==> start < i && spaces[start].Covers(base)
    {
      if spaces[i].Covers(base) {
        start := i;
      }
      if spaces[i].Covers(last) {
        if Proper(base, length) && spaces[0].base <= base {
          var j := CoveredBetween(spaces, base, i);
        }
        return true, start, i;
      }
      i := i + 1;
    }
  }

  /** How the two GCD services answer for a region: if the capabilities are refused the attributes are not
      tried. */
  datatype Verdict = Refused | CapabilitiesOnly | Accepted

  /** The calls to the GCD services for part of a descriptor. */
  datatype Call = Call(start: nat, length: nat, capabilities: Bits, attributes: Bits, verdict: Verdict) {
    predicate Covers(a: nat) { start <= a < start + length }
  }

  /** The calls tile: they are in ascending order without overlap. */
  ghost predicate Disjoint(calls: seq<Call>) {
    forall j, k :: 0 <= j < k < |calls| ==> calls[j].start + calls[j].length <= calls[k].start
  }

  /** What happens to one address: nothing, or new capabilities and attributes, as far as the GCD
      services accept them. */
  datatype Update = None | Set(capabilities: Bits, attributes: Bits, verdict: Verdict)

  /** What a list of calls does to an address. */
  ghost function Done(calls: seq<Call>, a: nat): Update {
    if calls == [] then None
    else
      var last := calls[|calls| - 1];
      if last.Covers(a) then Set(last.capabilities, last.attributes, last.verdict) else Done(calls[..|calls| - 1], a)
  }

  /** What should happen to an address, looking only at the descriptor that holds it among the first `n`. */
  ghost function Wanted(spaces: seq<Descriptor>, base: nat, length: nat, requested: Bits, verdict: nat -> Verdict,
    n: nat, a: nat): Update
    requires n <= |spaces|
  {
    if n == 0 then None
    else if spaces[n - 1].Covers(a) then
      if base <= a < base + length && spaces[n - 1].present
      then Set(spaces[n - 1].NewCapabilities(), spaces[n - 1].NewAttributes(requested), verdict(n - 1))
      else None
    else Wanted(spaces, base, length, requested, verdict, n - 1, a)
  }

  lemma DoneStep(calls: seq<Call>, c: Call, a: nat)
    ensures Done(calls + [c], a) == if c.Covers(a) then Set(c.capabilities, c.attributes, c.verdict) else Done(calls, a)
  {
    assert (calls + [c])[..|calls|] == calls;
  }

  /** Nothing is wanted outside the range. */
  lemma {:induction false} OutsideNone(spaces: seq<Descriptor>, base: nat, length: nat, requested: Bits,
    verdict: nat -> Verdict, n: nat, a: nat)
    requires n <= |spaces| && !(base <= a < base + length)
    ensures Wanted(spaces, base, length, requested, verdict, n, a) == None
    decreases n
  {
    if n > 0 {
      OutsideNone(spaces, base, length, requested, verdict, n - 1, a);
    }
  }

  /** Nothing is wanted of descriptors that do not hold the address. */
  lemma {:induction false} ElsewhereSame(spaces: seq<Descriptor>, base: nat, length: nat, requested: Bits,
    verdict: nat -> Verdict, m: nat, n: nat, a: nat)
    requires m <= n <= |spaces| && forall i :: m <= i < n ==> !spaces[i].Covers(a)
    ensures Wanted(spaces, base, length, requested, verdict, n, a) ==
      Wanted(spaces, base, length, requested, verdict, m, a)
    decreases n
  {
    if m < n {
      ElsewhereSame(spaces, base, length, requested, verdict, m, n - 1, a);
    }
  }

  /** Before the first descriptor that reaches the range, and after the last, nothing is wanted. */
  lemma NothingBeyond(spaces: seq<Descriptor>, base: nat, length: nat, requested: Bits, verdict: nat -> Verdict,
    start: nat, end: nat, a: nat)
    requires Contiguous(spaces) && start <= end < |spaces| && Proper(base, length)
    requires spaces[end].Covers(Last(base, length))
    requires forall i :: 0 <= i < start ==> spaces[i].base + spaces[i].length <= base
    ensures Wanted(spaces, base, length, requested, verdict, start, a) == None
    ensures Wanted(spaces, base, length, requested, verdict, |spaces|, a) ==
      Wanted(spaces, base, length, requested, verdict, end + 1, a)
  {
    if base <= a < base + length {
      ElsewhereSame(spaces, base, length, requested, verdict, 0, start, a);
      ElsewhereSame(spaces, base, length, requested, verdict, end + 1, |spaces|, a);
    } else {
      OutsideNone(spaces, base, length, requested, verdict, start, a);
      OutsideNone(spaces, base, length, requested, verdict, end + 1, a);
      OutsideNone(spaces, base, length, requested, verdict, |spaces|, a);
    }
  }

  /** The next descriptor contributes its call, if it exists, and changes nothing else. */
  lemma WantedStep(spaces: seq<Descriptor>, base: nat, length: nat, requested: Bits, verdict: nat -> Verdict,
    i: nat, a: nat)
    requires Contiguous(spaces) && i < |spaces|
    ensures Wanted(spaces, base, length, requested, verdict, i + 1, a) ==
      if spaces[i].Covers(a) && base <= a < base + length && spaces[i].present
      then Set(spaces[i].NewCapabilities(), spaces[i].NewAttributes(requested), verdict(i))
      else Wanted(spaces, base, length, requested, verdict, i, a)
  {
    if spaces[i].Covers(a) {
      ElsewhereSame(spaces, base, length, requested, verdict, 0, i, a);
    }
  }

  // ----- the calls made -----------------------------------------------------------------------

  /** The calls for a descriptor, with the region computed in 64-bit arithmetic. */
  function Part(d: Descriptor, base: nat, length: nat, requested: Bits, verdict: Verdict): Call {
    var start := if base >= d.base then base else d.base;
    var end := if Last(base, length) < d.base + d.length then (base + length) % WORD_LIMIT else d.base + d.length;
    Call(start, (end + WORD_LIMIT - start) % WORD_LIMIT, d.NewCapabilities(), d.NewAttributes(requested), verdict)
  }

  /** The calls for the descriptors from `start` on and before `n`. */
  function Planned(spaces: seq<Descriptor>, base: nat, length: nat, requested: Bits, verdict: nat -> Verdict,
    start: nat, n: nat): seq<Call>
    requires n <= |spaces|
  {
    if n <= start then []
    else
      var calls := Planned(spaces, base, length, requested, verdict, start, n - 1);
      if spaces[n - 1].present then calls + [Part(spaces[n - 1], base, length, requested, verdict(n - 1))] else calls
  }

  /** For a proper range, the region of a descriptor between the two indices is exactly its intersection with
      the range. */
  lemma Overlap(spaces: seq<Descriptor>, base: nat, length: nat, requested: Bits, verdict: Verdict, i: nat,
    start: nat, end: nat)
    requires Contiguous(spaces) && Proper(base, length) && start <= i <= end < |spaces|
    requires base < spaces[start].base + spaces[start].length && spaces[end].Covers(Last(base, length))
    ensures var c := Part(spaces[i], base, length, requested, verdict);
      && (forall a: nat :: c.Covers(a) <==> spaces[i].Covers(a) && base <= a < base + length)
      && spaces[i].base <= c.start && c.start + c.length <= spaces[i].base + spaces[i].length
  {
    assert Last(base, length) == base + length - 1;
  }

  /** What the calls for the first descriptors do, for a proper range. */
  ghost predicate Tiles(spaces: seq<Descriptor>, base: nat, length: nat, requested: Bits, verdict: nat -> Verdict,
    calls: seq<Call>, n: nat)
    requires n <= |spaces|
  {
    && Disjoint(calls)
    && (forall k :: 0 <= k < |calls| ==>
          calls[k].start + calls[k].length <= if n < |spaces| then spaces[n].base else WORD_LIMIT)
    && forall a: nat :: Done(calls, a) == Wanted(spaces, base, length, requested, verdict, n, a)
  }

  lemma TilesNothing(spaces: seq<Descriptor>, base: nat, length: nat, requested: Bits, verdict: nat -> Verdict,
    start: nat, end: nat)
    requires Contiguous(spaces) && Proper(base, length) && start <= end < |spaces|
    requires spaces[end].Covers(Last(base, length))
    requires forall i :: 0 <= i < start ==> spaces[i].base + spaces[i].length <= base
    ensures Tiles(spaces, base, length, requested, verdict, [], start)
  {
    forall a: nat ensures Wanted(spaces, base, length, requested, verdict, start, a) == None {
      NothingBeyond(spaces, base, length, requested, verdict, start, end, a);
    }
  }

  lemma TileOne(spaces: seq<Descriptor>, base: nat, length: nat, requested: Bits, verdict: nat -> Verdict,
    calls: seq<Call>, i: nat)
    requires Contiguous(spaces) && i < |spaces| && Tiles(spaces, base, length, requested, verdict, calls, i)
    requires var c := Part(spaces[i], base, length, requested, verdict(i));
      && (forall a: nat :: c.Covers(a) <==> spaces[i].Covers(a) && base <= a < base + length)
      && spaces[i].base <= c.start && c.start + c.length <= spaces[i].base + spaces[i].length
    ensures var c := Part(spaces[i], base, length, requested, verdict(i));
      Tiles(spaces, base, length, requested, verdict, if spaces[i].present then calls + [c] else calls, i + 1)
  {
    var c := Part(spaces[i], base, length, requested, verdict(i));
    var more := if spaces[i].present then calls + [c] else calls;
    forall a: nat ensures Done(more, a) == Wanted(spaces, base, length, requested, verdict, i + 1, a) {
      WantedStep(spaces, base, length, requested, verdict, i, a);
      DoneStep(calls, c, a);
    }
  }

  /** For a proper range the calls planned do to every address exactly what its own descriptor calls for. */
  lemma {:induction false} PlannedTiles(spaces: seq<Descriptor>, base: nat, length: nat, requested: Bits,
    verdict: nat -> Verdict, start: nat, end: nat, n: nat)
    requires Contiguous(spaces) && Proper(base, length) && start <= end < |spaces| && start <= n <= end + 1
    requires base < spaces[start].base + spaces[start].length && spaces[end].Covers(Last(base, length))
    requires forall i :: 0 <= i < start ==> spaces[i].base + spaces[i].length <= base
    ensures Tiles(spaces, base, length, requested, verdict,
              Planned(spaces, base, length, requested, verdict, start, n), n)
    decreases n
  {
    hide Part, Tiles, Disjoint, Done, Wanted, Proper, Last;
    if n == start {
      TilesNothing(spaces, base, length, requested, verdict, start, end);
    } else {
      PlannedTiles(spaces, base, length, requested, verdict, start, end, n - 1);
      Overlap(spaces, base, length, requested, verdict(n - 1), n - 1, start, end);
      TileOne(spaces, base, length, requested, verdict,
        Planned(spaces, base, length, requested, verdict, start, n - 1), n - 1);
    }
  }

  /** What the search finds. */
  ghost predicate FoundAt(spaces: seq<Descriptor>, base: nat, length: nat, start: nat, end: nat) {
    && start <= end < |spaces| && spaces[end].Covers(Last(base, length))
    && (start == 0 || spaces[start].Covers(base))
    && (forall j :: 0 <= j <= end && spaces[j].Covers(base) ==> start == j)
  }

  /** What a call asks of a region of `d`, bit by bit: of its own attributes all but the cache types (bits 0 to 4)
      stay, and what is requested is added where it is a capability or one of bits 13, 14 and 17, which
      become capabilities everywhere. */
  ghost predicate Asks(c: Call, d: Descriptor, requested: Bits, verdict: Verdict) {
    && (forall b: nat :: b in c.capabilities <==> b in d.capabilities || b == 13 || b == 14 || b == 17)
    && (forall b: nat :: b in c.attributes <==>
          || (b in d.attributes && b > 4)
          || (b in requested && (b in d.capabilities || b == 13 || b == 14 || b == 17)))
    && c.verdict == verdict
  }

  lemma PartAsks(d: Descriptor, base: nat, length: nat, requested: Bits, verdict: Verdict)
    ensures Asks(Part(d, base, length, requested, verdict), d, requested, verdict)
  {
  }

  lemma {:induction false} DoneBy(calls: seq<Call>, a: nat)
    ensures Done(calls, a) == None <==> forall k :: 0 <= k < |calls| ==> !calls[k].Covers(a)
    ensures Done(calls, a) != None ==>
      exists k :: 0 <= k < |calls| && calls[k].Covers(a) &&
        Done(calls, a) == Set(calls[k].capabilities, calls[k].attributes, calls[k].verdict)
  {
    if calls != [] {
      var n := |calls| - 1;
      DoneBy(calls[..n], a);
      if !calls[n].Covers(a) && Done(calls, a) != None {
        var k :| 0 <= k < n && calls[..n][k].Covers(a) &&
          Done(calls[..n], a) == Set(calls[..n][k].capabilities, calls[..n][k].attributes, calls[..n][k].verdict);
        assert calls[k].Covers(a);
      }
    }
  }

  lemma {:induction false} WantedAt(spaces: seq<Descriptor>, base: nat, length: nat, requested: Bits,
    verdict: nat -> Verdict, n: nat, i: nat, a: nat)
    requires Contiguous(spaces) && i < n <= |spaces| && spaces[i].Covers(a)
    ensures Wanted(spaces, base, length, requested, verdict, n, a) ==
      if base <= a < base + length && spaces[i].present
      then Set(spaces[i].NewCapabilities(), spaces[i].NewAttributes(requested), verdict(i)) else None
    decreases n
  {
    if i < n - 1 {
      WantedAt(spaces, base, length, requested, verdict, n - 1, i, a);
    }
  }

  /** The one call that covers an address where memory exists in the range asks for the right bits; no call covers
      any other address. */
  ghost predicate Serves(calls: seq<Call>, spaces: seq<Descriptor>, base: nat, length: nat, requested: Bits,
    verdict: nat -> Verdict, i: nat, a: nat)
    requires i < |spaces|
  {
    if base <= a < base + length && spaces[i].present
    then exists k :: 0 <= k < |calls| && calls[k].Covers(a) && Asks(calls[k], spaces[i], requested, verdict(i))
    else forall k :: 0 <= k < |calls| ==> !calls[k].Covers(a)
  }

  lemma DoneServes(calls: seq<Call>, spaces: seq<Descriptor>, base: nat, length: nat, requested: Bits,
    verdict: nat -> Verdict, i: nat, a: nat)
    requires Contiguous(spaces) && i < |spaces| && spaces[i].Covers(a)
    requires Done(calls, a) == Wanted(spaces, base, length, requested, verdict, |spaces|, a)
    ensures Serves(calls, spaces, base, length, requested, verdict, i, a)
  {
    hide Wanted, Done, Contiguous;
    WantedAt(spaces, base, length, requested, verdict, |spaces|, i, a);
    DoneBy(calls, a);
    PartAsks(spaces[i], base, length, requested, verdict(i));
  }

  /** For a proper range the calls planned between the two indices are all that is wanted. */
  lemma PlannedServes(spaces: seq<Descriptor>, base: nat, length: nat, requested: Bits, verdict: nat -> Verdict,
    start: nat, end: nat)
    requires Contiguous(spaces) && Proper(base, length) && start <= end < |spaces|
    requires base < spaces[start].base + spaces[start].length && spaces[end].Covers(Last(base, length))
    requires forall i :: 0 <= i < start ==> spaces[i].base + spaces[i].length <= base
    ensures var calls := Planned(spaces, base, length, requested, verdict, start, end + 1);
      && Disjoint(calls)
      && (forall a: nat :: Done(calls, a) == Wanted(spaces, base, length, requested, verdict, |spaces|, a))
      && forall i, a: nat :: 0 <= i < |spaces| && spaces[i].Covers(a) ==>
           Serves(calls, spaces, base, length, requested, verdict, i, a)
  {
    hide Part, Planned, Disjoint, Done, Wanted, Serves, Contiguous, Last, Proper;
    var calls := Planned(spaces, base, length, requested, verdict, start, end + 1);
    PlannedTiles(spaces, base, length, requested, verdict, start, end, end + 1);
    forall a: nat
      ensures Done(calls, a) == Wanted(spaces, base, length, requested, verdict, |spaces|, a)
    {
      NothingBeyond(spaces, base, length, requested, verdict, start, end, a);
    }
    forall i, a: nat | 0 <= i < |spaces| && spaces[i].Covers(a)
      ensures Serves(calls, spaces, base, length, requested, verdict, i, a)
    {
      DoneServes(calls, spaces, base, length, requested, verdict, i, a);
    }
  }

  /** SetGcdMemorySpaceAttributes.  `verdict(i)` is how the GCD services answer for descriptor `i`.  If the last
      address of the range is in the map, the calls are made descriptor by descriptor between the two indices.
      For a proper range they do not overlap and do to every address exactly what its own descriptor calls for:
      new attributes inside the range, nothing outside it or where no memory exists. */
  method SetAttributes(spaces: seq<Descriptor>, base: nat, length: nat, requested: Bits, verdict: nat -> Verdict)
    returns (found: bool, calls: seq<Call>, ghost start: nat, ghost end: nat)
    requires Contiguous(spaces) && base < WORD_LIMIT && length < WORD_LIMIT
    ensures found <==> exists i :: 0 <= i < |spaces| && spaces[i].Covers(Last(base, length))
    ensures !found ==> calls == []
    ensures found ==>
      && FoundAt(spaces, base, length, start, end)
      && calls == Planned(spaces, base, length, requested, verdict, start, end + 1)
    ensures found && Proper(base, length) ==>
      && Disjoint(calls)
      && (forall a: nat :: Done(calls, a) == Wanted(spaces, base, length, requested, verdict, |spaces|, a))
      && forall i, a: nat :: 0 <= i < |spaces| && spaces[i].Covers(a) ==>
           Serves(calls, spaces, base, length, requested, verdict, i, a)
  {
    hide Part, Disjoint, Done, Wanted, Serves, Contiguous, Last, Proper;
    var first, last;
    found, first, last := Search(spaces, base, length);
    start, end := first, last;
    calls := [];
    if !found {
      return;
    }
    var i := first;
    while i <= last
      invariant first <= i <= last + 1
      invariant calls == Planned(spaces, base, length, requested, verdict, first, i)
    {
      if spaces[i].present {
        calls := calls + [Part(spaces[i], base, length, requested, verdict(i))];
      }
      i := i + 1;
    }
    if Proper(base, length) {
      PlannedServes(spaces, base, length, requested, verdict, first, last);
    }
  }

  // ----- empty ranges -------------------------------------------------------------------------

  /** Some descriptor among those from `start` on and before `n` has a region that covers the address. */
  ghost predicate Reached(spaces: seq<Descriptor>, base: nat, length: nat, start: nat, n: nat, a: nat)
    requires n <= |spaces|
  {
    exists i :: start <= i < n && spaces[i].present && Part(spaces[i], base, length, {}, Refused).Covers(a)
  }

  lemma {:induction false} PlannedCovers(spaces: seq<Descriptor>, base: nat, length: nat, requested: Bits,
    verdict: nat -> Verdict, start: nat, n: nat, a: nat)
    requires n <= |spaces|
    ensures Done(Planned(spaces, base, length, requested, verdict, start, n), a) != None <==>
      Reached(spaces, base, length, start, n, a)
    decreases n
  {
    if start < n {
      PlannedCovers(spaces, base, length, requested, verdict, start, n - 1, a);
      DoneStep(Planned(spaces, base, length, requested, verdict, start, n - 1),
        Part(spaces[n - 1], base, length, requested, verdict(n - 1)), a);
      assert Part(spaces[n - 1], base, length, {}, Refused).Covers(a) ==
        Part(spaces[n - 1], base, length, requested, verdict(n - 1)).Covers(a);
    }
  }

  /** The calls concern no address. */
  ghost predicate Silent(calls: seq<Call>) {
    forall a: nat :: Done(calls, a) == None
  }

  lemma EmptyParts(spaces: seq<Descriptor>, base: nat, start: nat, end: nat)
    requires Contiguous(spaces) && base < WORD_LIMIT && FoundAt(spaces, base, 0, start, end)
    ensures forall a: nat :: !Part(spaces[end], base, 0, {}, Refused).Covers(a)
    ensures if spaces[end].Covers(base) then start == end else start == 0
    ensures !spaces[end].Covers(base) ==>
      forall i :: 0 <= i < end ==> Part(spaces[i], base, 0, {}, Refused).Covers(base)
  {
    assert base > 0 && Last(base, 0) == base - 1;
  }

  /** For an empty range no address is concerned if and only if its address and the one before it lie in the same
      descriptor, or no memory exists in the descriptors below that of the one before. */
  lemma EmptyRangeIff(spaces: seq<Descriptor>, base: nat, requested: Bits, verdict: nat -> Verdict, start: nat,
    end: nat)
    requires Contiguous(spaces) && base < WORD_LIMIT && FoundAt(spaces, base, 0, start, end)
    ensures Silent(Planned(spaces, base, 0, requested, verdict, start, end + 1)) <==>
      spaces[end].Covers(base) || forall i :: 0 <= i < end ==> !spaces[i].present
  {
    hide Planned, Done, Part;
    var calls := Planned(spaces, base, 0, requested, verdict, start, end + 1);
    EmptyParts(spaces, base, start, end);
    PlannedCovers(spaces, base, 0, requested, verdict, start, end + 1, base);
    if spaces[end].Covers(base) || forall i :: 0 <= i < end ==> !spaces[i].present {
      forall a: nat ensures Done(calls, a) == None {
        PlannedCovers(spaces, base, 0, requested, verdict, start, end + 1, a);
      }
    } else {
      assert Done(calls, base) != None;
    }
  }

  /** For an empty range where the third of three descriptors begins, a call is made for the first descriptor that
      covers addresses of the third. */
  lemma EmptyRangeExample(first: Descriptor, second: Descriptor, third: Descriptor, requested: Bits,
    verdict: nat -> Verdict)
    requires Contiguous([first, second, third]) && first.present
    ensures var spaces := [first, second, third];
      FoundAt(spaces, third.base, 0, 0, 1) && !spaces[1].Covers(third.base)
    ensures Part(first, third.base, 0, requested, verdict(0)).Covers(third.base)
  {
    var spaces := [first, second, third];
    assert spaces[1].base + spaces[1].length == spaces[2].base && spaces[0].base + spaces[0].length == spaces[1].base;
  }
}
