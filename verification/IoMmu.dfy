/** The IOMMU protocol over the stage-2 table: map, unmap and set-attribute edit the table in place,
    allocating tables on the way down; teardown releases it. */
module IoMmu {
  import opened FlatTable
  import opened Machine
  import opened StageTwoTable
  import opened TableSupply
  import opened Teardown

  const LOW_BITS: Bits := set b | 0 <= b < 12

  datatype Status = Success | InvalidParameter | OutOfResources | Timeout

  datatype MapInfo = MapInfo(bytes: nat, deviceAddress: nat, hostAddress: nat)

  /** The end of a byte range, rounded up to a page, in 64-bit arithmetic. */
  function RangeEnd(base: nat, bytes: nat): (end: nat)
    ensures end < WORD_LIMIT && end % PAGE_SIZE == 0
  {
    ((base + bytes) % WORD_LIMIT + (PAGE_SIZE - 1)) / PAGE_SIZE * PAGE_SIZE % WORD_LIMIT
  }

  /** Page `q` holds a byte of [base, base + bytes). */
  ghost predicate Touches(base: nat, bytes: nat, q: nat) {
    exists a :: base <= a < base + bytes && a / PAGE_SIZE == q
  }

  ghost predicate InRange(base: nat, bytes: nat, q: nat) {
    base / PAGE_SIZE <= q < RangeEnd(base, bytes) / PAGE_SIZE
  }

  /** The pages walked are exactly those the byte range touches, if and only if rounding its end up
      to a page does not overflow 64 bits. */
  lemma RangeExactIff(base: nat, bytes: nat)
    requires base < WORD_LIMIT && 0 < bytes < WORD_LIMIT
    ensures (forall q: nat :: InRange(base, bytes, q) <==> Touches(base, bytes, q)) <==>
      base + bytes <= WORD_LIMIT - PAGE_SIZE
  {
    var last := base + bytes - 1;
    if base + bytes <= WORD_LIMIT - PAGE_SIZE {
      assert RangeEnd(base, bytes) == (last / PAGE_SIZE + 1) * PAGE_SIZE;
      forall q: nat ensures InRange(base, bytes, q) <==> Touches(base, bytes, q) {
        var a := if q == base / PAGE_SIZE then base else q * PAGE_SIZE;
        assert InRange(base, bytes, q) ==> base <= a < base + bytes && a / PAGE_SIZE == q;
      }
    } else {
      assert base <= last < base + bytes;
      assert Touches(base, bytes, last / PAGE_SIZE);
      assert !InRange(base, bytes, last / PAGE_SIZE);
    }
  }

  /** The last page of the address space is touched and not visited: the end of its range wraps to zero. */
  lemma LastPageExample()
    ensures var base := WORD_LIMIT - PAGE_SIZE;
      RangeEnd(base, 1) == 0 && Touches(base, 1, base / PAGE_SIZE) && !InRange(base, 1, base / PAGE_SIZE)
  {
    var base := WORD_LIMIT - PAGE_SIZE;
    assert base <= base < base + 1;
  }

  /** The table in memory says what the flat map says, for every page. */
  ghost predicate Agrees(mem: Memory, tree: Tree, flat: Flat) {
    Allocated(mem, tree) && forall p :: 0 <= p < PAGE_LIMIT ==> LeafOf(mem, tree, p) == Look(flat, p)
  }

  lemma StillAgrees(mem: Memory, tree: Tree, mem': Memory, tree': Tree, flat: Flat)
    requires Agrees(mem, tree, flat) && SameLeaves(mem, tree, mem', tree')
    ensures Agrees(mem', tree', flat)
  {
    forall p | 0 <= p < PAGE_LIMIT ensures LeafOf(mem', tree', p) == Look(flat, p) {
      assert LeafOf(mem, tree, p) == Look(flat, p);
    }
  }

  // ----- descriptors on the way down ----------------------------------------------------------

  /** The change sets valid bits. */
  predicate Sets(c: Change) {
    c.valid && !c.accessOnly
  }

  /** The changes the protocol makes: only a map sets the valid bit, together with the descriptor bit
      and the access flag. */
  predicate Legal(c: Change) {
    if Sets(c) then DESCRIPTOR in c.flags && ACCESS_FLAG in c.flags else VALID !in c.flags
  }

  lemma NewLinkBits(e: Entry, c: Change)
    requires Legal(c)
    ensures NewLink(e, c).IsValid() <==> Sets(c) || e.IsValid()
    ensures Sets(c) || e.IsDescriptor() ==> NewLink(e, c).IsDescriptor()
  {
  }

  /** Marking a link keeps the table and every leaf. */
  lemma MarkKeepsTree(mem: Memory, root: nat, tree: Tree, p: Path, i: nat, c: Change)
    requires WellFormed(mem, root, tree) && NoStray(mem, tree)
    requires p in tree.at && p.Level() < DEPTH - 1 && i < TABLE_SIZE && Sub(p, i) in tree.at
    ensures tree.at[p] in mem && i < |mem[tree.at[p]]|
    ensures var mem' := Write(mem, tree.at[p], i, NewLink(mem[tree.at[p]][i], c));
      WellFormed(mem', root, tree) && NoStray(mem', tree) && SameLeaves(mem, tree, mem', tree)
    ensures NewLink(mem[tree.at[p]][i], c).frame == tree.at[Sub(p, i)]
  {
    Present(mem, root, tree, p);
    RelabelLink(mem, root, tree, p, i, NewLink(mem[tree.at[p]][i], c));
  }

  /** For the protocol's changes it also keeps the table walkable. */
  lemma MarkKeepsWalkable(mem: Memory, root: nat, tree: Tree, p: Path, i: nat, c: Change)
    requires WellFormed(mem, root, tree) && Walkable(mem, tree)
    requires p in tree.at && p.Level() < DEPTH - 1 && i < TABLE_SIZE
    requires Legal(c) && (Sets(c) ==> ReachedValid(mem, tree, p))
    ensures tree.at[p] in mem && i < |mem[tree.at[p]]|
    ensures var mem' := Write(mem, tree.at[p], i, NewLink(mem[tree.at[p]][i], c));
      Walkable(mem', tree) && (Sets(c) ==> SlotValid(mem', tree, p, i))
  {
    var e := NewLink(mem[tree.at[p]][i], c);
    assert Sound(mem, tree, p, i);
    NewLinkBits(mem[tree.at[p]][i], c);
    WriteWalkable(mem, root, tree, p, i, e);
  }

  lemma {:induction false} PrefixModulo(page: nat, level: nat)
    requires level < DEPTH
    ensures Prefix(page, level) == Prefix(page % PAGE_LIMIT, level)
    decreases level
  {
    if level > 0 {
      PrefixModulo(page, level - 1);
      IndexModulo(page, level - 1);
    }
  }

  lemma LeafAgreesAt(mem: Memory, root: nat, tree: Tree, flat: Flat, p: Path, i: nat, key: nat, e: Entry)
    requires WellFormed(mem, root, tree) && Agrees(mem, tree, flat)
    requires key < PAGE_LIMIT && p == Prefix(key, 3) && i == PageIndex(key, 3) && p in tree.at
    ensures WellFormed(Write(mem, tree.at[p], i, e), root, tree)
    ensures Agrees(Write(mem, tree.at[p], i, e), tree, flat[key := e])
  {
    WriteLeaf(mem, root, tree, p, i, e);
    forall q | 0 <= q < PAGE_LIMIT
      ensures LeafOf(Write(mem, tree.at[p], i, e), tree, q) == Look(flat[key := e], q)
    {
      if Prefix(q, 3) == p && PageIndex(q, 3) == i {
        LeafSlotInjective(q, key);
      }
      assert LeafOf(mem, tree, q) == Look(flat, q);
    }
  }

  /** Writing a leaf keeps the table and edits the flat map at that leaf's page alone. */
  lemma LeafAgrees(mem: Memory, root: nat, tree: Tree, flat: Flat, page: nat, frame: nat, c: Change)
    requires WellFormed(mem, root, tree) && NoStray(mem, tree) && Agrees(mem, tree, flat)
    requires Prefix(page, 3) in tree.at
    ensures tree.at[Prefix(page, 3)] in mem && |mem[tree.at[Prefix(page, 3)]]| == TABLE_SIZE
    ensures var p, i := Prefix(page, 3), PageIndex(page, 3);
      var mem' := Write(mem, tree.at[p], i, NewLeaf(mem[tree.at[p]][i], frame, c));
      && WellFormed(mem', root, tree) && NoStray(mem', tree)
      && Agrees(mem', tree, flat[page % PAGE_LIMIT := NewLeaf(Look(flat, page % PAGE_LIMIT), frame, c)])
  {
    var p, i, key := Prefix(page, 3), PageIndex(page, 3), page % PAGE_LIMIT;
    PrefixModulo(page, 3);
    IndexModulo(page, 3);
    assert LeafOf(mem, tree, key) == Look(flat, key);
    LeafAgreesAt(mem, root, tree, flat, p, i, key, NewLeaf(mem[tree.at[p]][i], frame, c));
  }

  lemma NewLeafBits(e: Entry, frame: nat, c: Change)
    requires Legal(c)
    ensures NewLeaf(e, frame, c).IsValid() ==> Sets(c) || e.IsValid()
    ensures Sets(c) || (e.IsDescriptor() && e.IsAccessed()) ==>
      NewLeaf(e, frame, c).IsDescriptor() && NewLeaf(e, frame, c).IsAccessed()
  {
  }

  lemma LeafKeepsWalkable(mem: Memory, root: nat, tree: Tree, p: Path, i: nat, frame: nat, c: Change)
    requires WellFormed(mem, root, tree) && Walkable(mem, tree)
    requires p in tree.at && p.Level() == DEPTH - 1 && i < TABLE_SIZE
    requires Legal(c) && (Sets(c) ==> ReachedValid(mem, tree, p))
    ensures Walkable(Write(mem, tree.at[p], i, NewLeaf(mem[tree.at[p]][i], frame, c)), tree)
  {
    assert Sound(mem, tree, p, i);
    NewLeafBits(mem[tree.at[p]][i], frame, c);
    WriteWalkable(mem, root, tree, p, i, NewLeaf(mem[tree.at[p]][i], frame, c));
  }

  lemma LeafTableAbsent(mem: Memory, root: nat, tree: Tree, page: nat, level: nat)
    requires WellFormed(mem, root, tree) && level < DEPTH && Prefix(page, level) !in tree.at
    ensures Prefix(page, 3) !in tree.at
  {
    AbsentBelow(tree, page, level, 3);
  }

  lemma RootPresent(mem: Memory, root: nat, tree: Tree)
    requires WellFormed(mem, root, tree)
    ensures Path.Root in tree.at && tree.at[Path.Root] == root
  {
  }

  /** The hardware's view of a walkable table is the flat map. */
  lemma WalkIsFlat(mem: Memory, root: nat, tree: Tree, flat: Flat, p: nat)
    requires WellFormed(mem, root, tree) && Agrees(mem, tree, flat) && Walkable(mem, tree) && p < PAGE_LIMIT
    ensures HardwareWalk(mem, root, 0, p) == LeafTranslation(Look(flat, p))
  {
    HardwareWalkReadsLeaf(mem, root, tree, p, 0);
    assert LeafOf(mem, tree, p) == Look(flat, p);
  }

  /** How far a range update gets: `done` is the first page it did not edit. */
  ghost predicate Progress(status: Status, base: nat, bytes: nat, done: nat) {
    && base / PAGE_SIZE <= done
    && (base == 0 || bytes == 0 ==> status == InvalidParameter && done == base / PAGE_SIZE)
    && (RangeEnd(base, bytes) <= base ==> done == base / PAGE_SIZE)
    && (status == Timeout ==> RangeEnd(base, bytes) <= base)
    && (base > 0 && bytes > 0 && base < RangeEnd(base, bytes) ==>
          if status == Success then done == RangeEnd(base, bytes) / PAGE_SIZE
          else status == OutOfResources && done < RangeEnd(base, bytes) / PAGE_SIZE)
  }

  /** A page without a leaf table faults. */
  lemma AbsentFaults(mem: Memory, root: nat, tree: Tree, flat: Flat, page: nat)
    requires WellFormed(mem, root, tree) && Agrees(mem, tree, flat) && Walkable(mem, tree) &&
      Prefix(page, 3) !in tree.at
    ensures HardwareWalk(mem, root, 0, page % PAGE_LIMIT) == Fault
  {
    hide WellFormed, Walkable, HardwareWalk;
    WalkIsFlat(mem, root, tree, flat, page % PAGE_LIMIT);
    PrefixModulo(page, 3);
    assert LeafOf(mem, tree, page % PAGE_LIMIT) == Look(flat, page % PAGE_LIMIT);
  }

  /** The range is not empty and ends at or below 2^48. */
  predicate Below48(base: nat, bytes: nat) {
    0 < bytes <= PAGE_LIMIT * PAGE_SIZE - base
  }

  lemma RangeNotEmpty(base: nat, bytes: nat)
    requires Below48(base, bytes)
    ensures base < RangeEnd(base, bytes)
    ensures base / PAGE_SIZE < RangeEnd(base, bytes) / PAGE_SIZE <= PAGE_LIMIT
  {
  }

  lemma InRange48(base: nat, bytes: nat)
    requires Below48(base, bytes)
    ensures forall q: nat :: InRange(base, bytes, q) <==> Touches(base, bytes, q)
  {
    RangeExactIff(base, bytes);
  }

  /** A range update itself times out only when its status is uninitialised. */
  lemma TimeoutProgress(status: Status, base: nat, bytes: nat, done: nat)
    requires Progress(status, base, bytes, done)
    ensures Progress(if status == Timeout then Success else status, base, bytes, done)
    ensures status == Timeout ==> RangeEnd(base, bytes) <= base
  {
  }

  /** Below 2^48 an unfinished update stops at a page that its bytes touch. */
  lemma StopsInside(base: nat, bytes: nat, done: nat)
    requires Below48(base, bytes) && base / PAGE_SIZE <= done < RangeEnd(base, bytes) / PAGE_SIZE
    ensures done < PAGE_LIMIT && done % PAGE_LIMIT == done && Touches(base, bytes, done)
  {
    hide Touches, RangeEnd;
    RangeNotEmpty(base, bytes);
    InRange48(base, bytes);
    assert InRange(base, bytes, done) <==> Touches(base, bytes, done);
  }

  /** Below 2^48 a finished update covers exactly the pages its bytes touch, each at its own leaf. */
  lemma FinishedBelow48(base: nat, bytes: nat, done: nat, op: Operation)
    requires Below48(base, bytes) && Progress(Success, base, bytes, done)
    requires op.first == base / PAGE_SIZE && op.end == done
    ensures forall p: nat :: p < PAGE_LIMIT ==> (op.Covers(p) <==> Touches(base, bytes, p))
    ensures forall p: nat :: p < PAGE_LIMIT && op.Covers(p) ==> op.Target(p) == p
  {
    hide Touches, RangeEnd, LastAlias;
    RangeNotEmpty(base, bytes);
    InRange48(base, bytes);
    NoAliasIff(base / PAGE_SIZE, done);
    forall p: nat | p < PAGE_LIMIT ensures op.Covers(p) <==> Touches(base, bytes, p) {
      assert InRange(base, bytes, p) <==> Touches(base, bytes, p);
    }
  }

  /** No table was dropped or moved. */
  ghost predicate Grows(s: Tree, t: Tree) {
    forall p :: p in s.at ==> p in t.at && t.at[p] == s.at[p]
  }

  lemma GrowsNothing(t: Tree)
    ensures Grows(t, t)
  {
  }

  /** Everything that holds of a table before and after a call that edits its pages. */
  ghost predicate Edited(m: Memory, s: Tree, f: Flat, m': Memory, s': Tree, f': Flat, root: nat, op: Operation) {
    && WellFormed(m, root, s) && Agrees(m, s, f) && Walkable(m, s)
    && WellFormed(m', root, s') && Agrees(m', s', f') && Walkable(m', s')
    && f' == EditRange(f, op.first, op.end, op.Effect())
  }

  /** A translation with more access, or with none. */
  ghost function Granted(t: Translation, read: bool, write: bool): Translation {
    match t
    case Page(frame, r, w) => if !read && !write then Page(frame, false, false) else Page(frame, r || read, w || write)
    case _ => t
  }

  /** What a call makes of the translation of a page it covers. */
  ghost function Retranslate(t: Translation, op: Operation, p: nat): Translation
    requires op.Covers(p)
  {
    match op
    case Map(_, _) => Page(p, false, false)
    case Unmap(_, _) => Fault
    case SetAccess(_, _, read, write) => Granted(t, read, write)
  }

  lemma LeafRetranslates(e: Entry, op: Operation, p: nat)
    requires op.Covers(p) && p < PAGE_LIMIT
    ensures LeafTranslation(NewLeaf(e, op.Target(p), op.Effect())) == Retranslate(LeafTranslation(e), op, p)
  {
    NewLeafBecomes(e, op, p);
    LastAliasMeaning(op.end, p, 0);
  }

  /** A call changes the translation of the pages it covers, and of no other page. */
  lemma EditTranslates(m: Memory, s: Tree, f: Flat, m': Memory, s': Tree, f': Flat, root: nat, op: Operation)
    requires Edited(m, s, f, m', s', f', root, op)
    ensures forall p: nat :: p < PAGE_LIMIT ==>
      HardwareWalk(m', root, 0, p) ==
      if op.Covers(p) then Retranslate(HardwareWalk(m, root, 0, p), op, p) else HardwareWalk(m, root, 0, p)
  {
    hide WellFormed, Walkable, Agrees, HardwareWalk, LeafTranslation, NewLeaf, Retranslate, EditRange, LastAlias;
    forall p: nat | p < PAGE_LIMIT
      ensures HardwareWalk(m', root, 0, p) ==
        if op.Covers(p) then Retranslate(HardwareWalk(m, root, 0, p), op, p) else HardwareWalk(m, root, 0, p)
    {
      WalkIsFlat(m, root, s, f, p);
      WalkIsFlat(m', root, s', f', p);
      EditRangeEffect(f, op.first, op.end, op.Effect(), p);
      if op.Covers(p) {
        LeafRetranslates(Look(f, p), op, p);
      }
    }
  }

  ghost function Elements(s: seq<nat>): set<nat> {
    set x | x in s
  }

  /** Every table at or below `p` is still allocated and unchanged. */
  ghost predicate Intact(mem0: Memory, tree: Tree, mem: Memory, p: Path) {
    forall q :: q in tree.at && Above(p, q) ==>
      tree.at[q] in mem && tree.at[q] in mem0 && mem[tree.at[q]] == mem0[tree.at[q]]
  }

  /** While the first `i` children of a table are released, the table and its later children stay. */
  lemma StillIntact(mem0: Memory, root: nat, tree: Tree, mem: Memory, p: Path, i: nat)
    requires WellFormed(mem0, root, tree) && p in tree.at && i <= TABLE_SIZE && Intact(mem0, tree, mem, p)
    ensures tree.at[p] in mem0 && |mem0[tree.at[p]]| == TABLE_SIZE
    ensures var rest := mem - Elements(FreeEntries(mem0, p.Level(), tree.at[p], i));
      && tree.at[p] in rest && rest[tree.at[p]] == mem0[tree.at[p]]
      && (i < TABLE_SIZE ==> Intact(mem0, tree, rest, Sub(p, i)))
  {
    var gone := FreeEntries(mem0, p.Level(), tree.at[p], i);
    assert Above(p, p);
    if tree.at[p] in gone {
      var j := EntriesUnder(mem0, root, tree, p, i, tree.at[p]);
      AboveLevel(Sub(p, j), p);
    }
    if i < TABLE_SIZE {
      forall q | q in tree.at && Above(Sub(p, i), q)
        ensures tree.at[q] in mem && mem[tree.at[q]] == mem0[tree.at[q]] && tree.at[q] !in gone
      {
        assert Above(p, Sub(p, i));
        AboveTransitive(p, Sub(p, i), q);
        if tree.at[q] in gone {
          var j := EntriesUnder(mem0, root, tree, p, i, tree.at[q]);
          AncestorUnique(Sub(p, j), Sub(p, i), q);
        }
      }
    }
  }

  lemma ReleaseNothing(mem0: Memory, level: nat, t: nat, mem: Memory)
    requires level >= DEPTH || t == 0
    ensures FreeOrder(mem0, level, t) == [] && mem - Elements(FreeOrder(mem0, level, t)) == mem
  {
  }

  lemma ReleaseStep(mem0: Memory, level: nat, t: nat, i: nat, mem: Memory)
    requires level < DEPTH && t in mem0 && i < |mem0[t]| == TABLE_SIZE
    ensures FreeEntry(mem0, level, t, i) ==
      if mem0[t][i] == ZERO then [] else FreeOrder(mem0, level + 1, mem0[t][i].frame)
    ensures FreeEntries(mem0, level, t, i + 1) == FreeEntries(mem0, level, t, i) + FreeEntry(mem0, level, t, i)
    ensures mem - Elements(FreeEntries(mem0, level, t, i)) - Elements(FreeEntry(mem0, level, t, i))
      == mem - Elements(FreeEntries(mem0, level, t, i + 1))
    ensures mem0[t][i] == ZERO ==> FreeEntries(mem0, level, t, i + 1) == FreeEntries(mem0, level, t, i)
  {
  }

  lemma ReleaseEnds(mem0: Memory, level: nat, t: nat, mem: Memory)
    requires level < DEPTH && t != 0 && t in mem0 && |mem0[t]| == TABLE_SIZE
    ensures FreeEntries(mem0, level, t, 0) == [] && mem - Elements(FreeEntries(mem0, level, t, 0)) == mem
    ensures FreeOrder(mem0, level, t) == FreeEntries(mem0, level, t, TABLE_SIZE) + [t]
    ensures mem - Elements(FreeEntries(mem0, level, t, TABLE_SIZE)) - {t} == mem - Elements(FreeOrder(mem0, level, t))
  {
  }

  lemma LoopTurn(base: nat, current: nat, done: nat, end: nat)
    requires current == base + (done - base / PAGE_SIZE) * PAGE_SIZE && end % PAGE_SIZE == 0
    requires base / PAGE_SIZE <= done && current < end
    ensures current / PAGE_SIZE == done < end / PAGE_SIZE && base <= current
  {
  }

  /** Page by page, the loop over a range ends at its last page. */
  lemma LoopEnds(base: nat, current: nat, done: nat, end: nat)
    requires current == base + (done - base / PAGE_SIZE) * PAGE_SIZE && end % PAGE_SIZE == 0
    requires base / PAGE_SIZE <= done <= end / PAGE_SIZE && current >= end
    ensures done == end / PAGE_SIZE
  {
  }

  /** An update of the byte range visits a page. */
  predicate Visits(base: nat, bytes: nat) {
    base > 0 && bytes > 0 && base < RangeEnd(base, bytes)
  }

  /** The next answers are pages, as many as the tables missing on the way to the byte range. */
  ghost predicate Funded(answers: nat -> nat, asked: nat, base: nat, bytes: nat, keys: set<Path>) {
    AllPages(answers, asked, asked + Needed(base / PAGE_SIZE, RangeEnd(base, bytes) / PAGE_SIZE, keys))
  }

  /** The answers that an update of a byte range takes: one for each table missing on the way to its pages, in
      order, until one is NULL; none if there is nothing to visit. */
  ghost predicate Supply(answers: nat -> nat, before: nat, after: nat, base: nat, bytes: nat, keys: set<Path>,
    grown: set<Path>, refused: bool)
  {
    if !Visits(base, bytes) then after == before && grown == keys
    else
      var wanted := Spines(base / PAGE_SIZE, RangeEnd(base, bytes) / PAGE_SIZE);
      Account(answers, before, after, keys, grown, wanted, refused)
  }

  lemma RangeRefused(base: nat, bytes: nat, answers: nat -> nat, asked: nat, keys: set<Path>)
    requires base == 0 || bytes == 0
    ensures Progress(InvalidParameter, base, bytes, base / PAGE_SIZE)
    ensures Supply(answers, asked, asked, base, bytes, keys, keys, false)
  {
  }

  lemma RangeStopped(base: nat, bytes: nat, done: nat, answers: nat -> nat, before: nat, after: nat, keys: set<Path>,
    grown: set<Path>)
    requires Visits(base, bytes) && base / PAGE_SIZE <= done < RangeEnd(base, bytes) / PAGE_SIZE
    requires Account(answers, before, after, keys, grown, Spines(base / PAGE_SIZE, RangeEnd(base, bytes) / PAGE_SIZE),
               true)
    ensures Progress(OutOfResources, base, bytes, done)
    ensures Supply(answers, before, after, base, bytes, keys, grown, true)
  {
  }

  lemma RangeFinished(status: Status, base: nat, bytes: nat, current: nat, done: nat, answers: nat -> nat, before: nat,
    after: nat, keys: set<Path>, grown: set<Path>)
    requires base > 0 && bytes > 0 && base <= current && RangeEnd(base, bytes) <= current
    requires current == base + (done - base / PAGE_SIZE) * PAGE_SIZE && base / PAGE_SIZE <= done
    requires base < current ==> status == Success && done <= RangeEnd(base, bytes) / PAGE_SIZE
    requires RangeEnd(base, bytes) <= base ==> current == base && after == before && grown == keys
    requires Account(answers, before, after, keys, grown, Spines(base / PAGE_SIZE, done), false)
    ensures Progress(status, base, bytes, done)
    ensures Supply(answers, before, after, base, bytes, keys, grown, status == OutOfResources)
  {
    hide RangeEnd, Account, Spines;
    if base < current {
      LoopEnds(base, current, done, RangeEnd(base, bytes));
    }
  }

  /** An update of a range that is not empty runs out of memory if and only if one of the answers it is due, one
      for each missing table, is NULL. */
  lemma SupplyIff(answers: nat -> nat, before: nat, after: nat, base: nat, bytes: nat, keys: set<Path>,
    grown: set<Path>, refused: bool)
    requires Supply(answers, before, after, base, bytes, keys, grown, refused) && Visits(base, bytes)
    ensures refused <==> !Funded(answers, before, base, bytes, keys)
  {
    ChargedIff(answers, before, after, Needed(base / PAGE_SIZE, RangeEnd(base, bytes) / PAGE_SIZE, keys), refused);
  }

  /** The first page that is mapped needs a table at each of the three levels below the root. */
  lemma FirstPageNeeds(page: nat)
    ensures Needed(page, page + 1, {Root}) == 3
  {
    var p, q, r := Prefix(page, 1), Prefix(page, 2), Prefix(page, 3);
    assert Root.Level() == 0;
    assert Spine(page, 1) == {Root, p};
    assert Spine(page, 2) == {Root, p, q};
    assert Spine(page, 3) == {Root, p, q, r};
    assert Spines(page, page) == {};
    assert Spines(page, page + 1) - {Root} == {p, q, r};
  }

  /** A descriptor above the leaves is zero exactly when the table it would lead to does not exist. */
  lemma ChildThere(mem: Memory, root: nat, tree: Tree, p: Path, i: nat)
    requires WellFormed(mem, root, tree) && p in tree.at && p.Level() < DEPTH - 1 && i < TABLE_SIZE
    ensures tree.at[p] in mem && i < |mem[tree.at[p]]|
    ensures mem[tree.at[p]][i] == ZERO <==> Sub(p, i) !in tree.at
  {
    assert Linked(mem, tree, p, i);
  }

  class Smmu {
    var root: nat
    var mem: Memory
    /** The page allocator's answers, and how many requests it has had. */
    const answers: nat -> nat
    var asked: nat
    /** Pages handed to FreePages, in order. */
    var freed: seq<nat>
    ghost var tree: Tree
    ghost var flat: Flat
    ghost var history: seq<Operation>

    ghost predicate TreeValid()
      reads this
    {
      WellFormed(mem, root, tree) && NoStray(mem, tree) && Supplied(answers, asked, root, mem)
    }

    ghost predicate Valid()
      reads this
    {
      TreeValid() && Agrees(mem, tree, flat)
    }

    /** The state between protocol calls: the table is the flat result of every call so far. */
    ghost predicate Live()
      reads this
    {
      Valid() && Walkable(mem, tree) && flat == Replay(history)
    }

    /** What the SMMU makes of a device access to a page. */
    ghost function Translate(p: nat): Translation
      reads this
    {
      HardwareWalk(mem, root, 0, p)
    }

    constructor PageTableInit(page: nat, answers: nat -> nat)
      requires 0 < page < PAGE_LIMIT && Honest(answers, page)
      ensures Live() && root == page && flat == map[] && history == [] && freed == []
      ensures this.answers == answers && asked == 0 && tree.at.Keys == {Root}
    {
      SuppliedStart(answers, page);
      root := page;
      this.answers, asked := answers, 0;
      mem := map[page := ZeroTable()];
      freed := [];
      tree := Tree(map[Path.Root := page], map[page := Path.Root]);
      flat := map[];
      history := [];
    }

    /** AllocatePages(1): NULL (page 0), or a page. */
    method AllocatePage() returns (f: nat)
      modifies this`asked
      ensures f == answers(old(asked)) && asked == old(asked) + 1
    {
      f := answers(asked);
      asked := asked + 1;
    }

    /** UpdateFlags: sets flag bits, or in access-only mode with no flags clears read and write. */
    method UpdateFlags(t: nat, accessOnly: bool, flags: Bits, i: nat)
      requires t in mem && i < |mem[t]|
      modifies this`mem
      ensures mem == Write(old(mem), t, i, WithFlags(old(mem)[t][i], Change(flags, false, accessOnly)))
    {
      var e := mem[t][i];
      if accessOnly {
        if flags != {} {
          e := e.(attr := e.attr + flags);
        } else {
          e := e.(attr := e.attr - {READ, WRITE});
        }
      } else {
        e := e.(attr := e.attr + flags);
      }
      assert e == WithFlags(mem[t][i], Change(flags, false, accessOnly));
      mem := Write(mem, t, i, e);
    }

    /** The two assignments that mark the descriptor of a table on the way down. */
    method MarkLink(t: nat, i: nat, c: Change)
      requires t in mem && i < |mem[t]|
      modifies this`mem
      ensures mem == Write(old(mem), t, i, NewLink(old(mem)[t][i], c))
    {
      if !c.accessOnly {
        if c.valid {
          mem := Write(mem, t, i, mem[t][i].(attr := mem[t][i].attr + {VALID}));
        }
      }
      assert WithFlags(mem[t][i], Change(c.flags, false, c.accessOnly)) == NewLink(old(mem)[t][i], c);
      UpdateFlags(t, c.accessOnly, c.flags, i);
      assert mem[t] == Write(old(mem), t, i, NewLink(old(mem)[t][i], c))[t];
    }

    /** The first half of a level of the descent: allocate the next table if the descriptor is zero. */
    method EnsureChild(t: nat, i: nat, ghost p: Path) returns (status: Status)
      requires TreeValid() && p in tree.at && tree.at[p] == t && p.Level() < DEPTH - 1 && i < TABLE_SIZE
      modifies this`mem, this`tree, this`asked
      ensures TreeValid() && SameLeaves(old(mem), old(tree), mem, tree)
      ensures p in tree.at && tree.at[p] == t
      ensures status == Success || (status == OutOfResources && Sub(p, i) !in tree.at && mem == old(mem))
      ensures Charged(answers, old(asked), asked, if Sub(p, i) in old(tree).at then 0 else 1, status == OutOfResources)
      ensures tree.at.Keys == old(tree).at.Keys + if status == Success then {Sub(p, i)} else {}
      ensures Grows(old(tree), tree)
      ensures old(Walkable(mem, tree)) ==> Walkable(mem, tree)
      ensures old(ReachedValid(mem, tree, p)) ==> ReachedValid(mem, tree, p)
    {
      hide WellFormed, NoStray, Walkable, ReachedValid, Supplied;
      Present(mem, root, tree, p);
      ChildThere(mem, root, tree, p, i);
      status := Success;
      if mem[t][i] == ZERO {
        SuppliedNext(answers, asked, root, mem, t, i);
        var f := AllocatePage();
        if f == 0 {
          return OutOfResources;
        }
        HangKeepsAll(mem, root, tree, p, i, f);
        mem := Hang(mem, t, i, f);
        tree := Extend(tree, Sub(p, i), f);
      }
    }

    /** One level of the descent. */
    method Descend(t: nat, i: nat, c: Change, ghost p: Path) returns (status: Status, next: nat)
      requires TreeValid() && p in tree.at && tree.at[p] == t && p.Level() < DEPTH - 1 && i < TABLE_SIZE
      modifies this`mem, this`tree, this`asked
      ensures TreeValid() && SameLeaves(old(mem), old(tree), mem, tree)
      ensures status == Success || (status == OutOfResources && Sub(p, i) !in tree.at && mem == old(mem))
      ensures status == Success ==> Sub(p, i) in tree.at && tree.at[Sub(p, i)] == next
      ensures Charged(answers, old(asked), asked, if Sub(p, i) in old(tree).at then 0 else 1, status == OutOfResources)
      ensures tree.at.Keys == old(tree).at.Keys + if status == Success then {Sub(p, i)} else {}
      ensures Grows(old(tree), tree)
      ensures old(Walkable(mem, tree)) && Legal(c) && (Sets(c) ==> old(ReachedValid(mem, tree, p))) ==>
        Walkable(mem, tree) && (status == Success && Sets(c) ==> SlotValid(mem, tree, p, i))
    {
      hide WellFormed, NoStray, SameLeaves, Walkable, SlotValid, ReachedValid, Grows, Supplied, Charged;
      next := 0;
      status := EnsureChild(t, i, p);
      if status != Success {
        return;
      }
      MarkKeepsTree(mem, root, tree, p, i, c);
      if Walkable(mem, tree) && Legal(c) && (Sets(c) ==> ReachedValid(mem, tree, p)) {
        MarkKeepsWalkable(mem, root, tree, p, i, c);
      }
      SameLeavesTransitive(old(mem), old(tree), mem, tree, Write(mem, t, i, NewLink(mem[t][i], c)), tree);
      SuppliedWrite(answers, asked, root, mem, t, i, NewLink(mem[t][i], c));
      MarkLink(t, i, c);
      next := mem[t][i].frame;
    }

    /** The leaf: assign the address and the valid bit, or clear the valid bit, then the flags. */
    method MarkLeaf(t: nat, i: nat, frame: nat, c: Change)
      requires t in mem && i < |mem[t]|
      modifies this`mem
      ensures mem == Write(old(mem), t, i, NewLeaf(old(mem)[t][i], frame, c))
    {
      if !c.accessOnly {
        if c.valid {
          mem := Write(mem, t, i, Entry(frame, {}));
          mem := Write(mem, t, i, mem[t][i].(attr := mem[t][i].attr + {VALID}));
        } else {
          mem := Write(mem, t, i, mem[t][i].(attr := mem[t][i].attr - {VALID}));
        }
      }
      assert WithFlags(mem[t][i], Change(c.flags, false, c.accessOnly)) == NewLeaf(old(mem)[t][i], frame, c);
      UpdateFlags(t, c.accessOnly, c.flags, i);
      assert mem[t] == Write(old(mem), t, i, NewLeaf(old(mem)[t][i], frame, c))[t];
    }

    /** One level of the descent to a page. */
    method DescendAt(virtualAddress: nat, level: nat, t: nat, c: Change, ghost page: nat)
      returns (status: Status, next: nat)
      requires Valid() && page == virtualAddress / PAGE_SIZE && level < DEPTH - 1
      requires Prefix(page, level) in tree.at && tree.at[Prefix(page, level)] == t
      modifies this`mem, this`tree, this`asked
      ensures Valid() && Grows(old(tree), tree)
      ensures status == Success || (status == OutOfResources && Prefix(page, 3) !in tree.at)
      ensures status == Success ==> Prefix(page, level + 1) in tree.at && tree.at[Prefix(page, level + 1)] == next
      ensures Charged(answers, old(asked), asked, if Prefix(page, level + 1) in old(tree).at then 0 else 1,
                status == OutOfResources)
      ensures tree.at.Keys == old(tree).at.Keys + if status == OutOfResources then {} else {Prefix(page, level + 1)}
      ensures
        old(Walkable(mem, tree)) && Legal(c) && (Sets(c) ==> old(ReachedValid(mem, tree, Prefix(page, level)))) ==>
        Walkable(mem, tree) && (status == Success && Sets(c) ==> ReachedValid(mem, tree, Prefix(page, level + 1)))
    {
      hide WellFormed, NoStray, SameLeaves, Walkable, Agrees, SlotValid, Allocated, Supplied, Charged, Prefix, Legal,
        Sets, Grows;
      IndexOfAddress(virtualAddress, level);
      PrefixStep(page, level);
      ghost var m, s := mem, tree;
      status, next := Descend(t, TableIndex(virtualAddress, level), c, Prefix(page, level));
      StillAgrees(m, s, mem, tree, flat);
      if status != Success {
        LeafTableAbsent(mem, root, tree, page, level + 1);
      }
    }

    /** The descent to the leaf table of a page. */
    method DescendToLeaf(virtualAddress: nat, c: Change) returns (status: Status, t: nat)
      requires Valid()
      modifies this`mem, this`tree, this`asked
      ensures Valid() && Grows(old(tree), tree)
      ensures Account(answers, old(asked), asked, old(tree).at.Keys, tree.at.Keys,
                Spine(virtualAddress / PAGE_SIZE, 3), status == OutOfResources)
      ensures status == Success || (status == OutOfResources && Prefix(virtualAddress / PAGE_SIZE, 3) !in old(tree).at)
      ensures status == Success ==>
        var leaf := Prefix(virtualAddress / PAGE_SIZE, 3); leaf in tree.at && tree.at[leaf] == t
      ensures old(Walkable(mem, tree)) && Legal(c) ==>
        && Walkable(mem, tree)
        && (status == Success && Sets(c) ==> ReachedValid(mem, tree, Prefix(virtualAddress / PAGE_SIZE, 3)))
    {
      hide WellFormed, NoStray, Walkable, Agrees, Supplied, Charged, Spine, Account, Prefix, Legal, Sets, SlotValid;
      status, t := Success, root;
      var level := 0;
      ghost var page, keys := virtualAddress / PAGE_SIZE, tree.at.Keys;
      RootPresent(mem, root, tree);
      PrefixStart(page);
      AccountStart(answers, asked, page, keys);
      while level < DEPTH - 1
        invariant 0 <= level <= DEPTH - 1 && Valid() && status == Success
        invariant Account(answers, old(asked), asked, keys, tree.at.Keys, Spine(page, level), false)
        invariant Prefix(page, level) in tree.at && tree.at[Prefix(page, level)] == t && Grows(old(tree), tree)
        invariant old(Walkable(mem, tree)) && Legal(c) ==>
          Walkable(mem, tree) && (Sets(c) ==> ReachedValid(mem, tree, Prefix(page, level)))
      {
        ghost var paid, now := asked, tree.at.Keys;
        status, t := DescendAt(virtualAddress, level, t, c, page);
        AccountLevel(answers, old(asked), paid, asked, keys, now, tree.at.Keys, page, level, status == OutOfResources);
        if status != Success {
          return;
        }
        level := level + 1;
      }
    }

    /** UpdateMapping: a successful call edits the leaf of one page and leaves every other page's leaf
        alone; a failed one (bad parameters or no memory for a table) edits none.  It takes one answer of the
        page allocator for each table missing on the way, and fails if and only if one of them is NULL. */
    method UpdateMapping(virtualAddress: nat, physicalAddress: nat, flags: Bits, valid: bool, accessOnly: bool)
      returns (status: Status)
      requires Valid()
      modifies this`mem, this`tree, this`flat, this`asked
      ensures Valid()
      ensures status == InvalidParameter <==> !(forall b :: b in flags ==> b < 12) || physicalAddress == 0
      ensures status == InvalidParameter ==> mem == old(mem) && tree == old(tree) && asked == old(asked)
      ensures status != InvalidParameter ==>
        Account(answers, old(asked), asked, old(tree).at.Keys, tree.at.Keys, Spine(virtualAddress / PAGE_SIZE, 3),
          status == OutOfResources)
      ensures status != Success ==> status == InvalidParameter || status == OutOfResources
      ensures status != Success ==> flat == old(flat)
      ensures status == OutOfResources ==> Prefix(virtualAddress / PAGE_SIZE, 3) !in old(tree).at
      ensures Grows(old(tree), tree)
      ensures status == Success ==>
        var page := virtualAddress / PAGE_SIZE % PAGE_LIMIT;
        var c := Change(flags, valid, accessOnly);
        flat == old(flat)[page := NewLeaf(Look(old(flat), page), physicalAddress / PAGE_SIZE, c)]
      ensures old(Walkable(mem, tree)) && Legal(Change(flags, valid, accessOnly)) ==> Walkable(mem, tree)
    {
      hide WellFormed, NoStray, SameLeaves, Walkable, Agrees, SlotValid, Allocated, Supplied, Account, Spine, Grows,
        Prefix, Legal, Sets;
      if !(flags <= LOW_BITS) || physicalAddress == 0 {
        GrowsNothing(tree);
        return InvalidParameter;
      }
      var c := Change(flags, valid, accessOnly);
      ghost var page, frame := virtualAddress / PAGE_SIZE, physicalAddress / PAGE_SIZE;
      var t;
      status, t := DescendToLeaf(virtualAddress, c);
      if status != Success {
        return;
      }
      IndexOfAddress(virtualAddress, DEPTH - 1);
      LeafAgrees(mem, root, tree, flat, page, frame, c);
      if Walkable(mem, tree) && Legal(c) && (Sets(c) ==> ReachedValid(mem, tree, Prefix(page, 3))) {
        LeafKeepsWalkable(mem, root, tree, Prefix(page, 3), PageIndex(page, 3), frame, c);
      }
      SuppliedWrite(answers, asked, root, mem, t, PageIndex(page, 3), NewLeaf(mem[t][PageIndex(page, 3)], frame, c));
      MarkLeaf(t, TableIndex(virtualAddress, DEPTH - 1), physicalAddress / PAGE_SIZE, c);
      flat := flat[page % PAGE_LIMIT := NewLeaf(Look(flat, page % PAGE_LIMIT), frame, c)];
    }

    /** UpdatePageTable: edits the pages from the first to `done`, all of the range on success.  When
        the 64-bit end of the range wraps to or below its base no page is visited and the status is
        whatever the uninitialised variable held. */
    method UpdatePageTable(base: nat, bytes: nat, flags: Bits, valid: bool, accessOnly: bool)
      returns (status: Status, ghost done: nat)
      requires Valid()
      modifies this`mem, this`tree, this`flat, this`asked
      ensures Valid()
      ensures flags <= LOW_BITS ==>
        Supply(answers, old(asked), asked, base, bytes, old(tree).at.Keys, tree.at.Keys, status == OutOfResources)
      ensures !(flags <= LOW_BITS) ==> asked == old(asked) && tree == old(tree)
      ensures flat == EditRange(old(flat), base / PAGE_SIZE, done, Change(flags, valid, accessOnly))
      ensures if flags <= LOW_BITS then Progress(status, base, bytes, done)
              else status == InvalidParameter && done == base / PAGE_SIZE
      ensures status == OutOfResources && base < RangeEnd(base, bytes) ==> Prefix(done, 3) !in old(tree).at
      ensures old(Walkable(mem, tree)) && Legal(Change(flags, valid, accessOnly)) ==> Walkable(mem, tree)
    {
      hide WellFormed, NoStray, Agrees, Walkable, Prefix, Supplied, Account, Spine, Spines, EditRange, RangeEnd,
        NewLeaf, Legal, Look, Progress, Supply;
      done := base / PAGE_SIZE;
      ghost var keys := tree.at.Keys;
      AccountNothing(answers, asked, done, keys);
      EditNothing(flat, done, Change(flags, valid, accessOnly));
      if !(flags <= LOW_BITS) || base == 0 || bytes == 0 {
        if base == 0 || bytes == 0 {
          RangeRefused(base, bytes, answers, asked, keys);
        }
        return InvalidParameter, done;
      }
      ghost var c := Change(flags, valid, accessOnly);
      var current, end := base, RangeEnd(base, bytes);
      status := *;
      while current < end
        invariant base <= current && current == base + (done - base / PAGE_SIZE) * PAGE_SIZE
        invariant base / PAGE_SIZE <= done
        invariant Valid() && flat == EditRange(old(flat), base / PAGE_SIZE, done, c)
        invariant base < current ==> status == Success && done <= end / PAGE_SIZE
        invariant Grows(old(tree), tree)
        invariant end <= base ==> current == base && asked == old(asked) && tree == old(tree)
        invariant Account(answers, old(asked), asked, keys, tree.at.Keys, Spines(base / PAGE_SIZE, done), false)
        invariant old(Walkable(mem, tree)) && Legal(c) ==> Walkable(mem, tree)
      {
        LoopTurn(base, current, done, end);
        ghost var paid, now := asked, tree.at.Keys;
        EditStep(old(flat), base / PAGE_SIZE, done, c);
        status := UpdateMapping(current, current, flags, valid, accessOnly);
        AccountPage(answers, old(asked), paid, asked, keys, now, tree.at.Keys, base / PAGE_SIZE, done,
          end / PAGE_SIZE, status == OutOfResources);
        if status != Success {
          RangeStopped(base, bytes, done, answers, old(asked), asked, keys, tree.at.Keys);
          return;
        }
        current := current + PAGE_SIZE;
        done := done + 1;
      }
      RangeFinished(status, base, bytes, current, done, answers, old(asked), asked, keys, tree.at.Keys);
    }

    /** After any run of calls a page translates exactly when the last map of it has not been unmapped since, to
        itself, and with exactly the permissions granted and not revoked since. */
    lemma TranslationOfRun(p: nat)
      requires Live() && p < PAGE_LIMIT
      ensures Translate(p) ==
        if Mapped(history, p) then Page(p, Permitted(history, p, false), Permitted(history, p, true)) else Fault
    {
      hide HardwareWalk, Permitted, LastAlias;
      WalkIsFlat(mem, root, tree, flat, p);
      ReplayMeaning(history, p);
      if Mapped(history, p) {
        var k :| MappedAt(history, p, k);
        LastAliasMeaning(history[k].end, p, 0);
      }
    }

    /** Record a call in the history. */
    lemma Replayed(ops: seq<Operation>, op: Operation)
      ensures Replay(ops + [op]) == EditRange(Replay(ops), op.first, op.end, op.Effect())
    {
      assert (ops + [op])[..|ops|] == ops;
    }

    /** The calls' effect on what the SMMU translates, page by page. */
    twostate predicate Retranslated(op: Operation)
      reads this
    {
      && history == old(history) + [op]
      && forall p: nat :: p < PAGE_LIMIT ==>
        Translate(p) == if op.Covers(p) then Retranslate(old(Translate(p)), op, p) else old(Translate(p))
    }

    /** Which status an update of a range that visits a page ends with. */
    lemma Outcome(status: Status, before: nat, base: nat, bytes: nat, done: nat, keys: set<Path>)
      requires Progress(status, base, bytes, done)
      requires Supply(answers, before, asked, base, bytes, keys, tree.at.Keys, status == OutOfResources)
      ensures Visits(base, bytes) ==>
        && (status == Success || status == OutOfResources)
        && (status == Success <==> Funded(answers, before, base, bytes, keys))
    {
      if Visits(base, bytes) {
        SupplyIff(answers, before, asked, base, bytes, keys, tree.at.Keys, status == OutOfResources);
      }
    }

    /** IoMmuMap: maps every page it reaches to itself, with no access yet. */
    method Map(hostAddress: nat, bytes: nat)
      returns (status: Status, deviceAddress: nat, info: MapInfo, ghost done: nat)
      requires Live()
      modifies this`mem, this`tree, this`flat, this`history, this`asked
      ensures Live() && Progress(status, hostAddress, bytes, done)
      ensures Retranslated(Operation.Map(hostAddress / PAGE_SIZE, done))
      ensures Supply(answers, old(asked), asked, hostAddress, bytes, old(tree).at.Keys, tree.at.Keys,
                status == OutOfResources)
      ensures Visits(hostAddress, bytes) ==>
        (status == Success <==> Funded(answers, old(asked), hostAddress, bytes, old(tree).at.Keys))
      ensures status == OutOfResources && hostAddress < RangeEnd(hostAddress, bytes) ==>
        old(Translate(done % PAGE_LIMIT)) == Fault
      ensures status == Success ==> deviceAddress == hostAddress && info == MapInfo(bytes, hostAddress, hostAddress)
      ensures status == Success && Below48(hostAddress, bytes) ==>
        forall p: nat :: p < PAGE_LIMIT ==>
          Translate(p) == if Touches(hostAddress, bytes, p) then Page(p, false, false) else old(Translate(p))
    {
      hide WellFormed, NoStray, Agrees, Walkable, HardwareWalk, EditRange, Progress, Touches, LastAlias, RangeEnd,
        Prefix, Below48, Supplied, Supply, Funded, Visits;
      deviceAddress, info := 0, MapInfo(0, 0, 0);
      status, done := UpdatePageTable(hostAddress, bytes, {ACCESS_FLAG, DESCRIPTOR}, true, false);
      Outcome(status, old(asked), hostAddress, bytes, done, old(tree).at.Keys);
      ghost var op := Operation.Map(hostAddress / PAGE_SIZE, done);
      history := history + [op];
      Replayed(old(history), op);
      EditTranslates(old(mem), old(tree), old(flat), mem, tree, flat, root, op);
      if Prefix(done, 3) !in old(tree).at {
        AbsentFaults(old(mem), root, old(tree), old(flat), done);
      }
      if status != Success {
        return;
      }
      deviceAddress := hostAddress;
      info := MapInfo(bytes, deviceAddress, hostAddress);
      if Below48(hostAddress, bytes) {
        FinishedBelow48(hostAddress, bytes, done, op);
      }
    }

    /** IoMmuUnmap: every page it reaches faults.  The table is edited before the TLB commands are sent,
        so it is edited even when they time out; only a complete call gives up the mapping. */
    method Unmap(info: MapInfo, commandsAccepted: bool) returns (status: Status, ghost done: nat)
      requires Live()
      modifies this`mem, this`tree, this`flat, this`history, this`asked
      ensures Live() && Progress(if status == Timeout then Success else status, info.hostAddress, info.bytes, done)
      ensures Retranslated(Operation.Unmap(info.hostAddress / PAGE_SIZE, done))
      ensures Supply(answers, old(asked), asked, info.hostAddress, info.bytes, old(tree).at.Keys, tree.at.Keys,
                status == OutOfResources)
      ensures Visits(info.hostAddress, info.bytes) ==>
        status == if !Funded(answers, old(asked), info.hostAddress, info.bytes, old(tree).at.Keys) then OutOfResources
                  else if commandsAccepted then Success else Timeout
      ensures status == OutOfResources && info.hostAddress < RangeEnd(info.hostAddress, info.bytes) ==>
        old(Translate(done % PAGE_LIMIT)) == Fault
      ensures status == Success ==> commandsAccepted
      ensures status == Timeout && commandsAccepted ==> RangeEnd(info.hostAddress, info.bytes) <= info.hostAddress
      ensures (status == Success || status == Timeout) && Below48(info.hostAddress, info.bytes) ==>
        forall p: nat :: p < PAGE_LIMIT ==>
          Translate(p) == if Touches(info.hostAddress, info.bytes, p) then Fault else old(Translate(p))
    {
      hide WellFormed, NoStray, Agrees, Walkable, HardwareWalk, EditRange, Progress, Touches, LastAlias, RangeEnd,
        Prefix, Below48, Supplied, Supply, Funded, Visits;
      if Below48(info.hostAddress, info.bytes) {
        RangeNotEmpty(info.hostAddress, info.bytes);
      }
      status, done := UpdatePageTable(info.hostAddress, info.bytes, {}, false, false);
      Outcome(status, old(asked), info.hostAddress, info.bytes, done, old(tree).at.Keys);
      TimeoutProgress(status, info.hostAddress, info.bytes, done);
      ghost var op := Operation.Unmap(info.hostAddress / PAGE_SIZE, done);
      history := history + [op];
      Replayed(old(history), op);
      EditTranslates(old(mem), old(tree), old(flat), mem, tree, flat, root, op);
      if Prefix(done, 3) !in old(tree).at {
        AbsentFaults(old(mem), root, old(tree), old(flat), done);
      }
      if status != Success {
        return;
      }
      if Below48(info.hostAddress, info.bytes) {
        FinishedBelow48(info.hostAddress, info.bytes, done, op);
      }
      if !commandsAccepted {
        status := Timeout;
      }
    }

    /** IoMmuSetAttribute: adds the requested access to the translation of every page it reaches, or takes
        all access away when none is requested; it never makes a page valid. */
    method SetAttribute(info: MapInfo, access: nat) returns (status: Status, ghost done: nat)
      requires Live()
      modifies this`mem, this`tree, this`flat, this`history, this`asked
      ensures Live()
      ensures access > 3 ==> status == InvalidParameter && unchanged(this)
      ensures access <= 3 ==>
        && Progress(status, info.hostAddress, info.bytes, done)
        && Retranslated(Operation.SetAccess(info.hostAddress / PAGE_SIZE, done, access % 2 == 1, access / 2 == 1))
        && Supply(answers, old(asked), asked, info.hostAddress, info.bytes, old(tree).at.Keys, tree.at.Keys,
             status == OutOfResources)
      ensures access <= 3 && Visits(info.hostAddress, info.bytes) ==>
        (status == Success <==> Funded(answers, old(asked), info.hostAddress, info.bytes, old(tree).at.Keys))
      ensures access <= 3 && status == OutOfResources && info.hostAddress < RangeEnd(info.hostAddress, info.bytes) ==>
        old(Translate(done % PAGE_LIMIT)) == Fault
      ensures status == Success && Below48(info.hostAddress, info.bytes) ==>
        forall p: nat :: p < PAGE_LIMIT ==>
          Translate(p) == if Touches(info.hostAddress, info.bytes, p)
                          then Granted(old(Translate(p)), access % 2 == 1, access / 2 == 1) else old(Translate(p))
    {
      hide WellFormed, NoStray, Agrees, Walkable, HardwareWalk, EditRange, Progress, Touches, LastAlias, RangeEnd,
        Prefix, Below48, Supplied, Supply, Funded, Visits;
      if access > 3 {
        return InvalidParameter, 0;
      }
      var flags := AccessFlags(access % 2 == 1, access / 2 == 1);
      status, done := UpdatePageTable(info.hostAddress, info.bytes, flags, false, true);
      Outcome(status, old(asked), info.hostAddress, info.bytes, done, old(tree).at.Keys);
      ghost var op := Operation.SetAccess(info.hostAddress / PAGE_SIZE, done, access % 2 == 1, access / 2 == 1);
      history := history + [op];
      Replayed(old(history), op);
      EditTranslates(old(mem), old(tree), old(flat), mem, tree, flat, root, op);
      if Prefix(done, 3) !in old(tree).at {
        AbsentFaults(old(mem), root, old(tree), old(flat), done);
      }
      if status == Success && Below48(info.hostAddress, info.bytes) {
        FinishedBelow48(info.hostAddress, info.bytes, done, op);
      }
    }

    /** A mapping made and given back: below 2^48 all its pages translate to themselves in between, when memory
        is `between`, and fault afterwards; every other page translates as it did, throughout.  Giving back
        never fails. */
    method MapThenUnmap(hostAddress: nat, bytes: nat) returns (mapped: Status, unmapped: Status, ghost between: Memory)
      requires Live() && Below48(hostAddress, bytes)
      modifies this`mem, this`tree, this`flat, this`history, this`asked
      ensures Live()
      ensures hostAddress > 0 ==>
        (mapped == Success <==> Funded(answers, old(asked), hostAddress, bytes, old(tree).at.Keys))
      ensures mapped == Success ==> unmapped == Success
      ensures mapped == Success ==> forall p: nat :: p < PAGE_LIMIT ==>
        && HardwareWalk(between, root, 0, p) ==
           (if Touches(hostAddress, bytes, p) then Page(p, false, false) else old(Translate(p)))
        && Translate(p) == if Touches(hostAddress, bytes, p) then Fault else old(Translate(p))
    {
      hide WellFormed, NoStray, Agrees, Walkable, HardwareWalk, Touches, Replay, RangeEnd, Supplied, Supply, Funded;
      RangeNotEmpty(hostAddress, bytes);
      var deviceAddress, info;
      ghost var done;
      unmapped := InvalidParameter;
      mapped, deviceAddress, info, done := Map(hostAddress, bytes);
      between := mem;
      if mapped == Success {
        unmapped, done := Unmap(info, true);
        if unmapped == OutOfResources {
          StopsInside(hostAddress, bytes, done);
        }
      }
    }

    /** PageTableDeInit: recursively tear down the table at page `t`, which `p` names in the tree that
        was in memory (`mem0`) when teardown began.  Every page it reads is still allocated; it releases
        exactly the pages of `FreeOrder`, in that order. */
    method PageTableDeInit(level: nat, t: nat, ghost mem0: Memory, ghost p: Path)
      requires WellFormed(mem0, root, tree)
      requires level < DEPTH && t != 0 ==> p in tree.at && tree.at[p] == t && p.Level() == level
      requires level < DEPTH && t != 0 ==> Intact(mem0, tree, mem, p)
      modifies this`mem, this`freed
      ensures freed == old(freed) + FreeOrder(mem0, level, t)
      ensures mem == old(mem) - Elements(FreeOrder(mem0, level, t))
      decreases DEPTH - level
    {
      hide WellFormed, Intact, FreeOrder, FreeEntry, FreeEntries, Elements;
      if level >= DEPTH || t == 0 {
        ReleaseNothing(mem0, level, t, mem);
        return;
      }
      StillIntact(mem0, root, tree, mem, p, 0);
      ReleaseEnds(mem0, level, t, mem);
      var i := 0;
      while i < TABLE_SIZE
        invariant 0 <= i <= TABLE_SIZE
        invariant freed == old(freed) + FreeEntries(mem0, level, t, i)
        invariant mem == old(mem) - Elements(FreeEntries(mem0, level, t, i))
      {
        StillIntact(mem0, root, tree, old(mem), p, i);
        ReleaseStep(mem0, level, t, i, old(mem));
        var e := mem[t][i];
        if e != ZERO {
          Present(mem0, root, tree, p);
          PageTableDeInit(level + 1, e.frame, mem0, Sub(p, i));
        }
        i := i + 1;
      }
      freed := freed + [t];
      mem := mem - {t};
    }

    /** Teardown of a live table: every table page is released once, children before parents, and
        nothing else is released, whatever the leaves point at. */
    method TearDown()
      requires TreeValid()
      modifies this`mem, this`freed
      ensures mem == map[]
      ensures freed == old(freed) + FreeOrder(old(mem), 0, root)
      ensures forall x :: x in FreeOrder(old(mem), 0, root) <==> x in old(mem)
      ensures forall x :: x in FreeOrder(old(mem), 0, root) <==> x == root || x in Given(answers, asked)
      ensures forall j, k :: 0 <= j < k < |FreeOrder(old(mem), 0, root)| ==>
        FreeOrder(old(mem), 0, root)[j] != FreeOrder(old(mem), 0, root)[k]
      ensures ChildrenFirst(tree, FreeOrder(old(mem), 0, root))
    {
      hide NoStray, FreeOrder, ChildrenFirst;
      TeardownExact(mem, root, tree);
      PageTableDeInit(0, root, mem, Path.Root);
    }
  }
}
