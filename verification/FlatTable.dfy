/** What the translation table means: a flat map from page number to leaf descriptor, edited one
    page at a time, and the meaning of any run of map, unmap and set-attribute operations on it. */
module FlatTable {
  import opened Machine
  import opened StageTwoTable

  type Flat = map<nat, Entry>

  /** One call's effect on a descriptor: the flag bits and the two mode booleans. */
  datatype Change = Change(flags: Bits, valid: bool, accessOnly: bool)

  const MAP := Change({ACCESS_FLAG, DESCRIPTOR}, true, false)
  const UNMAP := Change({}, false, false)

  function AccessFlags(read: bool, write: bool): Bits {
    (if read then {READ} else {}) + (if write then {WRITE} else {})
  }

  function WithFlags(e: Entry, c: Change): Entry {
    if c.accessOnly && c.flags == {} then e.(attr := e.attr - {READ, WRITE}) else e.(attr := e.attr + c.flags)
  }

  /** The descriptor of a table on the way down. */
  function NewLink(e: Entry, c: Change): Entry {
    WithFlags(if c.valid && !c.accessOnly then e.(attr := e.attr + {VALID}) else e, c)
  }

  /** The leaf descriptor. */
  function NewLeaf(e: Entry, frame: nat, c: Change): Entry {
    WithFlags(
      if c.accessOnly then e else if c.valid then Entry(frame, {VALID}) else e.(attr := e.attr - {VALID}),
      c)
  }

  function Look(flat: Flat, page: nat): Entry {
    if page in flat then flat[page] else ZERO
  }

  /** The change applied to the leaf that a (52-bit) page number selects. */
  function Edit(flat: Flat, page: nat, c: Change): Flat {
    flat[page % PAGE_LIMIT := NewLeaf(Look(flat, page % PAGE_LIMIT), page, c)]
  }

  function EditRange(flat: Flat, first: nat, end: nat, c: Change): Flat
    decreases end
  {
    if end <= first then flat else Edit(EditRange(flat, first, end - 1, c), end - 1, c)
  }

  lemma EditNothing(flat: Flat, first: nat, c: Change)
    ensures EditRange(flat, first, first, c) == flat
  {
  }

  lemma EditStep(flat: Flat, first: nat, end: nat, c: Change)
    requires first <= end
    ensures EditRange(flat, first, end + 1, c) == Edit(EditRange(flat, first, end, c), end, c)
  {
  }

  // ----- ranges -------------------------------------------------------------------------------

  /** The last page number below `end` that selects the leaf of `p` (negative if there is none): a leaf
      is selected by the low 36 bits of a page number only. */
  function LastAlias(end: nat, p: nat): int {
    end - 1 - (end - 1 - p) % PAGE_LIMIT
  }

  lemma LastAliasMeaning(end: nat, p: nat, q: nat)
    requires p < PAGE_LIMIT
    ensures LastAlias(end, p) < end && LastAlias(end, p) % PAGE_LIMIT == p
    ensures q < end && q % PAGE_LIMIT == p ==> q <= LastAlias(end, p)
  {
    var k := (end - 1 - p) / PAGE_LIMIT;
    assert LastAlias(end, p) == p + k * PAGE_LIMIT;
    DivideSum(k, p, PAGE_LIMIT);
    if q < end && q % PAGE_LIMIT == p {
      assert q == p + q / PAGE_LIMIT * PAGE_LIMIT;
    }
  }

  lemma LastAliasStep(end: nat, p: nat)
    requires p < PAGE_LIMIT && end > 0
    ensures LastAlias(end, p) == if (end - 1) % PAGE_LIMIT == p then end - 1 else LastAlias(end - 1, p)
  {
  }

  lemma NewLeafTwice(e: Entry, q: nat, r: nat, c: Change)
    ensures NewLeaf(NewLeaf(e, q, c), r, c) == NewLeaf(e, r, c)
  {
    assert (e.attr - {VALID} + c.flags) - {VALID} + c.flags == e.attr - {VALID} + c.flags;
  }

  /** A range edit of any length changes the leaves that its pages select, as the last such page would
      alone, and no other leaf. */
  lemma {:induction false} EditRangeEffect(flat: Flat, first: nat, end: nat, c: Change, p: nat)
    requires p < PAGE_LIMIT
    ensures Look(EditRange(flat, first, end, c), p) ==
      if first <= LastAlias(end, p) then NewLeaf(Look(flat, p), LastAlias(end, p), c) else Look(flat, p)
    decreases end
  {
    LastAliasMeaning(end, p, 0);
    if first < end {
      hide NewLeaf, LastAlias;
      EditRangeEffect(flat, first, end - 1, c, p);
      LastAliasStep(end, p);
      if first <= LastAlias(end - 1, p) {
        NewLeafTwice(Look(flat, p), LastAlias(end - 1, p), end - 1, c);
      }
    }
  }

  /** A range reaches each of its pages at that page's own leaf, and no other leaf, if and only if it ends
      at or below 2^48. */
  lemma NoAliasIff(first: nat, end: nat)
    requires first < end
    ensures (forall p :: 0 <= p < PAGE_LIMIT && first <= LastAlias(end, p) ==>
      LastAlias(end, p) == p) <==> end <= PAGE_LIMIT
    ensures end <= PAGE_LIMIT ==> forall p :: 0 <= p < PAGE_LIMIT ==> (first <= LastAlias(end, p) <==> first <= p < end)
  {
    if end > PAGE_LIMIT {
      var p := (end - 1) % PAGE_LIMIT;
      LastAliasStep(end, p);
      assert first <= LastAlias(end, p) && LastAlias(end, p) != p;
    }
  }

  /** Mapping the page at 2^48 writes the leaf of page 0. */
  lemma AliasExample()
    ensures Look(EditRange(map[], PAGE_LIMIT, PAGE_LIMIT + 1, MAP), 0) ==
      Entry(PAGE_LIMIT, {VALID, ACCESS_FLAG, DESCRIPTOR})
  {
    EditRangeEffect(map[], PAGE_LIMIT, PAGE_LIMIT + 1, MAP, 0);
    assert LastAlias(PAGE_LIMIT + 1, 0) == PAGE_LIMIT;
    assert {VALID} + MAP.flags == {VALID, ACCESS_FLAG, DESCRIPTOR};
  }

  // ----- runs ---------------------------------------------------------------------------------

  /** A protocol call, by the page numbers it reached: [first, end). */
  datatype Operation =
    | Map(first: nat, end: nat)
    | Unmap(first: nat, end: nat)
    | SetAccess(first: nat, end: nat, read: bool, write: bool)
  {
    /** Some page of the range selects the leaf of `p`. */
    ghost predicate Covers(p: nat) { first <= LastAlias(end, p) }

    /** The page number written there by a map. */
    ghost function Target(p: nat): nat
      requires Covers(p)
    {
      LastAlias(end, p)
    }

    ghost function Effect(): Change {
      match this
      case Map(_, _) => MAP
      case Unmap(_, _) => UNMAP
      case SetAccess(_, _, read, write) => Change(AccessFlags(read, write), false, true)
    }
  }

  ghost function Replay(ops: seq<Operation>): Flat {
    if |ops| == 0 then map[]
    else
      var last := ops[|ops| - 1];
      EditRange(Replay(ops[..|ops| - 1]), last.first, last.end, last.Effect())
  }

  /** Operation `k` is the last map that covers the page. */
  ghost predicate LastMapAt(ops: seq<Operation>, p: nat, k: int) {
    && 0 <= k < |ops| && ops[k].Map? && ops[k].Covers(p)
    && forall j :: k < j < |ops| && ops[j].Map? ==> !ops[j].Covers(p)
  }

  /** ... and no later unmap covers the page. */
  ghost predicate MappedAt(ops: seq<Operation>, p: nat, k: int) {
    LastMapAt(ops, p, k) && forall j :: k < j < |ops| && ops[j].Unmap? ==> !ops[j].Covers(p)
  }

  ghost predicate Mapped(ops: seq<Operation>, p: nat) {
    exists k :: MappedAt(ops, p, k)
  }

  /** A map, or a set-attribute with no access at all, takes every permission away. */
  ghost predicate Revokes(op: Operation, p: nat) {
    op.Covers(p) && (op.Map? || (op.SetAccess? && !op.read && !op.write))
  }

  ghost predicate Grants(op: Operation, p: nat, write: bool) {
    op.Covers(p) && op.SetAccess? && (if write then op.write else op.read)
  }

  ghost predicate PermittedAt(ops: seq<Operation>, p: nat, write: bool, k: int) {
    && 0 <= k < |ops| && Grants(ops[k], p, write)
    && forall j :: k < j < |ops| ==> !Revokes(ops[j], p)
  }

  /** Some set-attribute grants the permission and nothing later revokes it. */
  ghost predicate Permitted(ops: seq<Operation>, p: nat, write: bool) {
    exists k :: PermittedAt(ops, p, write, k)
  }

  lemma MappedStep(ops: seq<Operation>, p: nat)
    requires |ops| > 0
    ensures var last := ops[|ops| - 1];
      Mapped(ops, p) == if last.Map? && last.Covers(p) then true
                        else if last.Unmap? && last.Covers(p) then false else Mapped(ops[..|ops| - 1], p)
  {
    var n := |ops| - 1;
    var init := ops[..n];
    if MappedAt(ops, p, n) {
    } else if Mapped(init, p) && !(ops[n].Unmap? && ops[n].Covers(p)) {
      var k :| MappedAt(init, p, k);
      assert MappedAt(ops, p, k);
    } else if Mapped(ops, p) {
      var k :| MappedAt(ops, p, k);
      assert MappedAt(init, p, k);
    }
  }

  lemma PermittedStep(ops: seq<Operation>, p: nat, write: bool)
    requires |ops| > 0
    ensures var last := ops[|ops| - 1];
      Permitted(ops, p, write) == if Grants(last, p, write) then true
                                  else if Revokes(last, p) then false else Permitted(ops[..|ops| - 1], p, write)
  {
    var n := |ops| - 1;
    var init := ops[..n];
    if PermittedAt(ops, p, write, n) {
    } else if Permitted(init, p, write) && !Revokes(ops[n], p) {
      var k :| PermittedAt(init, p, write, k);
      assert PermittedAt(ops, p, write, k);
    } else if Permitted(ops, p, write) {
      var k :| PermittedAt(ops, p, write, k);
      assert PermittedAt(init, p, write, k);
    }
  }

  /** What a leaf descriptor records about the whole run so far. */
  ghost predicate Records(e: Entry, ops: seq<Operation>, p: nat) {
    && (e.IsValid() <==> Mapped(ops, p))
    && (forall k :: LastMapAt(ops, p, k) ==> e.frame == ops[k].Target(p))
    && (READ in e.attr <==> Permitted(ops, p, false))
    && (WRITE in e.attr <==> Permitted(ops, p, true))
    && (e.IsValid() ==> e.IsDescriptor() && e.IsAccessed())
  }

  /** How one operation changes what the leaf of a covered page records. */
  ghost predicate Became(e: Entry, e': Entry, op: Operation, p: nat)
    requires op.Covers(p)
  {
    && (e'.IsValid() <==> (if op.Map? then true else if op.Unmap? then false else e.IsValid()))
    && e'.frame == (if op.Map? then op.Target(p) else e.frame)
    && (READ in e'.attr <==> Grants(op, p, false) || (READ in e.attr && !Revokes(op, p)))
    && (WRITE in e'.attr <==> Grants(op, p, true) || (WRITE in e.attr && !Revokes(op, p)))
    && (op.Map? || (e.IsDescriptor() && e.IsAccessed()) ==> e'.IsDescriptor() && e'.IsAccessed())
  }

  lemma NewLeafBecomes(e: Entry, op: Operation, p: nat)
    requires op.Covers(p)
    ensures Became(e, NewLeaf(e, op.Target(p), op.Effect()), op, p)
  {
    if op.SetAccess? {
      var f := AccessFlags(op.read, op.write);
      assert (READ in f <==> op.read) && (WRITE in f <==> op.write);
    }
  }

  lemma RecordsStep(e: Entry, e': Entry, ops: seq<Operation>, p: nat)
    requires |ops| > 0 && Records(e, ops[..|ops| - 1], p)
    requires if ops[|ops| - 1].Covers(p) then Became(e, e', ops[|ops| - 1], p) else e' == e
    ensures Records(e', ops, p)
  {
    MappedStep(ops, p);
    PermittedStep(ops, p, false);
    PermittedStep(ops, p, true);
    forall k | LastMapAt(ops, p, k) ensures e'.frame == ops[k].Target(p) {
      assert k < |ops| - 1 ==> LastMapAt(ops[..|ops| - 1], p, k);
    }
  }

  /** After any run, a page's leaf is valid exactly when a map of it has not been undone, holds the page
      number that the last map of it wrote, and carries exactly the permissions granted and not revoked
      since. */
  lemma {:induction false} ReplayMeaning(ops: seq<Operation>, p: nat)
    requires p < PAGE_LIMIT
    ensures Records(Look(Replay(ops), p), ops, p)
    decreases |ops|
  {
    if |ops| == 0 {
    } else {
      var init, last := ops[..|ops| - 1], ops[|ops| - 1];
      var e := Look(Replay(init), p);
      ReplayMeaning(init, p);
      EditRangeEffect(Replay(init), last.first, last.end, last.Effect(), p);
      if last.Covers(p) {
        NewLeafBecomes(e, last, p);
      }
      RecordsStep(e, Look(Replay(ops), p), ops, p);
    }
  }

  /** Set-attribute only adds permissions (unless it asks for none), so it leaves exactly the requested
      access if and only if it asks for none or the page had nothing beyond the request. */
  lemma SetAccessExactIff(e: Entry, frame: nat, read: bool, write: bool)
    ensures var r := NewLeaf(e, frame, Change(AccessFlags(read, write), false, true));
      && r.frame == e.frame && (r.IsValid() <==> e.IsValid())
      && (((READ in r.attr) == read && (WRITE in r.attr) == write) <==>
          ((!read && !write) || ((READ in e.attr ==> read) && (WRITE in e.attr ==> write))))
  {
    NewLeafBecomes(e, SetAccess(0, frame + 1, read, write), frame);
  }

  /** Asking for write access to a readable page leaves it readable. */
  lemma ReadStaysExample(frame: nat)
    ensures NewLeaf(Entry(frame, {VALID, READ}), frame, Change(AccessFlags(false, true), false, true))
      == Entry(frame, {VALID, READ, WRITE})
  {
    assert AccessFlags(false, true) == {WRITE};
  }
}
