/** The SMMU stage-2 translation table as it lies in memory: 4 levels of 512 descriptors.

  A 64-bit descriptor is held as its two fields: the frame number (bits 63:12) and the set of
  positions of the one bits among bits 11:0.  Masking with ~0xFFF is `.frame`, or-ing flags in is a
  union and masking them out a difference.  Memory holds the pages the driver allocated for tables.
 */
module StageTwoTable {
  import opened Machine

  const DEPTH: nat := 4
  const TABLE_SIZE: nat := 512

  /** One more than the largest page number of a 48-bit address. */
  const PAGE_LIMIT: nat := 0x10_0000_0000

  const VALID: nat := 0
  const DESCRIPTOR: nat := 1
  const READ: nat := 6
  const WRITE: nat := 7
  const ACCESS_FLAG: nat := 10

  datatype Entry = Entry(frame: nat, attr: Bits) {
    predicate IsValid() { VALID in attr }
    predicate IsDescriptor() { DESCRIPTOR in attr }
    predicate IsAccessed() { ACCESS_FLAG in attr }
  }

  const ZERO := Entry(0, {})

  type Table = seq<Entry>

  type Memory = map<nat, Table>

  // ----- addresses ----------------------------------------------------------------------------

  /** The amount an address is shifted by to reach its index at a level, as a divisor. */
  function LevelSpan(level: nat): (n: nat)
    requires level < DEPTH
    ensures n > 0
  {
    if level == 0 then 0x80_0000_0000 else if level == 1 then 0x4000_0000 else if level == 2 then 0x20_0000 else 0x1000
  }

  /** The nine-bit index field of a 64-bit address at a level. */
  function TableIndex(address: nat, level: nat): (i: nat)
    requires level < DEPTH
    ensures i < TABLE_SIZE
  {
    address / LevelSpan(level) % TABLE_SIZE
  }

  /** The index field of a page number at a level. */
  function PageIndex(page: nat, level: nat): (i: nat)
    requires level < DEPTH
    ensures i < TABLE_SIZE
  {
    page / (LevelSpan(level) / PAGE_SIZE) % TABLE_SIZE
  }

  /** Addresses of one page have one index per level. */
  lemma IndexOfAddress(address: nat, level: nat)
    requires level < DEPTH
    ensures TableIndex(address, level) == PageIndex(address / PAGE_SIZE, level)
  {
    if level == 0 {
      assert address / 4096 / 0x800_0000 == address / 0x80_0000_0000;
    } else if level == 1 {
      assert address / 4096 / 0x4_0000 == address / 0x4000_0000;
    } else if level == 2 {
      assert address / 4096 / 0x200 == address / 0x20_0000;
    }
  }

  lemma DivideSum(q: int, r: int, c: int)
    requires c > 0
    ensures (q * c + r) / c == q + r / c
    ensures (q * c + r) % c == r % c
  {
    var k := (q * c + r) / c - q - r / c;
    assert k * c == r % c - (q * c + r) % c;
    assert k >= 1 ==> k * c >= c;
    assert k <= -1 ==> k * c <= -c;
  }

  lemma DropHighBits(high: int, low: int, span: int)
    requires span > 0
    ensures ((high * 512) * span + low) / span % 512 == low / span % 512
  {
    DivideSum(high * 512, low, span);
    DivideSum(high, low / span, 512);
  }

  /** Bits above 47 do not matter. */
  lemma IndexModulo(page: nat, level: nat)
    requires level < DEPTH
    ensures PageIndex(page, level) == PageIndex(page % PAGE_LIMIT, level)
  {
    var q, r := page / PAGE_LIMIT, page % PAGE_LIMIT;
    if level == 0 {
      DropHighBits(q, r, 0x800_0000);
    } else if level == 1 {
      DropHighBits(q * 0x200, r, 0x4_0000);
    } else if level == 2 {
      DropHighBits(q * 0x4_0000, r, 0x200);
    } else {
      DropHighBits(q * 0x800_0000, r, 1);
    }
  }

  lemma Recompose(p: nat)
    requires p < PAGE_LIMIT
    ensures p == PageIndex(p, 0) * 0x800_0000 + PageIndex(p, 1) * 0x4_0000 + PageIndex(p, 2) * 0x200 + PageIndex(p, 3)
  {
    assert p / 0x4_0000 / 512 == p / 0x800_0000;
    assert p / 0x200 / 512 == p / 0x4_0000;
  }

  // ----- tree shape ---------------------------------------------------------------------------

  /** A path names a table by the indices followed from the root; a `Tree` gives each path its page. */
  datatype Path = Root | Sub(up: Path, index: nat) {
    ghost function Level(): nat {
      if Root? then 0 else 1 + up.Level()
    }
  }

  /** The pages of the tables by path, and back. */
  datatype Tree = Tree(at: map<Path, nat>, name: map<nat, Path>)

  ghost function Extend(tree: Tree, p: Path, f: nat): Tree {
    Tree(tree.at[p := f], tree.name[f := p])
  }

  /** The table that the walk of a page visits at a level. */
  ghost function Prefix(page: nat, level: nat): (p: Path)
    requires level < DEPTH
    ensures p.Level() == level
  {
    if level == 0 then Root else Sub(Prefix(page, level - 1), PageIndex(page, level - 1))
  }

  lemma PrefixStart(page: nat)
    ensures Prefix(page, 0) == Root
  {
  }

  lemma PrefixStep(page: nat, level: nat)
    requires level < DEPTH - 1
    ensures Prefix(page, level + 1) == Sub(Prefix(page, level), PageIndex(page, level))
    ensures Prefix(page, level).Level() == level
  {
  }

  lemma LeafSlotInjective(p: nat, q: nat)
    requires p < PAGE_LIMIT && q < PAGE_LIMIT
    requires Prefix(p, 3) == Prefix(q, 3) && PageIndex(p, 3) == PageIndex(q, 3)
    ensures p == q
  {
    assert Prefix(p, 2) == Prefix(q, 2) && Prefix(p, 1) == Prefix(q, 1);
    Recompose(p);
    Recompose(q);
  }

  /** Paths are short, made of indices, and closed under dropping the last index. */
  ghost predicate PathsClosed(tree: Tree) {
    && Root in tree.at
    && (forall p: Path {:trigger p.up} :: p in tree.at && p.Sub? ==> p.up in tree.at && p.index < TABLE_SIZE)
    && (forall p: Path {:trigger p.Level()} :: p in tree.at ==> p.Level() < DEPTH)
  }

  /** A page has one name, so no page holds two tables: there is no sharing and no cycle. */
  ghost predicate NoSharing(tree: Tree) {
    forall p :: p in tree.at ==> tree.at[p] in tree.name && tree.name[tree.at[p]] == p
  }

  /** Every table of the tree is an allocated, nonzero page of 512 descriptors. */
  ghost predicate Allocated(mem: Memory, tree: Tree) {
    forall p :: p in tree.at ==> tree.at[p] in mem && 0 < tree.at[p] < PAGE_LIMIT && |mem[tree.at[p]]| == TABLE_SIZE
  }

  /** A descriptor above the leaf level is zero, or points at the table one index further down. */
  ghost predicate Linked(mem: Memory, tree: Tree, p: Path, i: nat)
    requires Allocated(mem, tree) && p in tree.at && i < TABLE_SIZE
  {
    if Sub(p, i) in tree.at then mem[tree.at[p]][i].frame == tree.at[Sub(p, i)] else mem[tree.at[p]][i] == ZERO
  }

  ghost predicate Links(mem: Memory, tree: Tree)
    requires Allocated(mem, tree)
  {
    forall p, i :: p in tree.at && p.Level() < DEPTH - 1 && 0 <= i < TABLE_SIZE ==> Linked(mem, tree, p, i)
  }

  ghost predicate WellFormed(mem: Memory, root: nat, tree: Tree) {
    PathsClosed(tree) && tree.at[Root] == root && NoSharing(tree) && Allocated(mem, tree) && Links(mem, tree)
  }

  /** Every allocated page is a table of the tree. */
  ghost predicate NoStray(mem: Memory, tree: Tree) {
    forall t :: t in mem ==> t in tree.name && tree.name[t] in tree.at && tree.at[tree.name[t]] == t
  }

  /** The leaf descriptor in slot `i` of the table that `p` names. */
  ghost function Leaf(mem: Memory, tree: Tree, p: Path, i: nat): Entry
    requires Allocated(mem, tree) && i < TABLE_SIZE
  {
    if p in tree.at then mem[tree.at[p]][i] else ZERO
  }

  ghost function LeafOf(mem: Memory, tree: Tree, page: nat): Entry
    requires Allocated(mem, tree)
  {
    Leaf(mem, tree, Prefix(page, 3), PageIndex(page, 3))
  }

  /** Every leaf descriptor of the first table is the same in the second. */
  ghost predicate SameLeaves(mem: Memory, tree: Tree, mem': Memory, tree': Tree) {
    && Allocated(mem, tree) && Allocated(mem', tree')
    && forall p: Path, i :: p.Level() == DEPTH - 1 && 0 <= i < TABLE_SIZE ==>
      Leaf(mem', tree', p, i) == Leaf(mem, tree, p, i)
  }

  lemma SameLeavesTransitive(a: Memory, s: Tree, b: Memory, t: Tree, c: Memory, u: Tree)
    requires SameLeaves(a, s, b, t) && SameLeaves(b, t, c, u)
    ensures SameLeaves(a, s, c, u)
  {
    forall p: Path, i | p.Level() == DEPTH - 1 && 0 <= i < TABLE_SIZE
      ensures Leaf(c, u, p, i) == Leaf(a, s, p, i)
    {
      assert Leaf(c, u, p, i) == Leaf(b, t, p, i);
    }
  }

  function Write(mem: Memory, t: nat, i: nat, e: Entry): Memory
    requires t in mem && i < |mem[t]|
  {
    mem[t := mem[t][i := e]]
  }

  function ZeroTable(): Table {
    seq(TABLE_SIZE, _ => ZERO)
  }

  /** A write changes one descriptor of one table. */
  lemma ReadBack(mem: Memory, root: nat, tree: Tree, p: Path, i: nat, e: Entry, q: Path, j: nat)
    requires WellFormed(mem, root, tree) && p in tree.at && i < TABLE_SIZE && q in tree.at && j < TABLE_SIZE
    ensures Allocated(Write(mem, tree.at[p], i, e), tree)
    ensures Write(mem, tree.at[p], i, e)[tree.at[q]][j] == if q == p && j == i then e else mem[tree.at[q]][j]
  {
  }

  /** Changing the attribute bits of a link keeps the tree and every leaf. */
  lemma RelabelLink(mem: Memory, root: nat, tree: Tree, p: Path, i: nat, e: Entry)
    requires WellFormed(mem, root, tree)
    requires p in tree.at && p.Level() < DEPTH - 1 && i < TABLE_SIZE
    requires Sub(p, i) in tree.at && e.frame == mem[tree.at[p]][i].frame
    ensures WellFormed(Write(mem, tree.at[p], i, e), root, tree)
    ensures SameLeaves(mem, tree, Write(mem, tree.at[p], i, e), tree)
  {
    var mem': Memory := Write(mem, tree.at[p], i, e);
    ReadBack(mem, root, tree, p, i, e, p, i);
    forall q: Path, j | q in tree.at && 0 <= j < TABLE_SIZE
      ensures q.Level() < DEPTH - 1 ==> Linked(mem', tree, q, j)
      ensures q != p ==> mem'[tree.at[q]][j] == mem[tree.at[q]][j]
    {
      ReadBack(mem, root, tree, p, i, e, q, j);
      assert q.Level() < DEPTH - 1 ==> Linked(mem, tree, q, j);
    }
  }

  /** Writing a leaf descriptor changes that leaf and no other. */
  lemma WriteLeaf(mem: Memory, root: nat, tree: Tree, p: Path, i: nat, e: Entry)
    requires WellFormed(mem, root, tree)
    requires p in tree.at && p.Level() == DEPTH - 1 && i < TABLE_SIZE
    ensures WellFormed(Write(mem, tree.at[p], i, e), root, tree)
    ensures forall q: Path, j :: q.Level() == DEPTH - 1 && 0 <= j < TABLE_SIZE ==>
      Leaf(Write(mem, tree.at[p], i, e), tree, q, j) == if q == p && j == i then e else Leaf(mem, tree, q, j)
  {
    var mem': Memory := Write(mem, tree.at[p], i, e);
    ReadBack(mem, root, tree, p, i, e, p, i);
    forall q: Path, j | q in tree.at && 0 <= j < TABLE_SIZE
      ensures q.Level() < DEPTH - 1 ==> Linked(mem', tree, q, j)
      ensures mem'[tree.at[q]][j] == if q == p && j == i then e else mem[tree.at[q]][j]
    {
      ReadBack(mem, root, tree, p, i, e, q, j);
      assert q.Level() < DEPTH - 1 ==> Linked(mem, tree, q, j);
    }
  }

  function Hang(mem: Memory, t: nat, i: nat, f: nat): Memory
    requires t in mem && i < |mem[t]|
  {
    Write(mem, t, i, Entry(f, {}))[f := ZeroTable()]
  }

  /** A fresh page can be hung on this descriptor. */
  ghost predicate CanHang(mem: Memory, root: nat, tree: Tree, p: Path, i: nat, f: nat) {
    && WellFormed(mem, root, tree)
    && p in tree.at && p.Level() < DEPTH - 1 && i < TABLE_SIZE && mem[tree.at[p]][i] == ZERO
    && f !in mem && 0 < f < PAGE_LIMIT
  }

  lemma HangShape(mem: Memory, root: nat, tree: Tree, p: Path, i: nat, f: nat)
    requires CanHang(mem, root, tree, p, i, f)
    ensures Sub(p, i) !in tree.at
    ensures PathsClosed(Extend(tree, Sub(p, i), f)) && NoSharing(Extend(tree, Sub(p, i), f))
    ensures Allocated(Hang(mem, tree.at[p], i, f), Extend(tree, Sub(p, i), f))
  {
    assert Linked(mem, tree, p, i);
  }

  lemma ReadBackHang(mem: Memory, root: nat, tree: Tree, p: Path, i: nat, f: nat, q: Path, j: nat)
    requires CanHang(mem, root, tree, p, i, f)
    requires q in Extend(tree, Sub(p, i), f).at && j < TABLE_SIZE
    ensures Allocated(Hang(mem, tree.at[p], i, f), Extend(tree, Sub(p, i), f))
    ensures Hang(mem, tree.at[p], i, f)[Extend(tree, Sub(p, i), f).at[q]][j] ==
      if q == Sub(p, i) then ZERO else if q == p && j == i then Entry(f, {}) else mem[tree.at[q]][j]
  {
    HangShape(mem, root, tree, p, i, f);
    if q != Sub(p, i) {
      ReadBack(mem, root, tree, p, i, Entry(f, {}), q, j);
    }
  }

  lemma HangLink(mem: Memory, root: nat, tree: Tree, p: Path, i: nat, f: nat, q: Path, j: nat)
    requires CanHang(mem, root, tree, p, i, f)
    requires Allocated(Hang(mem, tree.at[p], i, f), Extend(tree, Sub(p, i), f))
    requires q in Extend(tree, Sub(p, i), f).at && q.Level() < DEPTH - 1 && j < TABLE_SIZE
    ensures Linked(Hang(mem, tree.at[p], i, f), Extend(tree, Sub(p, i), f), q, j)
  {
    HangShape(mem, root, tree, p, i, f);
    ReadBackHang(mem, root, tree, p, i, f, q, j);
    assert Sub(Sub(p, i), j).up == Sub(p, i);
    if q != Sub(p, i) {
      assert Linked(mem, tree, q, j);
    }
  }

  /** Hanging a fresh zeroed table on an empty link keeps the tree and every leaf. */
  lemma HangTable(mem: Memory, root: nat, tree: Tree, p: Path, i: nat, f: nat)
    requires CanHang(mem, root, tree, p, i, f)
    ensures WellFormed(Hang(mem, tree.at[p], i, f), root, Extend(tree, Sub(p, i), f))
    ensures SameLeaves(mem, tree, Hang(mem, tree.at[p], i, f), Extend(tree, Sub(p, i), f))
    ensures Sub(p, i) !in tree.at
  {
    var mem': Memory := Hang(mem, tree.at[p], i, f);
    var tree' := Extend(tree, Sub(p, i), f);
    HangShape(mem, root, tree, p, i, f);
    forall q: Path, j | q in tree'.at && q.Level() < DEPTH - 1 && 0 <= j < TABLE_SIZE
      ensures Linked(mem', tree', q, j)
    {
      HangLink(mem, root, tree, p, i, f, q, j);
    }
    forall q: Path, j | q.Level() == DEPTH - 1 && 0 <= j < TABLE_SIZE
      ensures Leaf(mem', tree', q, j) == Leaf(mem, tree, q, j)
    {
      if q in tree'.at {
        ReadBackHang(mem, root, tree, p, i, f, q, j);
      }
    }
  }

  // ----- the two walks ------------------------------------------------------------------------

  /** The driver's own descent: follow every nonzero descriptor, whatever its valid bit. */
  ghost function SoftwareWalk(mem: Memory, t: nat, level: nat, page: nat): Entry
    requires level < DEPTH
    decreases DEPTH - level
  {
    if t !in mem || |mem[t]| != TABLE_SIZE then ZERO
    else
      var e := mem[t][PageIndex(page, level)];
      if level == DEPTH - 1 || e == ZERO then e else SoftwareWalk(mem, e.frame, level + 1, page)
  }

  datatype Translation =
    | Fault | AccessFault | Block(level: nat, entry: Entry) | Page(frame: nat, read: bool, write: bool)

  /** The hardware walk of section D8.3.1 of the Arm Architecture Reference Manual: bits 1:0 are 0b11 for a
      table or a page; 0b01 is a block at levels 1 and 2 and faults elsewhere; the address is in bits 47:12.
      In a page descriptor bit 10 is the access flag, and bits 6 and 7 permit reading and writing. */
  ghost function HardwareWalk(mem: Memory, t: nat, level: nat, page: nat): Translation
    requires level < DEPTH
    decreases DEPTH - level
  {
    if t !in mem || |mem[t]| != TABLE_SIZE then Fault
    else
      var e := mem[t][PageIndex(page, level)];
      if 0 !in e.attr then Fault
      else if 1 !in e.attr then (if level == 1 || level == 2 then Block(level, e) else Fault)
      else if level < DEPTH - 1 then HardwareWalk(mem, e.frame % PAGE_LIMIT, level + 1, page)
      else if 10 !in e.attr then AccessFault
      else Page(e.frame % PAGE_LIMIT, 6 in e.attr, 7 in e.attr)
  }

  ghost function LeafTranslation(leaf: Entry): Translation {
    if leaf.IsValid() then Page(leaf.frame % PAGE_LIMIT, READ in leaf.attr, WRITE in leaf.attr) else Fault
  }

  lemma {:induction false} AbsentBelow(tree: Tree, page: nat, k: nat, n: nat)
    requires PathsClosed(tree) && k <= n < DEPTH && Prefix(page, k) !in tree.at
    ensures Prefix(page, n) !in tree.at
    decreases n - k
  {
    if k < n {
      AbsentBelow(tree, page, k, n - 1);
    }
  }

  /** On a well-formed tree the descent reads the leaf that the tree names. */
  lemma {:induction false} SoftwareWalkReadsLeaf(mem: Memory, root: nat, tree: Tree, page: nat, level: nat)
    requires WellFormed(mem, root, tree)
    requires level < DEPTH && Prefix(page, level) in tree.at
    ensures SoftwareWalk(mem, tree.at[Prefix(page, level)], level, page) == LeafOf(mem, tree, page)
    decreases DEPTH - level
  {
    if level < DEPTH - 1 {
      assert Linked(mem, tree, Prefix(page, level), PageIndex(page, level));
      if Prefix(page, level + 1) in tree.at {
        SoftwareWalkReadsLeaf(mem, root, tree, page, level + 1);
      } else {
        AbsentBelow(tree, page, level + 1, 3);
      }
    }
  }

  // ----- what the hardware needs --------------------------------------------------------------

  /** A valid descriptor is a table or page descriptor, a page carries the access flag, and the table
      that holds the descriptor is itself reached by a valid descriptor. */
  ghost predicate Sound(mem: Memory, tree: Tree, p: Path, i: nat)
    requires PathsClosed(tree) && Allocated(mem, tree) && p in tree.at && i < TABLE_SIZE
  {
    mem[tree.at[p]][i].IsValid() ==>
      && mem[tree.at[p]][i].IsDescriptor()
      && (p.Level() == DEPTH - 1 ==> mem[tree.at[p]][i].IsAccessed())
      && (p.Sub? ==> mem[tree.at[p.up]][p.index].IsValid())
  }

  ghost predicate Walkable(mem: Memory, tree: Tree) {
    && PathsClosed(tree) && Allocated(mem, tree)
    && forall p, i :: p in tree.at && 0 <= i < TABLE_SIZE ==> Sound(mem, tree, p, i)
  }

  /** A write keeps the table walkable when it sets a valid bit only under a valid parent and clears
      none above the leaves. */
  lemma WriteWalkable(mem: Memory, root: nat, tree: Tree, p: Path, i: nat, e: Entry)
    requires WellFormed(mem, root, tree) && Walkable(mem, tree)
    requires p in tree.at && i < TABLE_SIZE
    requires e.IsValid() ==> e.IsDescriptor() && (p.Level() == DEPTH - 1 ==> e.IsAccessed())
    requires e.IsValid() && p.Sub? ==> mem[tree.at[p.up]][p.index].IsValid()
    requires p.Level() < DEPTH - 1 && mem[tree.at[p]][i].IsValid() ==> e.IsValid()
    ensures Walkable(Write(mem, tree.at[p], i, e), tree)
  {
    ReadBack(mem, root, tree, p, i, e, p, i);
    forall q, j | q in tree.at && 0 <= j < TABLE_SIZE
      ensures Sound(Write(mem, tree.at[p], i, e), tree, q, j)
    {
      assert Sound(mem, tree, q, j);
      ReadBack(mem, root, tree, p, i, e, q, j);
      if q.Sub? {
        ReadBack(mem, root, tree, p, i, e, q.up, q.index);
      }
    }
  }

  lemma HangWalkable(mem: Memory, root: nat, tree: Tree, p: Path, i: nat, f: nat)
    requires CanHang(mem, root, tree, p, i, f) && Walkable(mem, tree)
    ensures Walkable(Hang(mem, tree.at[p], i, f), Extend(tree, Sub(p, i), f))
  {
    HangShape(mem, root, tree, p, i, f);
    forall q, j | q in Extend(tree, Sub(p, i), f).at && 0 <= j < TABLE_SIZE
      ensures Sound(Hang(mem, tree.at[p], i, f), Extend(tree, Sub(p, i), f), q, j)
    {
      ReadBackHang(mem, root, tree, p, i, f, q, j);
      if q != Sub(p, i) {
        assert Sound(mem, tree, q, j);
        if q.Sub? {
          ReadBackHang(mem, root, tree, p, i, f, q.up, q.index);
        }
      }
    }
  }

  ghost predicate SlotValid(mem: Memory, tree: Tree, p: Path, i: nat) {
    p in tree.at && tree.at[p] in mem && i < |mem[tree.at[p]]| && mem[tree.at[p]][i].IsValid()
  }

  /** The table is the root, or is reached by a valid descriptor. */
  ghost predicate ReachedValid(mem: Memory, tree: Tree, p: Path) {
    p.Sub? ==> SlotValid(mem, tree, p.up, p.index)
  }

  lemma Present(mem: Memory, root: nat, tree: Tree, p: Path)
    requires WellFormed(mem, root, tree) && p in tree.at
    ensures tree.at[p] in mem && |mem[tree.at[p]]| == TABLE_SIZE && Allocated(mem, tree)
    ensures forall i :: 0 <= i < TABLE_SIZE && p.Level() < DEPTH - 1 ==>
      if Sub(p, i) in tree.at then mem[tree.at[p]][i].frame == tree.at[Sub(p, i)] else mem[tree.at[p]][i] == ZERO
  {
    forall i | 0 <= i < TABLE_SIZE && p.Level() < DEPTH - 1
      ensures if Sub(p, i) in tree.at then mem[tree.at[p]][i].frame == tree.at[Sub(p, i)]
              else mem[tree.at[p]][i] == ZERO
    {
      assert Linked(mem, tree, p, i);
    }
  }

  /** A fresh table is absorbed: the tree, every leaf and walkability survive. */
  lemma HangKeepsAll(mem: Memory, root: nat, tree: Tree, p: Path, i: nat, f: nat)
    requires CanHang(mem, root, tree, p, i, f) && NoStray(mem, tree)
    ensures WellFormed(Hang(mem, tree.at[p], i, f), root, Extend(tree, Sub(p, i), f))
    ensures NoStray(Hang(mem, tree.at[p], i, f), Extend(tree, Sub(p, i), f))
    ensures SameLeaves(mem, tree, Hang(mem, tree.at[p], i, f), Extend(tree, Sub(p, i), f))
    ensures Sub(p, i) !in tree.at
    ensures Walkable(mem, tree) ==> Walkable(Hang(mem, tree.at[p], i, f), Extend(tree, Sub(p, i), f))
    ensures ReachedValid(mem, tree, p) ==> ReachedValid(Hang(mem, tree.at[p], i, f), Extend(tree, Sub(p, i), f), p)
  {
    HangTable(mem, root, tree, p, i, f);
    if Walkable(mem, tree) {
      HangWalkable(mem, root, tree, p, i, f);
    }
    if p.Sub? {
      ReadBackHang(mem, root, tree, p, i, f, p.up, p.index);
    }
  }

  /** A valid descriptor on a page's walk has valid table descriptors all the way up. */
  lemma {:induction false} AncestorsValid(mem: Memory, root: nat, tree: Tree, page: nat, n: nat, k: nat)
    requires WellFormed(mem, root, tree) && Walkable(mem, tree)
    requires k <= n < DEPTH && Prefix(page, n) in tree.at && mem[tree.at[Prefix(page, n)]][PageIndex(page, n)].IsValid()
    ensures Prefix(page, k) in tree.at
    ensures mem[tree.at[Prefix(page, k)]][PageIndex(page, k)].IsValid()
    ensures mem[tree.at[Prefix(page, k)]][PageIndex(page, k)].IsDescriptor()
    decreases n - k
  {
    assert Sound(mem, tree, Prefix(page, n), PageIndex(page, n));
    if k < n {
      AncestorsValid(mem, root, tree, page, n - 1, k);
    }
  }

  /** The descriptor at an inner level of the descent to a page names the table of the next level, if any. */
  lemma NextTable(mem: Memory, root: nat, tree: Tree, page: nat, level: nat)
    requires WellFormed(mem, root, tree) && level < DEPTH - 1 && Prefix(page, level) in tree.at
    ensures var e := mem[tree.at[Prefix(page, level)]][PageIndex(page, level)];
      if Prefix(page, level + 1) in tree.at then e.frame % PAGE_LIMIT == tree.at[Prefix(page, level + 1)]
      else e == ZERO
  {
    assert Linked(mem, tree, Prefix(page, level), PageIndex(page, level));
  }

  /** The hardware walk succeeds exactly when the leaf is valid, and returns that leaf's page. */
  lemma {:induction false} HardwareWalkReadsLeaf(mem: Memory, root: nat, tree: Tree, page: nat, level: nat)
    requires WellFormed(mem, root, tree) && Walkable(mem, tree)
    requires level < DEPTH && Prefix(page, level) in tree.at
    ensures HardwareWalk(mem, tree.at[Prefix(page, level)], level, page) == LeafTranslation(LeafOf(mem, tree, page))
    decreases DEPTH - level
  {
    hide NoSharing, Links;
    assert Sound(mem, tree, Prefix(page, level), PageIndex(page, level));
    if level < DEPTH - 1 {
      NextTable(mem, root, tree, page, level);
      if LeafOf(mem, tree, page).IsValid() {
        AncestorsValid(mem, root, tree, page, 3, level);
      }
      if mem[tree.at[Prefix(page, level)]][PageIndex(page, level)].IsValid() {
        HardwareWalkReadsLeaf(mem, root, tree, page, level + 1);
      }
    }
  }
}
