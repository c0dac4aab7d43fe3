/** The order in which the recursive teardown releases the pages of a translation table. */
module Teardown {
  import opened StageTwoTable

  ghost function FreeEntry(mem: Memory, level: nat, t: nat, i: nat): seq<nat>
    requires level < DEPTH && t in mem && i < |mem[t]| == TABLE_SIZE
    decreases DEPTH - level, i
  {
    if mem[t][i] == ZERO then [] else FreeOrder(mem, level + 1, mem[t][i].frame)
  }

  /** The part of it due to the first `n` descriptors. */
  ghost function FreeEntries(mem: Memory, level: nat, t: nat, n: nat): seq<nat>
    requires level < DEPTH && t in mem && n <= |mem[t]| == TABLE_SIZE
    decreases DEPTH - level, n
  {
    if n == 0 then [] else FreeEntries(mem, level, t, n - 1) + FreeEntry(mem, level, t, n - 1)
  }

  /** The pages released by tearing down the table at `t`: everything under it, then itself.
      Descriptors of a level-3 table are followed to level 4, where the recursion returns at once. */
  ghost function FreeOrder(mem: Memory, level: nat, t: nat): seq<nat>
    decreases DEPTH - level, TABLE_SIZE + 1
  {
    if level >= DEPTH || t == 0 || t !in mem || |mem[t]| != TABLE_SIZE then []
    else FreeEntries(mem, level, t, TABLE_SIZE) + [t]
  }

  // ----- ancestry -----------------------------------------------------------------------------

  ghost predicate Above(p: Path, q: Path) {
    p == q || (q.Sub? && Above(p, q.up))
  }

  lemma {:induction false} AboveLevel(p: Path, q: Path)
    requires Above(p, q)
    ensures p.Level() <= q.Level()
    ensures p.Level() == q.Level() ==> p == q
    decreases q
  {
    if p != q {
      AboveLevel(p, q.up);
    }
  }

  lemma {:induction false} AboveTransitive(p: Path, q: Path, r: Path)
    requires Above(p, q) && Above(q, r)
    ensures Above(p, r)
    decreases r
  {
    if q != r {
      AboveTransitive(p, q, r.up);
    }
  }

  lemma {:induction false} AncestorUnique(p: Path, q: Path, r: Path)
    requires Above(p, r) && Above(q, r) && p.Level() == q.Level()
    ensures p == q
    decreases r
  {
    if p == r {
      AboveLevel(q, r);
    } else if q == r {
      AboveLevel(p, r);
    } else {
      AncestorUnique(p, q, r.up);
    }
  }

  /** The child of `p` on the way to a path strictly below it. */
  lemma {:induction false} NextStep(tree: Tree, p: Path, q: Path) returns (i: nat)
    requires PathsClosed(tree) && q in tree.at && Above(p, q) && p != q
    ensures i < TABLE_SIZE && Sub(p, i) in tree.at && Above(Sub(p, i), q)
    decreases q
  {
    assert q.up in tree.at;
    if q.up == p {
      i := q.index;
    } else {
      i := NextStep(tree, p, q.up);
    }
  }

  /** Page `x` holds a table at or below `p`. */
  ghost predicate Under(tree: Tree, p: Path, x: nat) {
    x in tree.name && tree.name[x] in tree.at && tree.at[tree.name[x]] == x && Above(p, tree.name[x])
  }

  // ----- exactly the tables below, each once, children first ----------------------------------

  lemma {:induction false} NothingBelowLeaves(mem: Memory, t: nat, n: nat)
    requires t in mem && n <= |mem[t]| == TABLE_SIZE
    ensures FreeEntries(mem, DEPTH - 1, t, n) == []
    decreases n
  {
    if n > 0 {
      NothingBelowLeaves(mem, t, n - 1);
      assert FreeEntry(mem, DEPTH - 1, t, n - 1) == [];
    }
  }

  lemma {:induction false} EntryUnder(mem: Memory, root: nat, tree: Tree, p: Path, i: nat, x: nat)
    requires WellFormed(mem, root, tree) && p in tree.at && i < TABLE_SIZE && p.Level() < DEPTH - 1
    requires x in FreeEntry(mem, p.Level(), tree.at[p], i)
    ensures Under(tree, Sub(p, i), x)
    decreases DEPTH - p.Level(), i
  {
    assert Linked(mem, tree, p, i);
    OrderUnder(mem, root, tree, Sub(p, i), x);
  }

  lemma {:induction false} EntriesUnder(mem: Memory, root: nat, tree: Tree, p: Path, n: nat, x: nat) returns (i: nat)
    requires WellFormed(mem, root, tree) && p in tree.at && n <= TABLE_SIZE
    requires x in FreeEntries(mem, p.Level(), tree.at[p], n)
    ensures i < n && p.Level() < DEPTH - 1 && Under(tree, Sub(p, i), x)
    decreases DEPTH - p.Level(), n
  {
    if p.Level() == DEPTH - 1 {
      NothingBelowLeaves(mem, tree.at[p], n);
    }
    if x in FreeEntries(mem, p.Level(), tree.at[p], n - 1) {
      i := EntriesUnder(mem, root, tree, p, n - 1, x);
    } else {
      i := n - 1;
      EntryUnder(mem, root, tree, p, i, x);
    }
  }

  lemma {:induction false} OrderUnder(mem: Memory, root: nat, tree: Tree, p: Path, x: nat)
    requires WellFormed(mem, root, tree) && p in tree.at && x in FreeOrder(mem, p.Level(), tree.at[p])
    ensures Under(tree, p, x)
    decreases DEPTH - p.Level(), TABLE_SIZE + 1
  {
    if x != tree.at[p] {
      var i := EntriesUnder(mem, root, tree, p, TABLE_SIZE, x);
      assert Above(p, Sub(p, i));
      AboveTransitive(p, Sub(p, i), tree.name[x]);
    }
  }

  lemma {:induction false} EntryIncluded(mem: Memory, level: nat, t: nat, n: nat, i: nat, x: nat)
    requires level < DEPTH && t in mem && i < n <= |mem[t]| == TABLE_SIZE
    requires x in FreeEntry(mem, level, t, i)
    ensures x in FreeEntries(mem, level, t, n)
    decreases n
  {
    if i < n - 1 {
      EntryIncluded(mem, level, t, n - 1, i, x);
    }
  }

  lemma {:induction false} OrderComplete(mem: Memory, root: nat, tree: Tree, p: Path, q: Path)
    requires WellFormed(mem, root, tree) && p in tree.at && q in tree.at && Above(p, q)
    ensures tree.at[q] in FreeOrder(mem, p.Level(), tree.at[p])
    decreases DEPTH - p.Level()
  {
    if p != q {
      var i := NextStep(tree, p, q);
      AboveLevel(Sub(p, i), q);
      OrderComplete(mem, root, tree, Sub(p, i), q);
      assert Linked(mem, tree, p, i);
      EntryIncluded(mem, p.Level(), tree.at[p], TABLE_SIZE, i, tree.at[q]);
    }
  }

  /** No page precedes itself or a page of a table below it. */
  ghost predicate ChildrenFirst(tree: Tree, order: seq<nat>) {
    && (forall x :: x in order ==> x in tree.name)
    && forall j, k :: 0 <= j < k < |order| ==> !Above(tree.name[order[j]], tree.name[order[k]])
  }

  lemma ChildrenFirstJoin(tree: Tree, a: seq<nat>, b: seq<nat>)
    requires ChildrenFirst(tree, a) && ChildrenFirst(tree, b)
    requires forall x, y :: x in a && y in b ==> !Above(tree.name[x], tree.name[y])
    ensures ChildrenFirst(tree, a + b)
  {
    var ab := a + b;
    forall j, k | 0 <= j < k < |ab|
      ensures !Above(tree.name[ab[j]], tree.name[ab[k]])
    {
      assert ab[j] == if j < |a| then a[j] else b[j - |a|];
      assert ab[k] == if k < |a| then a[k] else b[k - |a|];
    }
  }

  lemma ParentApart(mem: Memory, root: nat, tree: Tree, p: Path, x: nat)
    requires WellFormed(mem, root, tree) && p in tree.at && x in FreeEntries(mem, p.Level(), tree.at[p], TABLE_SIZE)
    ensures x in tree.name && !Above(tree.name[x], p)
  {
    var i := EntriesUnder(mem, root, tree, p, TABLE_SIZE, x);
    AboveLevel(Sub(p, i), tree.name[x]);
    if Above(tree.name[x], p) {
      AboveLevel(tree.name[x], p);
    }
  }

  lemma SiblingsApart(mem: Memory, root: nat, tree: Tree, p: Path, i: nat, x: nat, y: nat)
    requires WellFormed(mem, root, tree) && p in tree.at && i < TABLE_SIZE && p.Level() < DEPTH - 1
    requires x in FreeEntries(mem, p.Level(), tree.at[p], i) && y in FreeEntry(mem, p.Level(), tree.at[p], i)
    ensures x in tree.name && y in tree.name && !Above(tree.name[x], tree.name[y])
  {
    var j := EntriesUnder(mem, root, tree, p, i, x);
    EntryUnder(mem, root, tree, p, i, y);
    if Above(tree.name[x], tree.name[y]) {
      AboveTransitive(Sub(p, j), tree.name[x], tree.name[y]);
      AncestorUnique(Sub(p, j), Sub(p, i), tree.name[y]);
    }
  }

  lemma {:induction false} EntriesChildrenFirst(mem: Memory, root: nat, tree: Tree, p: Path, n: nat)
    requires WellFormed(mem, root, tree) && p in tree.at && n <= TABLE_SIZE
    ensures ChildrenFirst(tree, FreeEntries(mem, p.Level(), tree.at[p], n))
    decreases DEPTH - p.Level(), n
  {
    if n > 0 && p.Level() < DEPTH - 1 {
      var i := n - 1;
      var a, b := FreeEntries(mem, p.Level(), tree.at[p], i), FreeEntry(mem, p.Level(), tree.at[p], i);
      EntriesChildrenFirst(mem, root, tree, p, i);
      assert Linked(mem, tree, p, i);
      if Sub(p, i) in tree.at {
        OrderChildrenFirst(mem, root, tree, Sub(p, i));
      }
      forall x, y | x in a && y in b
        ensures !Above(tree.name[x], tree.name[y])
      {
        SiblingsApart(mem, root, tree, p, i, x, y);
      }
      ChildrenFirstJoin(tree, a, b);
    } else {
      NothingBelowLeaves(mem, tree.at[p], n);
    }
  }

  lemma {:induction false} OrderChildrenFirst(mem: Memory, root: nat, tree: Tree, p: Path)
    requires WellFormed(mem, root, tree) && p in tree.at
    ensures ChildrenFirst(tree, FreeOrder(mem, p.Level(), tree.at[p]))
    decreases DEPTH - p.Level(), TABLE_SIZE + 1
  {
    var entries := FreeEntries(mem, p.Level(), tree.at[p], TABLE_SIZE);
    EntriesChildrenFirst(mem, root, tree, p, TABLE_SIZE);
    forall x, y | x in entries && y in [tree.at[p]]
      ensures !Above(tree.name[x], tree.name[y])
    {
      ParentApart(mem, root, tree, p, x);
    }
    ChildrenFirstJoin(tree, entries, [tree.at[p]]);
  }

  lemma {:induction false} RootAbove(q: Path)
    ensures Above(Root, q)
  {
    if q.Sub? {
      RootAbove(q.up);
    }
  }

  /** Teardown from the root releases exactly the allocated tables, each once and children before
      parents; a page that is only the target of a leaf is never released. */
  lemma TeardownExact(mem: Memory, root: nat, tree: Tree)
    requires WellFormed(mem, root, tree) && NoStray(mem, tree)
    ensures forall x :: x in FreeOrder(mem, 0, root) <==> x in mem
    ensures forall j, k :: 0 <= j < k < |FreeOrder(mem, 0, root)| ==>
      FreeOrder(mem, 0, root)[j] != FreeOrder(mem, 0, root)[k]
    ensures ChildrenFirst(tree, FreeOrder(mem, 0, root))
  {
    var order := FreeOrder(mem, 0, root);
    forall x ensures x in order <==> x in mem {
      if x in order {
        OrderUnder(mem, root, tree, Root, x);
      }
      if x in mem {
        RootAbove(tree.name[x]);
        OrderComplete(mem, root, tree, Root, tree.name[x]);
      }
    }
    OrderChildrenFirst(mem, root, tree, Root);
    forall j, k | 0 <= j < k < |order| ensures order[j] != order[k] {
      assert !Above(tree.name[order[j]], tree.name[order[k]]);
    }
  }
}
