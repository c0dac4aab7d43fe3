/** The pages that the page allocator gives for translation tables, and how many a walk or a range needs. */
module TableSupply {
  import opened Machine
  import opened StageTwoTable

  /** The allocator's answers, in order: NULL (page 0), or a page in reach of the table that was not given
      before. */
  ghost predicate Honest(answers: nat -> nat, root: nat) {
    && (forall n: nat :: answers(n) < PAGE_LIMIT && answers(n) != root)
    && (forall m: nat, n: nat :: m < n && answers(m) != 0 ==> answers(m) != answers(n))
  }

  /** The pages among the first `n` answers. */
  ghost function Given(answers: nat -> nat, n: nat): set<nat> {
    if n == 0 then {} else Given(answers, n - 1) + if answers(n - 1) == 0 then {} else {answers(n - 1)}
  }

  lemma {:induction false} NotYetGiven(answers: nat -> nat, root: nat, k: nat, n: nat)
    requires Honest(answers, root) && k <= n && answers(n) != 0
    ensures answers(n) !in Given(answers, k)
    decreases k
  {
    if k > 0 {
      NotYetGiven(answers, root, k - 1, n);
      assert answers(k - 1) != 0 ==> answers(k - 1) != answers(n);
    }
  }

  /** The pages in memory are the root and all that were given. */
  ghost predicate Supplied(answers: nat -> nat, asked: nat, root: nat, mem: Memory) {
    Honest(answers, root) && mem.Keys == {root} + Given(answers, asked)
  }

  lemma SuppliedStart(answers: nat -> nat, root: nat)
    requires Honest(answers, root)
    ensures Supplied(answers, 0, root, map[root := ZeroTable()])
  {
  }

  lemma SuppliedWrite(answers: nat -> nat, asked: nat, root: nat, mem: Memory, t: nat, i: nat, e: Entry)
    requires Supplied(answers, asked, root, mem) && t in mem && i < |mem[t]|
    ensures Supplied(answers, asked, root, Write(mem, t, i, e))
  {
    hide Honest, Given;
    assert Write(mem, t, i, e).Keys == mem.Keys;
  }

  /** The next answer is NULL, or a page that is not in memory; once it is hung, the account is right again. */
  lemma SuppliedNext(answers: nat -> nat, asked: nat, root: nat, mem: Memory, t: nat, i: nat)
    requires Supplied(answers, asked, root, mem) && t in mem && i < |mem[t]|
    ensures var f := answers(asked);
      if f == 0 then Supplied(answers, asked + 1, root, mem)
      else f !in mem && 0 < f < PAGE_LIMIT && Supplied(answers, asked + 1, root, Hang(mem, t, i, f))
  {
    var f := answers(asked);
    if f != 0 {
      NotYetGiven(answers, root, asked, asked);
      assert f !in mem.Keys;
      assert Hang(mem, t, i, f).Keys == mem.Keys + {f};
    }
  }

  // ----- what is asked for --------------------------------------------------------------------

  /** The answers from `a` on and before `b` were all pages. */
  ghost predicate AllPages(answers: nat -> nat, a: nat, b: nat) {
    a <= b && forall n :: a <= n < b ==> answers(n) != 0
  }

  /** From answer `a` to `b` a page was taken for each of the `needed` tables, or until an answer was NULL. */
  ghost predicate Charged(answers: nat -> nat, a: nat, b: nat, needed: nat, refused: bool) {
    if refused then a < b <= a + needed && answers(b - 1) == 0 && AllPages(answers, a, b - 1)
    else b == a + needed && AllPages(answers, a, b)
  }

  /** A table is refused if and only if one of the answers due is NULL. */
  lemma ChargedIff(answers: nat -> nat, a: nat, b: nat, needed: nat, refused: bool)
    requires Charged(answers, a, b, needed, refused)
    ensures refused <==> !AllPages(answers, a, a + needed)
  {
  }

  lemma ChargedThen(answers: nat -> nat, a: nat, b: nat, first: nat, c: nat, second: nat, refused: bool)
    requires Charged(answers, a, b, first, false) && Charged(answers, b, c, second, refused)
    ensures Charged(answers, a, c, first + second, refused)
  {
  }

  lemma ChargedMore(answers: nat -> nat, a: nat, b: nat, needed: nat, more: nat)
    requires Charged(answers, a, b, needed, true) && needed <= more
    ensures Charged(answers, a, b, more, true)
  {
  }

  // ----- the tables needed --------------------------------------------------------------------

  /** The tables that the walk of a page visits, down to a level. */
  ghost function Spine(page: nat, level: nat): set<Path>
    requires level < DEPTH
  {
    if level == 0 then {Root} else Spine(page, level - 1) + {Prefix(page, level)}
  }

  lemma {:induction false} SpineLevels(page: nat, level: nat, p: Path)
    requires level < DEPTH && p in Spine(page, level)
    ensures p.Level() <= level
    decreases level
  {
    if level > 0 && p in Spine(page, level - 1) {
      SpineLevels(page, level - 1, p);
    }
  }

  lemma SpineGrows(page: nat, level: nat)
    requires level < DEPTH - 1
    ensures Spine(page, level + 1) == Spine(page, level) + {Prefix(page, level + 1)}
    ensures Prefix(page, level + 1) !in Spine(page, level)
  {
    hide Prefix;
    if Prefix(page, level + 1) in Spine(page, level) {
      SpineLevels(page, level, Prefix(page, level + 1));
    }
  }

  lemma Smaller(a: set<Path>, b: set<Path>)
    requires a <= b
    ensures |a| <= |b|
  {
    assert b == a + (b - a);
  }

  lemma SpineStart(page: nat, keys: set<Path>)
    requires Root in keys
    ensures keys + Spine(page, 0) == keys && |Spine(page, 0) - keys| == 0
  {
    assert Spine(page, 0) - keys == {};
  }

  lemma OneMore(s: set<Path>, x: Path, keys: set<Path>)
    requires x !in s
    ensures keys + s + {x} == keys + (s + {x}) && (x in keys + s <==> x in keys)
    ensures |(s + {x}) - keys| == |s - keys| + if x in keys then 0 else 1
  {
    if x in keys {
      assert (s + {x}) - keys == s - keys;
    } else {
      assert (s + {x}) - keys == (s - keys) + {x};
    }
  }

  lemma {:induction false} SpineInside(page: nat, level: nat)
    requires level < DEPTH
    ensures Spine(page, level) <= Spine(page, DEPTH - 1)
    decreases DEPTH - level
  {
    if level < DEPTH - 1 {
      SpineInside(page, level + 1);
    }
  }

  /** Going one level down needs one more table if it is not there yet. */
  lemma SpineStep(page: nat, level: nat, keys: set<Path>)
    requires level < DEPTH - 1
    ensures var next := Prefix(page, level + 1);
      && (next in keys + Spine(page, level) <==> next in keys)
      && keys + Spine(page, level) + {next} == keys + Spine(page, level + 1)
      && |Spine(page, level + 1) - keys| == |Spine(page, level) - keys| + (if next in keys then 0 else 1)
    ensures |Spine(page, level + 1) - keys| <= |Spine(page, DEPTH - 1) - keys|
  {
    hide Spine, Prefix;
    SpineGrows(page, level);
    OneMore(Spine(page, level), Prefix(page, level + 1), keys);
    SpineInside(page, level + 1);
    Smaller(Spine(page, level + 1) - keys, Spine(page, DEPTH - 1) - keys);
  }

  /** The answers from `a` to `b` paid for the tables wanted that did not exist before; unless one was NULL they
      exist after. */
  ghost predicate Account(answers: nat -> nat, a: nat, b: nat, before: set<Path>, after: set<Path>, wanted: set<Path>,
    refused: bool)
  {
    Charged(answers, a, b, |wanted - before|, refused) && (!refused ==> after == before + wanted)
  }

  lemma AccountStart(answers: nat -> nat, a: nat, page: nat, keys: set<Path>)
    requires Root in keys
    ensures Account(answers, a, a, keys, keys, Spine(page, 0), false)
  {
    SpineStart(page, keys);
  }

  /** One level down. */
  lemma AccountLevel(answers: nat -> nat, a: nat, b: nat, c: nat, keys: set<Path>, now: set<Path>, after: set<Path>,
    page: nat, level: nat, refused: bool)
    requires level < DEPTH - 1 && Account(answers, a, b, keys, now, Spine(page, level), false)
    requires Charged(answers, b, c, if Prefix(page, level + 1) in now then 0 else 1, refused)
    requires after == now + if refused then {} else {Prefix(page, level + 1)}
    ensures Account(answers, a, c, keys, after, Spine(page, if refused then DEPTH - 1 else level + 1), refused)
  {
    hide Charged, Spine, Prefix;
    SpineStep(page, level, keys);
    var needed := |Spine(page, level) - keys|;
    ChargedThen(answers, a, b, needed, c, if Prefix(page, level + 1) in keys then 0 else 1, refused);
    if refused {
      ChargedMore(answers, a, c, |Spine(page, level + 1) - keys|, |Spine(page, DEPTH - 1) - keys|);
    }
  }

  /** The tables on the way to the pages from `first` on and before `end`. */
  ghost function Spines(first: nat, end: nat): set<Path> {
    if end <= first then {} else Spines(first, end - 1) + Spine(end - 1, DEPTH - 1)
  }

  /** How many tables are missing on the way to these pages. */
  ghost function Needed(first: nat, end: nat, keys: set<Path>): nat {
    |Spines(first, end) - keys|
  }

  lemma AccountNothing(answers: nat -> nat, a: nat, first: nat, keys: set<Path>)
    ensures Account(answers, a, a, keys, keys, Spines(first, first), false)
  {
    assert Spines(first, first) - keys == {};
  }

  lemma SpinesStep(first: nat, end: nat, keys: set<Path>)
    requires first <= end
    ensures keys + Spines(first, end) + Spine(end, DEPTH - 1) == keys + Spines(first, end + 1)
    ensures Needed(first, end + 1, keys) ==
      Needed(first, end, keys) + |Spine(end, DEPTH - 1) - (keys + Spines(first, end))|
  {
    hide Spine;
    var a, b := Spines(first, end) - keys, Spine(end, DEPTH - 1) - (keys + Spines(first, end));
    assert Spines(first, end + 1) == Spines(first, end) + Spine(end, DEPTH - 1);
    assert Spines(first, end + 1) - keys == a + b && a !! b;
  }

  lemma {:induction false} NeededMore(first: nat, n: nat, end: nat, keys: set<Path>)
    requires first <= n <= end
    ensures Needed(first, n, keys) <= Needed(first, end, keys)
    decreases end
  {
    hide Needed, Spine;
    if n < end {
      NeededMore(first, n, end - 1, keys);
      SpinesStep(first, end - 1, keys);
    }
  }

  /** One page more. */
  lemma AccountPage(answers: nat -> nat, a: nat, b: nat, c: nat, keys: set<Path>, now: set<Path>, after: set<Path>,
    first: nat, done: nat, end: nat, refused: bool)
    requires first <= done < end && Account(answers, a, b, keys, now, Spines(first, done), false)
    requires Account(answers, b, c, now, after, Spine(done, DEPTH - 1), refused)
    ensures Account(answers, a, c, keys, after, Spines(first, if refused then end else done + 1), refused)
  {
    hide Charged, Spine, Spines;
    SpinesStep(first, done, keys);
    ChargedThen(answers, a, b, Needed(first, done, keys), c, |Spine(done, DEPTH - 1) - now|, refused);
    if refused {
      NeededMore(first, done + 1, end, keys);
      ChargedMore(answers, a, c, Needed(first, done + 1, keys), Needed(first, end, keys));
    }
  }
}
