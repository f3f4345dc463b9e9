/** How many entries and pages trees of a given height have. */
module TreeSize {
  import opened IndexTypes
  import opened TreeModel

  function Power(base: nat, exponent: nat): nat {
    if exponent == 0 then 1 else base * Power(base, exponent - 1)
  }

  /** The fewest entries below a node of height h that is not the root. */
  function Fewest(c: Caps, h: nat): nat
    requires h >= 1
  {
    if h == 1 then c.HalfLeaf() else c.HalfKids() * Fewest(c, h - 1)
  }

  lemma {:induction false} FewestIsPower(c: Caps, h: nat)
    requires h >= 1
    ensures Fewest(c, h) == c.HalfLeaf() * Power(c.HalfKids(), h - 1)
  {
    if h > 1 {
      FewestIsPower(c, h - 1);
      Exchange(c.HalfKids(), c.HalfLeaf(), Power(c.HalfKids(), h - 2));
    }
  }

  lemma Exchange(a: nat, b: nat, p: nat)
    ensures a * (b * p) == b * (a * p)
  {
  }

  lemma Scaled(n: nat, m: nat, x: nat)
    requires m <= n
    ensures m * x <= n * x
  {
  }

  lemma {:induction false} EntriesBelow(t: Tree, h: nat, c: Caps)
    requires h >= 1 && Shape(t, h, c)
    ensures |Flat(Leaves(t))| >= Fewest(c, h)
    decreases t, 1
  {
    if t.Leaf? {
      FlatOne(t.page);
    } else {
      EntriesBelowAll(t.kids, h - 1, c);
      Scaled(|t.kids|, c.HalfKids(), Fewest(c, h - 1));
    }
  }

  lemma {:induction false} EntriesBelowAll(ts: seq<Tree>, h: nat, c: Caps)
    requires h >= 1 && Shapes(ts, h, c)
    ensures |Flat(LeavesOf(ts))| >= |ts| * Fewest(c, h)
    decreases ts, 0
  {
    if ts != [] {
      EntriesBelow(ts[0], h, c);
      EntriesBelowAll(ts[1..], h, c);
      FlatAppend(Leaves(ts[0]), LeavesOf(ts[1..]));
      hide Leaves, Flat, Shape, Fewest;
      OneMore(|ts|, Fewest(c, h));
    }
  }

  lemma OneMore(n: nat, x: nat)
    requires n > 0
    ensures n * x == x + (n - 1) * x
  {
  }

  lemma BranchLeaves(t: Tree)
    requires t.Branch?
    ensures Leaves(t) == LeavesOf(t.kids)
  {
  }

  function PageIds(ls: seq<LeafPage>): (ids: seq<PageId>)
    ensures |ids| == |ls| && forall i :: 0 <= i < |ls| ==> ids[i] == ls[i].id
  {
    seq(|ls|, i requires 0 <= i < |ls| => ls[i].id)
  }

  lemma {:induction false} LeafIdsAreIds(t: Tree)
    ensures multiset(PageIds(Leaves(t))) <= Ids(t)
    decreases t, 1
  {
    if t.Branch? {
      LeafIdsAreIdsOf(t.kids);
    }
  }

  lemma {:induction false} LeafIdsAreIdsOf(ts: seq<Tree>)
    ensures multiset(PageIds(LeavesOf(ts))) <= IdsOf(ts)
    decreases ts, 0
  {
    if ts != [] {
      LeafIdsAreIds(ts[0]);
      LeafIdsAreIdsOf(ts[1..]);
      IdsOfCons(ts);
      assert LeavesOf(ts) == Leaves(ts[0]) + LeavesOf(ts[1..]);
      PageIdsJoin(Leaves(ts[0]), LeavesOf(ts[1..]), Ids(ts[0]), IdsOf(ts[1..]));
    }
  }

  lemma PageIdsJoin(a: seq<LeafPage>, b: seq<LeafPage>, m: multiset<PageId>, n: multiset<PageId>)
    requires multiset(PageIds(a)) <= m && multiset(PageIds(b)) <= n
    ensures multiset(PageIds(a + b)) <= m + n
  {
    assert PageIds(a + b) == PageIds(a) + PageIds(b);
  }

  lemma {:induction false} DistinctFit(ids: multiset<PageId>, n: nat)
    requires Distinct(ids, n) && n <= TWO_64
    ensures |ids| <= n
  {
    if n == 0 {
      assert ids == multiset{} by {
        if x :| x in ids {
          assert false;
        }
      }
    } else {
      var rest := ids[n - 1 := 0];
      assert |ids| == |rest| + ids[n - 1];
      DistinctFit(rest, n - 1);
    }
  }

  lemma {:induction false} PagesBelow(t: Tree, h: nat, c: Caps)
    requires c.Ok() && h >= 1 && Shape(t, h, c)
    ensures |Ids(t)| >= Power(2, h - 1)
    decreases t, 1
  {
    if t.Branch? {
      PagesBelowAll(t.kids, h - 1, c);
      Scaled(|t.kids|, 2, Power(2, h - 2));
    }
  }

  lemma {:induction false} PagesBelowAll(ts: seq<Tree>, h: nat, c: Caps)
    requires c.Ok() && h >= 1 && Shapes(ts, h, c)
    ensures |IdsOf(ts)| >= |ts| * Power(2, h - 1)
    decreases ts, 0
  {
    if ts != [] {
      PagesBelow(ts[0], h, c);
      PagesBelowAll(ts[1..], h, c);
      hide Shape, Ids, Power;
      OneMore(|ts|, Power(2, h - 1));
    }
  }

  lemma {:induction false} PowerGrows(a: nat, b: nat)
    requires a <= b
    ensures 1 <= Power(2, a) <= Power(2, b)
  {
    if b > 0 {
      PowerGrows(if a < b then a else b - 1, b - 1);
    }
  }

  lemma BranchPages(t: Tree)
    requires t.Branch?
    ensures |Ids(t)| == 1 + |IdsOf(t.kids)|
  {
  }

  lemma PowerStep(h: nat)
    requires h >= 1
    ensures Power(2, h) == 2 * Power(2, h - 1)
  {
  }

  lemma Power52()
    ensures Power(2, 52) > MAX_PAGES
  {
    assert Power(2, 13) == 0x2000;
    PowerSum(13, 13);
    PowerSum(26, 26);
  }

  lemma {:induction false} PowerSum(a: nat, b: nat)
    ensures Power(2, a + b) == Power(2, a) * Power(2, b)
  {
    if a > 0 {
      PowerSum(a - 1, b);
      Associate(Power(2, a - 1), Power(2, b));
    }
  }

  lemma Associate(x: nat, y: nat)
    ensures 2 * (x * y) == (2 * x) * y
  {
  }

  lemma {:induction false} EntriesAtMost(t: Tree, h: int, c: Caps)
    requires Shape(t, h, c) || RootShape(t, h, c)
    ensures |Flat(Leaves(t))| <= |Leaves(t)| * c.leaf
    decreases t, 1
  {
    if t.Leaf? {
      FlatOne(t.page);
    } else {
      EntriesAtMostOf(t.kids, h - 1, c);
    }
  }

  lemma {:induction false} EntriesAtMostOf(ts: seq<Tree>, h: int, c: Caps)
    requires Shapes(ts, h, c)
    ensures |Flat(LeavesOf(ts))| <= |LeavesOf(ts)| * c.leaf
    decreases ts, 0
  {
    if ts != [] {
      EntriesAtMost(ts[0], h, c);
      EntriesAtMostOf(ts[1..], h, c);
      FlatAppend(Leaves(ts[0]), LeavesOf(ts[1..]));
      assert LeavesOf(ts) == Leaves(ts[0]) + LeavesOf(ts[1..]);
      hide Leaves, LeavesOf, Flat, Shape;
      TimesSum(|Leaves(ts[0])|, |LeavesOf(ts[1..])|, c.leaf);
    }
  }

  lemma TimesSum(a: nat, b: nat, x: nat)
    ensures (a + b) * x == a * x + b * x
  {
  }

  lemma SubsetSize(a: multiset<PageId>, b: multiset<PageId>)
    requires a <= b
    ensures |a| <= |b|
  {
    assert b == a + (b - a);
  }

  /** A file of fewer than 2^51 pages holds a tree of height at most 52. */
  lemma HeightSmall(t: Tree, height: int, c: Caps, count: nat)
    requires c.Ok() && RootShape(t, height, c) && Distinct(Ids(t), count) && count <= MAX_PAGES
    ensures height <= 52
  {
    hide Shape, Leaves, Stored, Flat, Power, Ids;
    if height >= 2 {
      DistinctFit(Ids(t), count);
      PagesBelowAll(t.kids, height - 1, c);
      BranchPages(t);
      Scaled(|t.kids|, 2, Power(2, height - 2));
      PowerStep(height - 1);
      if height > 52 {
        PowerGrows(52, height - 1);
        Power52();
      }
    }
  }

  /** The number of its entries fits 64 bits. */
  lemma EntriesSmall(t: Tree, height: int, c: Caps, count: nat)
    requires c.leaf <= 225 && RootShape(t, height, c) && Distinct(Ids(t), count) && count <= MAX_PAGES
    ensures |Flat(Leaves(t))| < TWO_64
  {
    hide Shape, RootShape, Leaves, Flat, Ids;
    EntriesAtMost(t, height, c);
    LeafIdsAreIds(t);
    SubsetSize(multiset(PageIds(Leaves(t))), Ids(t));
    DistinctFit(Ids(t), count);
    Scaled(MAX_PAGES, |Leaves(t)|, c.leaf);
  }
}
