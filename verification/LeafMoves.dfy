/** Moving entries between neighbouring leaf pages: order, links, and what stays the same. */
module LeafMoves {
  import opened IndexTypes
  import opened KeyOrder
  import opened TreeModel
  import opened TreeSteps
  import opened TreeMoves

  // ----- the order of entries -----

  /** Keys of one kind in strictly ascending order. */
  ghost predicate Ordered(es: seq<Entry>, kind: KeyKind) {
    && (forall i :: 0 <= i < |es| ==> KeyMatchesKind(es[i].key, kind))
    && (forall i, j :: 0 <= i < j < |es| ==> Rank(es[i].key) < Rank(es[j].key))
  }

  lemma OrderedSlice(a: seq<Entry>, b: seq<Entry>, d: seq<Entry>, kind: KeyKind)
    requires Ordered(a + b + d, kind)
    ensures Ordered(b, kind)
  {
    var es := a + b + d;
    assert forall i :: 0 <= i < |b| ==> b[i] == es[|a| + i];
  }

  /** Key and record vectors walked in step. */
  function Zip(keys: seq<IndexKey>, records: seq<Record>): (es: seq<Entry>)
    requires |keys| == |records|
    ensures |es| == |keys| && forall i :: 0 <= i < |es| ==> es[i] == Entry(keys[i], records[i])
  {
    seq(|keys|, i requires 0 <= i < |keys| => Entry(keys[i], records[i]))
  }

  /** Sorting by key. */
  function SortByKey(items: seq<Entry>): (r: seq<Entry>)
    requires forall i, j :: 0 <= i < |items| && 0 <= j < |items| ==> items[i].key.IntKey? == items[j].key.IntKey?
    ensures multiset(r) == multiset(items)
  {
    if items == [] then []
    else
      assert items == [items[0]] + items[1..];
      var rest := SortByKey(items[1..]);
      assert forall e :: e in rest ==> e in multiset(items[1..]);
      InsertByKey(items[0], rest)
  }

  function InsertByKey(e: Entry, items: seq<Entry>): (r: seq<Entry>)
    requires forall x :: x in items ==> x.key.IntKey? == e.key.IntKey?
    ensures multiset(r) == multiset(items) + multiset{e}
  {
    if items == [] then [e]
    else
      assert items == [items[0]] + items[1..];
      if KeyLess(items[0].key, e.key) then [items[0]] + InsertByKey(e, items[1..]) else [e] + items
  }

  /** Entries that are in order stay where they are. */
  lemma {:induction false} SortedStays(items: seq<Entry>, kind: KeyKind)
    requires Ordered(items, kind)
    ensures SortByKey(items) == items
  {
    if items != [] {
      SortedStays(items[1..], kind);
      if |items| > 1 {
        KeyLessIsRank(items[1].key, items[0].key);
      }
    }
  }

  // ----- leaf sequences that hold the same -----

  /** The same entries in the same order, entered and left through the same pages. */
  ghost predicate Reflows(old_: seq<LeafPage>, new_: seq<LeafPage>) {
    && old_ != [] && new_ != [] && new_[0].id == old_[0].id
    && new_[|new_| - 1].next == old_[|old_| - 1].next
    && Flat(new_) == Flat(old_)
    && (Linked(old_) ==> Linked(new_))
  }

  ghost predicate Similar(ls: seq<LeafPage>, ls': seq<LeafPage>) {
    && ls != [] && ls' != [] && ls'[0].id == ls[0].id
    && Flat(ls') == Flat(ls) && (Chain(ls) ==> Chain(ls'))
  }

  lemma Reflowed(a: seq<LeafPage>, old_: seq<LeafPage>, new_: seq<LeafPage>, b: seq<LeafPage>)
    requires Reflows(old_, new_)
    ensures Similar(a + old_ + b, a + new_ + b)
  {
    var ls, ls' := a + old_ + b, a + new_ + b;
    FlatAppend(a + old_, b);
    FlatAppend(a, old_);
    FlatAppend(a + new_, b);
    FlatAppend(a, new_);
    if Chain(ls) {
      ChainReflowed(a, old_, new_, b);
    }
  }

  lemma ChainReflowed(a: seq<LeafPage>, old_: seq<LeafPage>, new_: seq<LeafPage>, b: seq<LeafPage>)
    requires Reflows(old_, new_) && Chain(a + old_ + b)
    ensures Chain(a + new_ + b)
  {
    var ls, ls' := a + old_ + b, a + new_ + b;
    var n, m, k := |a|, |old_|, |new_|;
    assert Linked(old_) by {
      assert forall i :: 0 <= i < m ==> ls[n + i] == old_[i];
    }
    assert ls[n + m - 1] == old_[m - 1] && ls'[n + k - 1] == new_[k - 1] && ls[n] == old_[0] && ls'[n] == new_[0];
    forall i | 0 <= i < |ls'| - 1
      ensures ls'[i].next == ls'[i + 1].id
    {
      if i < n {
        assert ls[i] == ls'[i];
        assert i + 1 < n ==> ls[i + 1] == ls'[i + 1];
      } else if i < n + k - 1 {
        assert ls'[i] == new_[i - n] && ls'[i + 1] == new_[i - n + 1];
      } else {
        var q := i - k + m;
        assert ls'[i + 1] == ls[q + 1];
        assert i >= n + k ==> ls'[i] == ls[q];
      }
    }
    if b != [] {
      assert ls'[|ls'| - 1] == ls[|ls| - 1];
    }
  }

  lemma AllLeavesSplit(f: Family)
    requires f.loose == []
    ensures AllLeaves(f) == (LeavesBefore(f.up) + LeavesOf(f.before)) + f.pend + (LeavesOf(f.after) + LeavesAfter(f.up))
  {
    assert [] + f.pend == f.pend;
  }

  /** Entries move between the leaf pages that are being rewritten. */
  lemma SteadyReflowed(s: Store, f: Family, pend: seq<LeafPage>, path: seq<PageId>, ls: seq<LeafPage>, c: Caps)
    requires Steady(s, f, path, ls, c) && f.loose == [] && Reflows(f.pend, pend)
    ensures var g := f.(pend := pend);
            && Steady(s, g, path, AllLeaves(g), c) && Similar(ls, AllLeaves(g))
            && (f.pend[0].entries != [] && pend[0].entries != [] ==> HeadKey(g) == HeadKey(f))
  {
    hide World, LeavesOf, Around;
    var g := f.(pend := pend);
    AllLeavesSplit(f);
    AllLeavesSplit(g);
    Reflowed(LeavesBefore(f.up) + LeavesOf(f.before), f.pend, pend, LeavesOf(f.after) + LeavesAfter(f.up));
    if f.pend[0].entries != [] && pend[0].entries != [] {
      assert Flat(f.pend)[0] == f.pend[0].entries[0] && Flat(pend)[0] == pend[0].entries[0];
    }
  }

  /** The entries that are being rewritten are in order among themselves. */
  lemma PendOrdered(s: Store, f: Family, path: seq<PageId>, ls: seq<LeafPage>, c: Caps, kind: KeyKind)
    requires Steady(s, f, path, ls, c) && f.loose == [] && Ordered(Flat(ls), kind)
    ensures Ordered(Flat(f.pend), kind)
  {
    hide World, LeavesOf, Around, Ordered;
    AllLeavesSplit(f);
    var a, b := LeavesBefore(f.up) + LeavesOf(f.before), LeavesOf(f.after) + LeavesAfter(f.up);
    FlatAppend(a + f.pend, b);
    FlatAppend(a, f.pend);
    OrderedSlice(Flat(a), Flat(f.pend), Flat(b), kind);
  }

  lemma FlatTwo(p: LeafPage, q: LeafPage)
    ensures Flat([p, q]) == p.entries + q.entries
  {
    assert [p, q][1..] == [q];
    FlatOne(q);
  }

  lemma FlatThree(p: LeafPage, q: LeafPage, r: LeafPage)
    ensures Flat([p, q, r]) == p.entries + q.entries + r.entries
  {
    assert [p, q, r][1..] == [q, r];
    FlatTwo(q, r);
  }

  // ----- a leaf and its neighbours -----

  /** Two neighbouring leaves in memory, and their parent. */
  ghost predicate IsLeafPair(f: Family, left: Node, right: Node, parent: Node, lp: LeafPage, rp: LeafPage, c: Caps) {
    && f.h == 1 && f.loose == [] && f.pend == [lp, rp] && f.open == multiset{lp.id, rp.id}
    && left == LeafNode(lp) && right == LeafNode(rp) && lp.entries != []
    && IsParent(parent, f, [lp.id, rp.id])
    && (if f.up.Top? then 2 else c.HalfKids()) <= |f.before| + 2 + |f.after| <= c.inner + 1
  }

  /** A stored leaf, read from its page. */
  lemma SiblingLeaf(nodes: seq<Node>, t: Tree, c: Caps)
    requires Stored(nodes, t) && Shape(t, 1, c)
    ensures t.Leaf? && c.HalfLeaf() <= |t.page.entries| <= c.leaf
    ensures Id(t) < |nodes| && nodes[Id(t)] == LeafNode(t.page)
  {
  }

  /** A leaf in memory and its right sibling, ready to be rewritten. */
  lemma LeafRight(s: Store, p: LeafPage, ctx: Ctx, path: seq<PageId>, ls: seq<LeafPage>, c: Caps)
    requires Steady(s, Gathered(ctx, p.id, [], [p], 0), path, ls, c) && ctx.Under? && ctx.right != []
    ensures ctx.pid < |s.nodes|
    ensures var r := ctx.right[0];
            var f := WithRight(ctx, p.id, [], [p], 0);
            && r.Leaf? && Id(r) < |s.nodes| && s.nodes[Id(r)] == LeafNode(r.page)
            && c.HalfLeaf() <= |r.page.entries| <= c.leaf
            && |ctx.left| + 1 < |s.nodes[ctx.pid].children| && s.nodes[ctx.pid].children[|ctx.left| + 1] == Id(r)
            && Steady(s, f, path[..|path| - 1], ls, c)
            && IsParent(s.nodes[ctx.pid], f, [p.id, Id(r)])
            && (if f.up.Top? then 2 else c.HalfKids()) <= |f.before| + 2 + |f.after| <= c.inner + 1
            && f.loose == [] && f.pend == [p, r.page] && f.h == 1 && f.up == ctx.up && f.before == ctx.left
               && f.open == multiset{p.id, Id(r)}
            && (p.entries != [] ==> IsLeafPair(f, LeafNode(p), LeafNode(r.page), s.nodes[ctx.pid], p, r.page, c))
            && (Exact(ctx, HeadKey(Gathered(ctx, p.id, [], [p], 0))) ==> Exact(f.up, HeadKey(f)))
  {
    hide Steady, Row, Stored, Shape, MinKey, Seps, FrameNode, AllLeaves, HeadKey, Around, Exact;
    Siblings(s, ctx, p.id, [], [p], 0, path, ls, c);
    ParentChildren(ctx, p.id, ctx.sep);
    OpenedRight(s, ctx, p.id, [], [p], 0, path, ls, c);
    SiblingLeaf(s.nodes, ctx.right[0], c);
    SteadyRows(s, WithRight(ctx, p.id, [], [p], 0), path[..|path| - 1], ls, c);
    if Exact(ctx, HeadKey(Gathered(ctx, p.id, [], [p], 0))) {
      HeadRight(ctx, p.id, [], [p], 0, c);
    }
  }

  lemma LeafLeft(s: Store, p: LeafPage, ctx: Ctx, path: seq<PageId>, ls: seq<LeafPage>, c: Caps)
    requires Steady(s, Gathered(ctx, p.id, [], [p], 0), path, ls, c) && ctx.Under? && ctx.left != []
    ensures ctx.pid < |s.nodes|
    ensures var n := |ctx.left| - 1;
            var l := ctx.left[n];
            var f := WithLeft(ctx, p.id, [], [p], 0);
            && l.Leaf? && Id(l) < |s.nodes| && s.nodes[Id(l)] == LeafNode(l.page)
            && c.HalfLeaf() <= |l.page.entries| <= c.leaf
            && n < |s.nodes[ctx.pid].children| && s.nodes[ctx.pid].children[n] == Id(l)
            && Steady(s, f, path[..|path| - 1], ls, c)
            && IsParent(s.nodes[ctx.pid], f, [Id(l), p.id])
            && (if f.up.Top? then 2 else c.HalfKids()) <= |f.before| + 2 + |f.after| <= c.inner + 1
            && f.loose == [] && f.pend == [l.page, p] && f.h == 1 && f.up == ctx.up && f.before == ctx.left[..n]
               && f.open == multiset{Id(l), p.id}
            && (c.Ok() ==> IsLeafPair(f, LeafNode(l.page), LeafNode(p), s.nodes[ctx.pid], l.page, p, c))
            && (Exact(ctx, HeadKey(Gathered(ctx, p.id, [], [p], 0))) ==> Exact(f.up, HeadKey(f)))
  {
    hide Steady, Row, Stored, Shape, MinKey, Seps, FrameNode, AllLeaves, HeadKey, Around, Exact;
    var l := ctx.left[|ctx.left| - 1];
    Siblings(s, ctx, p.id, [], [p], 0, path, ls, c);
    ParentChildren(ctx, p.id, ctx.sep);
    OpenedLeft(s, ctx, p.id, [], [p], 0, path, ls, c);
    SiblingLeaf(s.nodes, l, c);
    SteadyRows(s, WithLeft(ctx, p.id, [], [p], 0), path[..|path| - 1], ls, c);
    if Exact(ctx, HeadKey(Gathered(ctx, p.id, [], [p], 0))) {
      HeadLeft(ctx, p.id, [], [p], 0, c);
    }
  }

  /** Both leaf pages of a pair get new entries: before, between and after the two writes. */
  lemma PairReflowed(s: Store, f: Family, lp: LeafPage, rp: LeafPage, path: seq<PageId>, ls: seq<LeafPage>, c: Caps)
    requires Steady(s, f, path, ls, c) && Reshared(f, lp, rp, c)
    ensures lp.id < |s.nodes| && rp.id < |s.nodes|
    ensures var g := f.(pend := [lp, rp]);
            var g' := f.(before := f.before + [Leaf(lp), Leaf(rp)], open := multiset{}, pend := []);
            && Similar(ls, AllLeaves(g))
            && Steady(s.(nodes := s.nodes[lp.id := LeafNode(lp)][rp.id := LeafNode(rp)]), g', path, AllLeaves(g), c)
            && HeadKey(g') == HeadKey(f)
  {
    hide AllLeaves, HeadKey, Similar, Keys, Records, Flat;
    var g := f.(pend := [lp, rp]);
    assert f.pend == [f.pend[0], f.pend[1]];
    FlatTwo(lp, rp);
    FlatTwo(f.pend[0], f.pend[1]);
    SteadyOk(s, f, path, ls, c);
    hide Steady;
    SteadyReflowed(s, f, [lp, rp], path, ls, c);
    SteadyPair(s, g, Leaf(lp), Leaf(rp), path, AllLeaves(g), c);
  }

  lemma SteadyOk(s: Store, f: Family, path: seq<PageId>, ls: seq<LeafPage>, c: Caps)
    requires Steady(s, f, path, ls, c)
    ensures c.Ok() && |s.nodes| <= MAX_PAGES
  {
  }

  /** The last entry of one leaf becomes the first of the next. */
  lemma GiveLast(p: LeafPage, r: LeafPage)
    requires p.entries != []
    ensures var n := |p.entries| - 1;
            var lp, rp := p.(entries := p.entries[..n]), r.(entries := [p.entries[n]] + r.entries);
            && lp.entries + rp.entries == p.entries + r.entries
            && LeafNode(lp) == LeafNode(p).(keys := LeafNode(p).keys[..n], records := LeafNode(p).records[..n])
            && LeafNode(rp) == LeafNode(r).(keys := [LeafNode(p).keys[n]] + LeafNode(r).keys,
                                            records := [LeafNode(p).records[n]] + LeafNode(r).records)
  {
    var n := |p.entries| - 1;
    assert p.entries == p.entries[..n] + [p.entries[n]];
  }

  /** The first entry of one leaf becomes the last of the one before. */
  lemma GiveFirst(l: LeafPage, p: LeafPage)
    requires p.entries != []
    ensures var lp, rp := l.(entries := l.entries + [p.entries[0]]), p.(entries := p.entries[1..]);
            && lp.entries + rp.entries == l.entries + p.entries
            && LeafNode(lp) == LeafNode(l).(keys := LeafNode(l).keys + [LeafNode(p).keys[0]],
                                            records := LeafNode(l).records + [LeafNode(p).records[0]])
            && LeafNode(rp) == LeafNode(p).(keys := LeafNode(p).keys[1..], records := LeafNode(p).records[1..])
  {
    assert p.entries == [p.entries[0]] + p.entries[1..];
  }

  lemma TwoPages(f: Family, lp: LeafPage, rp: LeafPage, parent: Node)
    requires IsParent(parent, f, [lp.id, rp.id])
    ensures IsBranch(parent, f.pid, IdSeq((f.before + [Leaf(lp), Leaf(rp)]) + f.after))
  {
    TwoSeps(Leaf(lp), Leaf(rp));
    ParentRebuilt(parent, f, [Leaf(lp), Leaf(rp)], f.before + [Leaf(lp), Leaf(rp)]);
  }

  /** Two leaves become three. */
  lemma ThreeReflowed(s: Store, f: Family, lp: LeafPage, mp: LeafPage, rp: LeafPage,
                      path: seq<PageId>, ls: seq<LeafPage>, c: Caps)
    requires Steady(s, f, path, ls, c) && f.loose == [] && f.h == 1 && |f.pend| == 2
    requires f.open == multiset{lp.id, mp.id, rp.id}
    requires lp.id == f.pend[0].id && rp.next == f.pend[1].next && lp.next == mp.id && mp.next == rp.id
    requires lp.entries + mp.entries + rp.entries == f.pend[0].entries + f.pend[1].entries
    requires c.HalfLeaf() <= |lp.entries| <= c.leaf && c.HalfLeaf() <= |mp.entries| <= c.leaf
             && c.HalfLeaf() <= |rp.entries| <= c.leaf
    requires f.pend[0].entries != []
    ensures lp.id < |s.nodes| && mp.id < |s.nodes| && rp.id < |s.nodes|
    ensures var g := f.(pend := [lp, mp, rp]);
            var g' := f.(before := f.before + [Leaf(lp), Leaf(mp), Leaf(rp)], open := multiset{}, pend := []);
            && Similar(ls, AllLeaves(g))
            && Steady(s.(nodes := s.nodes[lp.id := LeafNode(lp)][mp.id := LeafNode(mp)][rp.id := LeafNode(rp)]), g',
                      path, AllLeaves(g), c)
            && HeadKey(g') == HeadKey(f)
  {
    hide AllLeaves, HeadKey, Similar, Keys, Records, Flat;
    var g := f.(pend := [lp, mp, rp]);
    assert f.pend == [f.pend[0], f.pend[1]];
    FlatThree(lp, mp, rp);
    FlatTwo(f.pend[0], f.pend[1]);
    SteadyOk(s, f, path, ls, c);
    hide Steady;
    SteadyReflowed(s, f, [lp, mp, rp], path, ls, c);
    SteadyThree(s, g, Leaf(lp), Leaf(mp), Leaf(rp), path, AllLeaves(g), c);
  }

  /** The items of two neighbouring leaves are already sorted. */
  lemma ItemsSorted(s: Store, f: Family, lp: LeafPage, rp: LeafPage, path: seq<PageId>, ls: seq<LeafPage>, c: Caps,
                    kind: KeyKind)
    requires Steady(s, f, path, ls, c) && f.loose == [] && f.pend == [lp, rp] && Ordered(Flat(ls), kind)
    ensures var items := Zip(Keys(lp.entries) + Keys(rp.entries), Records(lp.entries) + Records(rp.entries));
            && items == lp.entries + rp.entries && Ordered(items, kind)
            && (forall i, j :: 0 <= i < |items| && 0 <= j < |items| ==> items[i].key.IntKey? == items[j].key.IntKey?)
            && SortByKey(items) == items
  {
    hide Steady, Ordered, SortByKey, Flat;
    PendOrdered(s, f, path, ls, c, kind);
    FlatTwo(lp, rp);
    OrderedSortable(lp.entries + rp.entries, kind);
    SortedStays(lp.entries + rp.entries, kind);
    assert Zip(Keys(lp.entries) + Keys(rp.entries), Records(lp.entries) + Records(rp.entries))
           == lp.entries + rp.entries;
  }

  lemma OrderedSortable(items: seq<Entry>, kind: KeyKind)
    requires Ordered(items, kind)
    ensures forall i, j :: 0 <= i < |items| && 0 <= j < |items| ==> items[i].key.IntKey? == items[j].key.IntKey?
  {
  }

  lemma Ends<T>(s: seq<T>, a: nat, b: nat)
    requires a <= |s| && b <= |s|
    ensures s[0..a] == s[..a] && s[b..|s|] == s[b..]
  {
  }

  function EntriesOf(t: Tree): seq<Entry> {
    if t.Leaf? then t.page.entries else []
  }

  lemma Thirds<T>(s: seq<T>, a: nat, b: nat)
    requires a <= b <= |s|
    ensures s[..a] + s[a..b] + s[b..] == s
  {
  }

  /** The root leaf falls into two halves. */
  lemma RootLeafHalves(s: Store, p: LeafPage, at: nat, right: PageId, path: seq<PageId>, ls: seq<LeafPage>, c: Caps)
    requires Steady(s, Gathered(Top, p.id, [], [p], 0), path, ls, c) && at <= |p.entries|
    ensures var lp, rp := LeafPage(p.id, p.entries[..at], right), LeafPage(right, p.entries[at..], p.next);
            && Similar(ls, Leaves(Leaf(lp)) + Leaves(Leaf(rp))) && ls == [p]
  {
    GatheredLeaves(Top, p.id, [], [p], 0);
    var lp, rp := LeafPage(p.id, p.entries[..at], right), LeafPage(right, p.entries[at..], p.next);
    FlatOne(p);
    FlatTwo(lp, rp);
    assert p.entries == p.entries[..at] + p.entries[at..];
    assert Reflows([p], [lp, rp]);
    Reflowed([], [p], [lp, rp], []);
    assert [] + [p] + [] == [p] == ls && [] + [lp, rp] + [] == [lp, rp];
  }

  lemma LeafMin(p: LeafPage)
    requires p.entries != []
    ensures MinKey(Leaf(p)) == p.entries[0].key
  {
  }

  /** New contents for the two leaf pages of a pair. */
  ghost predicate Reshared(f: Family, lp: LeafPage, rp: LeafPage, c: Caps) {
    && f.h == 1 && f.loose == [] && |f.pend| == 2 && f.open == multiset{lp.id, rp.id} && f.pend[0].entries != []
    && lp.id == f.pend[0].id && rp.id == f.pend[1].id
    && rp.next == f.pend[1].next && (lp.next == f.pend[0].next || lp.next == rp.id)
    && lp.entries + rp.entries == f.pend[0].entries + f.pend[1].entries
    && c.HalfLeaf() <= |lp.entries| <= c.leaf && c.HalfLeaf() <= |rp.entries| <= c.leaf
  }

  /** The left leaf gives its last entry. */
  lemma SharedLast(f: Family, parent: Node, lp: LeafPage, rp: LeafPage, c: Caps)
    requires IsLeafPair(f, LeafNode(lp), LeafNode(rp), parent, lp, rp, c)
    requires c.HalfLeaf() < |lp.entries| <= c.leaf + 1 && c.HalfLeaf() - 1 <= |rp.entries| < c.leaf
    ensures var n := |lp.entries| - 1; var l, r := LeafNode(lp), LeafNode(rp);
            var lp', rp' := lp.(entries := lp.entries[..n]), rp.(entries := [lp.entries[n]] + rp.entries);
            && Reshared(f, lp', rp', c) && IsParent(parent, f, [lp'.id, rp'.id])
            && |l.keys| == |l.records| == n + 1
            && LeafNode(lp') == l.(keys := l.keys[..n], records := l.records[..n])
            && LeafNode(rp') == r.(keys := [l.keys[n]] + r.keys, records := [l.records[n]] + r.records)
  {
    GiveLast(lp, rp);
  }

  /** The right leaf gives its first entry. */
  lemma SharedFirst(f: Family, parent: Node, lp: LeafPage, rp: LeafPage, c: Caps)
    requires IsLeafPair(f, LeafNode(lp), LeafNode(rp), parent, lp, rp, c)
    requires c.HalfLeaf() < |rp.entries| <= c.leaf + 1 && c.HalfLeaf() - 1 <= |lp.entries| < c.leaf
    ensures var l, r := LeafNode(lp), LeafNode(rp);
            var lp', rp' := lp.(entries := lp.entries + [rp.entries[0]]), rp.(entries := rp.entries[1..]);
            && Reshared(f, lp', rp', c) && IsParent(parent, f, [lp'.id, rp'.id])
            && |r.keys| == |r.records| == |rp.entries|
            && LeafNode(lp') == l.(keys := l.keys + [r.keys[0]], records := l.records + [r.records[0]])
            && LeafNode(rp') == r.(keys := r.keys[1..], records := r.records[1..])
  {
    GiveFirst(lp, rp);
  }

  /** The two leaves get all their entries anew. */
  lemma SharedAnew(f: Family, parent: Node, lp: LeafPage, rp: LeafPage, items: seq<Entry>, at: nat, c: Caps)
    requires IsLeafPair(f, LeafNode(lp), LeafNode(rp), parent, lp, rp, c)
    requires items == lp.entries + rp.entries && at <= |items|
    requires c.HalfLeaf() <= at <= c.leaf && c.HalfLeaf() <= |items| - at <= c.leaf
    ensures var lp', rp' := LeafPage(lp.id, items[..at], rp.id), rp.(entries := items[at..]);
            Reshared(f, lp', rp', c) && IsParent(parent, f, [lp'.id, rp'.id])
  {
    hide IsParent, LeafNode;
    assert items[..at] + items[at..] == items;
  }

  // ----- two leaves become one -----

  lemma {:induction false} LeafIds(t: Tree, i: nat)
    requires i < |Leaves(t)|
    ensures Leaves(t)[i].id in Ids(t)
    decreases t, 1
  {
    if t.Branch? {
      LeafIdsOf(t.kids, i);
    }
  }

  lemma {:induction false} LeafIdsOf(ts: seq<Tree>, i: nat)
    requires i < |LeavesOf(ts)|
    ensures LeavesOf(ts)[i].id in IdsOf(ts)
    decreases ts, 0
  {
    if i < |Leaves(ts[0])| {
      LeafIds(ts[0], i);
    } else {
      LeafIdsOf(ts[1..], i - |Leaves(ts[0])|);
    }
  }

  lemma {:induction false} LeafIdsBefore(ctx: Ctx)
    ensures LeavesBefore(ctx) != [] ==> LeavesBefore(ctx)[0].id in CtxIds(ctx)
  {
    if ctx.Under? {
      LeafIdsBefore(ctx.up);
      if LeavesBefore(ctx.up) == [] && LeavesOf(ctx.left) != [] {
        LeafIdsOf(ctx.left, 0);
      }
    }
  }

  /** A leaf with a left neighbour under the same parent is not the first leaf. */
  lemma NotFirst(s: Store, f: Family, lp: LeafPage, rp: LeafPage, path: seq<PageId>, ls: seq<LeafPage>, c: Caps)
    requires Steady(s, f, path, ls, c) && f.loose == [] && f.pend == [lp, rp] && f.open == multiset{lp.id, rp.id}
    ensures s.first != rp.id
  {
    hide Around, Row, IdsOf, LeavesOf, Leaves, LeavesBefore, LeavesAfter, CtxIds;
    AllLeavesSplit(f);
    var ids := WorldIds(f.up, f.pid, f.before, f.loose, f.after, f.open);
    assert rp.id in f.open && rp.id in ids;
    assert ids[rp.id] == 1;
    var a := LeavesBefore(f.up) + LeavesOf(f.before);
    if a == [] {
      assert ls[0] == lp;
      assert f.open[rp.id] == 1;
    } else {
      assert ls[0] == a[0];
      LeafIdsBefore(f.up);
      if LeavesBefore(f.up) == [] {
        LeafIdsOf(f.before, 0);
      }
      assert ls[0].id in CtxIds(f.up) + IdsOf(f.before);
      assert ids == (CtxIds(f.up) + IdsOf(f.before)) + (multiset{f.pid} + IdsOf(f.loose) + IdsOf(f.after) + f.open);
    }
  }

  /** One leaf takes the entries of both. */
  lemma MergeReflowed(s: Store, f: Family, lp: LeafPage, rp: LeafPage, path: seq<PageId>, ls: seq<LeafPage>, c: Caps)
    requires Steady(s, f, path, ls, c) && f.loose == [] && f.h == 1 && f.pend == [lp, rp]
             && f.open == multiset{lp.id, rp.id}
    requires c.HalfLeaf() <= |lp.entries| + |rp.entries| <= c.leaf
    ensures lp.id < |s.nodes|
    ensures var mp := LeafPage(lp.id, lp.entries + rp.entries, rp.next);
            var ls' := AllLeaves(f.(pend := [mp]));
            && Similar(ls, ls')
            && Steady(s.(nodes := s.nodes[mp.id := LeafNode(mp)]),
                      Gathered(f.up, f.pid, (f.before + [Leaf(mp)]) + f.after, [], 1), path, ls', c)
  {
    hide AllLeaves, HeadKey, Similar, Keys, Records, Flat;
    var mp := LeafPage(lp.id, lp.entries + rp.entries, rp.next);
    FlatOne(mp);
    FlatTwo(lp, rp);
    hide Steady;
    SteadyReflowed(s, f, [mp], path, ls, c);
    SteadyMerged(s, f.(pend := [mp]), Leaf(mp), rp.id, path, AllLeaves(f.(pend := [mp])), c);
  }

  lemma LeafNodeJoin(lp: LeafPage, rp: LeafPage)
    ensures LeafNode(LeafPage(lp.id, lp.entries + rp.entries, rp.next))
         == LeafNode(lp).(keys := LeafNode(lp).keys + LeafNode(rp).keys,
                          records := LeafNode(lp).records + LeafNode(rp).records, nextLeaf := rp.next)
  {
  }
}
