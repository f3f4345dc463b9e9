/** Finding the way down by comparing keys, and what changing one leaf does to the whole. */
module TreeSearch {
  import opened IndexTypes
  import opened Sequences
  import opened KeyOrder
  import opened TreeModel
  import opened TreeSteps
  import opened TreeMoves
  import opened LeafMoves

  // ----- sorted vectors of keys -----

  ghost predicate OfKind(keys: seq<IndexKey>, kind: KeyKind) {
    forall i :: 0 <= i < |keys| ==> KeyMatchesKind(keys[i], kind)
  }

  /** std::upper_bound: the first position whose key is above key. */
  function UpperBound(keys: seq<IndexKey>, key: IndexKey): (i: nat)
    requires forall j :: 0 <= j < |keys| ==> keys[j].IntKey? == key.IntKey?
    ensures i <= |keys|
    ensures forall j :: 0 <= j < i ==> !KeyLess(key, keys[j])
    ensures i < |keys| ==> KeyLess(key, keys[i])
  {
    if keys == [] || KeyLess(key, keys[0]) then 0 else 1 + UpperBound(keys[1..], key)
  }

  /** std::lower_bound: the first position whose key is not below key. */
  function LowerBound(keys: seq<IndexKey>, key: IndexKey): (i: nat)
    requires forall j :: 0 <= j < |keys| ==> keys[j].IntKey? == key.IntKey?
    ensures i <= |keys|
    ensures forall j :: 0 <= j < i ==> KeyLess(keys[j], key)
    ensures i < |keys| ==> !KeyLess(keys[i], key)
  {
    if keys == [] || !KeyLess(keys[0], key) then 0 else 1 + LowerBound(keys[1..], key)
  }

  ghost predicate AllBelow(es: seq<Entry>, key: IndexKey) {
    forall i :: 0 <= i < |es| ==> Rank(es[i].key) < Rank(key)
  }

  ghost predicate AllAbove(es: seq<Entry>, key: IndexKey) {
    forall i :: 0 <= i < |es| ==> Rank(key) < Rank(es[i].key)
  }

  lemma RanksAround(es: seq<Entry>, i: nat, key: IndexKey, kind: KeyKind)
    requires Ordered(es, kind) && i <= |es|
    requires forall j :: 0 <= j < i ==> Rank(es[j].key) < Rank(key)
    requires i < |es| ==> Rank(es[i].key) >= Rank(key)
    ensures AllBelow(es[..i], key)
    ensures i < |es| && Rank(es[i].key) == Rank(key) ==> AllAbove(es[i + 1..], key)
    ensures i == |es| || Rank(es[i].key) > Rank(key) ==> AllAbove(es[i..], key)
  {
    forall j | i <= j < |es|
      ensures Rank(key) <= Rank(es[j].key) && (j > i ==> Rank(key) < Rank(es[j].key))
    {
    }
  }

  lemma SameKinds(es: seq<Entry>, key: IndexKey, kind: KeyKind)
    requires Ordered(es, kind) && KeyMatchesKind(key, kind)
    ensures forall j :: 0 <= j < |es| ==> es[j].key.IntKey? == key.IntKey?
  {
  }

  /** Where a leaf holds a key, or would hold it. */
  lemma LowerBoundInLeaf(es: seq<Entry>, key: IndexKey, kind: KeyKind)
    requires Ordered(es, kind) && KeyMatchesKind(key, kind)
    ensures forall j :: 0 <= j < |es| ==> Keys(es)[j].IntKey? == key.IntKey?
    ensures var i := LowerBound(Keys(es), key);
            && i <= |es| && AllBelow(es[..i], key)
            && (if i < |es| && es[i].key == key then AllAbove(es[i + 1..], key) else AllAbove(es[i..], key))
  {
    SameKinds(es, key, kind);
    var i := LowerBound(Keys(es), key);
    hide LowerBound, KeyLess, Rank, Ordered, KeyMatchesKind;
    forall j | 0 <= j < |es|
      ensures KeyLess(Keys(es)[j], key) <==> Rank(es[j].key) < Rank(key)
      ensures es[j].key == key <==> Rank(es[j].key) == Rank(key)
    {
      KeyLessIsRank(es[j].key, key);
    }
    RanksAround(es, i, key, kind);
  }

  // ----- descending -----

  /** The subtree t sits at the end of path in the tree whole. */
  ghost predicate Descending(nodes: seq<Node>, whole: Tree, height: nat, ctx: Ctx, t: Tree, h: int, path: seq<PageId>,
                             c: Caps) {
    && c.Ok() && whole == Plug(ctx, t) && height == h + Depth(ctx) && path == PathOf(ctx) + [Id(t)]
    && Around(nodes, ctx, Id(t), h, c) && Exact(ctx, MinKey(t))
    && Stored(nodes, t) && Placed(t, ctx, h, c)
  }

  /** All keys to the left of the subtree are below key, all to the right above it, and unless the
      subtree is the leftmost one its own keys start at or below key. */
  ghost predicate Narrowed(ctx: Ctx, t: Tree, key: IndexKey) {
    && AllBelow(Flat(LeavesBefore(ctx)), key) && AllAbove(Flat(LeavesAfter(ctx)), key)
    && (Leftmost(ctx) || Rank(MinKey(t)) <= Rank(key))
  }

  function Below(ctx: Ctx, t: Tree, i: nat): Ctx
    requires t.Branch? && i < |t.kids|
  {
    Under(t.pid, t.kids[..i], t.kids[i + 1..], MinKey(t.kids[i]), ctx)
  }

  lemma KidsSplit(ks: seq<Tree>, i: nat)
    requires i < |ks|
    ensures ks == ks[..i] + [ks[i]] + ks[i + 1..]
  {
  }

  lemma Descended(nodes: seq<Node>, whole: Tree, height: nat, ctx: Ctx, t: Tree, h: int, path: seq<PageId>, i: nat,
                  c: Caps)
    requires Descending(nodes, whole, height, ctx, t, h, path, c) && t.Branch? && i < |t.kids|
    ensures Descending(nodes, whole, height, Below(ctx, t, i), t.kids[i], h - 1, path + [Id(t.kids[i])], c)
  {
    hide LeavesOf, Leaves, Ids, IdsOf, IdSeq, Seps, MinKeys;
    var k := t.kids[i];
    KidsSplit(t.kids, i);
    FrameIsBranch(t.pid, t.kids[..i], k, t.kids[i + 1..]);
    if i > 0 {
      assert t.kids[..i][0] == t.kids[0];
    }
  }

  lemma SepsOrdered(t: Tree, h: int, c: Caps, kind: KeyKind)
    requires c.Ok() && t.Branch? && (Shape(t, h, c) || RootShape(t, h, c)) && Ordered(Flat(Leaves(t)), kind)
    ensures OfKind(Seps(t.kids), kind)
  {
    forall i | 0 <= i < |t.kids|
      ensures KeyMatchesKind(MinKey(t.kids[i]), kind)
    {
      KidOrdered(t, i, h, c, kind);
    }
  }

  /** The entries of one child among those of its parent. */
  lemma KidOrdered(t: Tree, i: nat, h: int, c: Caps, kind: KeyKind)
    requires c.Ok() && t.Branch? && (Shape(t, h, c) || RootShape(t, h, c)) && i < |t.kids|
    requires Ordered(Flat(Leaves(t)), kind)
    ensures Flat(Leaves(t)) == Flat(LeavesOf(t.kids[..i])) + Flat(Leaves(t.kids[i])) + Flat(LeavesOf(t.kids[i + 1..]))
    ensures Ordered(Flat(Leaves(t.kids[i])), kind)
    ensures Flat(Leaves(t.kids[i])) != [] && Flat(Leaves(t.kids[i]))[0].key == MinKey(t.kids[i])
    ensures KeyMatchesKind(MinKey(t.kids[i]), kind)
  {
    LeavesHead(t.kids[i], h - 1, c);
    KidsSplit(t.kids, i);
    LeavesOfSurrounded(t.kids[..i], t.kids[i], t.kids[i + 1..]);
    hide Leaves, LeavesOf, Shape, RootShape, Ordered, MinKey;
    FlatAppend(LeavesOf(t.kids[..i]) + Leaves(t.kids[i]), LeavesOf(t.kids[i + 1..]));
    FlatAppend(LeavesOf(t.kids[..i]), Leaves(t.kids[i]));
    OrderedSlice(Flat(LeavesOf(t.kids[..i])), Flat(Leaves(t.kids[i])), Flat(LeavesOf(t.kids[i + 1..])), kind);
    OrderedHead(Flat(Leaves(t.kids[i])), kind);
  }

  lemma OrderedHead(es: seq<Entry>, kind: KeyKind)
    requires Ordered(es, kind) && es != []
    ensures KeyMatchesKind(es[0].key, kind)
  {
  }

  /** In ordered entries everything before a part is below its first key. */
  lemma OrderedParts(a: seq<Entry>, b: seq<Entry>, kind: KeyKind)
    requires Ordered(a + b, kind) && b != []
    ensures AllBelow(a, b[0].key)
    ensures forall j :: 0 <= j < |b| ==> Rank(b[0].key) <= Rank(b[j].key)
  {
    var es := a + b;
    assert es[|a|] == b[0];
    forall j | 0 <= j < |a|
      ensures Rank(a[j].key) < Rank(b[0].key)
    {
      assert es[j] == a[j];
    }
    forall j | 0 <= j < |b|
      ensures Rank(b[0].key) <= Rank(b[j].key)
    {
      assert es[|a| + j] == b[j];
    }
  }

  lemma AfterStartsWith(t: Tree, i: nat, h: int, c: Caps)
    requires c.Ok() && t.Branch? && (Shape(t, h, c) || RootShape(t, h, c)) && i < |t.kids| - 1
    ensures Flat(LeavesOf(t.kids[i + 1..])) != [] && Flat(LeavesOf(t.kids[i + 1..]))[0].key == MinKey(t.kids[i + 1])
  {
    var rest := t.kids[i + 1..];
    assert rest[0] == t.kids[i + 1];
    LeavesHead(rest[0], h - 1, c);
    FlatAppend(Leaves(rest[0]), LeavesOf(rest[1..]));
  }

  lemma BeforeUpper(t: Tree, i: nat, key: IndexKey, h: int, c: Caps, kind: KeyKind)
    requires c.Ok() && t.Branch? && (Shape(t, h, c) || RootShape(t, h, c)) && Ordered(Flat(Leaves(t)), kind)
    requires 0 < i < |t.kids| && Rank(MinKey(t.kids[i])) <= Rank(key)
    ensures AllBelow(Flat(LeavesOf(t.kids[..i])), key)
  {
    var before, own, after := Flat(LeavesOf(t.kids[..i])), Flat(Leaves(t.kids[i])), Flat(LeavesOf(t.kids[i + 1..]));
    KidOrdered(t, i, h, c, kind);
    hide Leaves, LeavesOf, Shape, RootShape, Ordered, MinKey, Flat;
    assert before + own + after == before + (own + after);
    assert (own + after)[0] == own[0];
    OrderedParts(before, own + after, kind);
  }

  lemma AfterUpper(t: Tree, i: nat, key: IndexKey, h: int, c: Caps, kind: KeyKind)
    requires c.Ok() && t.Branch? && (Shape(t, h, c) || RootShape(t, h, c)) && Ordered(Flat(Leaves(t)), kind)
    requires i < |t.kids| - 1 && Rank(key) < Rank(MinKey(t.kids[i + 1]))
    ensures AllAbove(Flat(LeavesOf(t.kids[i + 1..])), key)
  {
    var before, own, after := Flat(LeavesOf(t.kids[..i])), Flat(Leaves(t.kids[i])), Flat(LeavesOf(t.kids[i + 1..]));
    KidOrdered(t, i, h, c, kind);
    AfterStartsWith(t, i, h, c);
    hide Leaves, LeavesOf, Shape, RootShape, Ordered, MinKey, Flat;
    OrderedParts(before + own, after, kind);
  }

  /** Following the upper bound keeps the search narrowed. */
  lemma NarrowedBelow(ctx: Ctx, t: Tree, key: IndexKey, h: int, c: Caps, kind: KeyKind)
    requires c.Ok() && t.Branch? && (Shape(t, h, c) || RootShape(t, h, c)) && Narrowed(ctx, t, key)
    requires Ordered(Flat(Leaves(t)), kind) && KeyMatchesKind(key, kind)
    ensures OfKind(Seps(t.kids), kind)
    ensures var i := UpperBound(Seps(t.kids), key);
            i < |t.kids| && Narrowed(Below(ctx, t, i), t.kids[i], key) && Ordered(Flat(Leaves(t.kids[i])), kind)
  {
    SepsOrdered(t, h, c, kind);
    var seps := Seps(t.kids);
    var i := UpperBound(seps, key);
    KidOrdered(t, i, h, c, kind);
    if i > 0 {
      assert seps[i - 1] == MinKey(t.kids[i]);
      KeyLessIsRank(key, seps[i - 1]);
      BeforeUpper(t, i, key, h, c, kind);
    }
    if i < |t.kids| - 1 {
      assert seps[i] == MinKey(t.kids[i + 1]);
      KeyLessIsRank(key, seps[i]);
      AfterUpper(t, i, key, h, c, kind);
    }
    NarrowedStep(ctx, t, i, key);
  }

  lemma NarrowedStep(ctx: Ctx, t: Tree, i: nat, key: IndexKey)
    requires t.Branch? && i < |t.kids| && Narrowed(ctx, t, key)
    requires i > 0 ==> AllBelow(Flat(LeavesOf(t.kids[..i])), key) && Rank(MinKey(t.kids[i])) <= Rank(key)
    requires i + 1 < |t.kids| ==> AllAbove(Flat(LeavesOf(t.kids[i + 1..])), key)
    ensures Narrowed(Below(ctx, t, i), t.kids[i], key)
  {
    var a, b := LeavesOf(t.kids[..i]), LeavesOf(t.kids[i + 1..]);
    assert i == 0 ==> t.kids[..i] == [];
    assert i == |t.kids| - 1 ==> t.kids[i + 1..] == [];
    hide LeavesOf, Leaves;
    FlatAppend(LeavesBefore(ctx), a);
    FlatAppend(b, LeavesAfter(ctx));
    JoinBounds(Flat(LeavesBefore(ctx)), Flat(a), key);
    JoinBounds(Flat(b), Flat(LeavesAfter(ctx)), key);
  }

  lemma JoinBounds(a: seq<Entry>, b: seq<Entry>, key: IndexKey)
    ensures AllBelow(a, key) && AllBelow(b, key) ==> AllBelow(a + b, key)
    ensures AllAbove(a, key) && AllAbove(b, key) ==> AllAbove(a + b, key)
  {
  }

  /** Where the descent starts. */
  lemma DescentStart(nodes: seq<Node>, whole: Tree, height: nat, key: IndexKey, c: Caps)
    requires c.Ok() && Stored(nodes, whole) && RootShape(whole, height, c)
    ensures Descending(nodes, whole, height, Top, whole, height, [Id(whole)], c) && Narrowed(Top, whole, key)
  {
    assert Flat([]) == [];
  }

  lemma DescentStored(nodes: seq<Node>, whole: Tree, height: nat, ctx: Ctx, t: Tree, h: int, path: seq<PageId>, c: Caps)
    requires Descending(nodes, whole, height, ctx, t, h, path, c)
    ensures Id(t) < |nodes| && nodes[Id(t)] == Image(t) && (Shape(t, h, c) || RootShape(t, h, c)) && c.Ok()
  {
  }

  // ----- one leaf and the whole -----

  /** At the bottom: the leaf as the one pending page of an otherwise complete tree. */
  lemma DescentEnd(s: Store, whole: Tree, ctx: Ctx, p: LeafPage, h: int, path: seq<PageId>, c: Caps)
    requires Descending(s.nodes, whole, s.height, ctx, Leaf(p), h, path, c) && |s.nodes| <= MAX_PAGES
    requires Distinct(Ids(whole), |s.nodes|) && s.root == Id(whole) && Leaves(whole) != []
             && s.first == Leaves(whole)[0].id
    ensures h == 1 && Steady(s, Gathered(ctx, p.id, [], [p], 0), path, Leaves(whole), c)
    ensures |path| == s.height && p.entries != [] && |p.entries| <= c.leaf
    ensures ctx.Under? ==> c.HalfLeaf() <= |p.entries|
    ensures Leaves(whole) == LeavesBefore(ctx) + [p] + LeavesAfter(ctx)
    ensures Exact(ctx, p.entries[0].key) && HeadKey(Gathered(ctx, p.id, [], [p], 0)) == p.entries[0].key
  {
    DescentLeaf(s.nodes, whole, s.height, ctx, p, h, path, c);
    PlugLeaves(ctx, Leaf(p));
    PlugPath(ctx, Leaf(p));
    LeafOnly(p);
    hide *;
    DescentSteady(s, whole, ctx, p, path, c);
  }

  lemma LeafOnly(p: LeafPage)
    ensures Leaves(Leaf(p)) == [p] && Id(Leaf(p)) == p.id
  {
  }

  lemma DescentSteady(s: Store, whole: Tree, ctx: Ctx, p: LeafPage, path: seq<PageId>, c: Caps)
    requires c.Ok() && whole == Plug(ctx, Leaf(p)) && s.height == 1 + Depth(ctx) && path == PathOf(ctx) + [p.id]
    requires Around(s.nodes, ctx, p.id, 1, c) && |s.nodes| <= MAX_PAGES && s.root == path[0]
    requires Distinct(Ids(whole), |s.nodes|) && Leaves(whole) != [] && s.first == Leaves(whole)[0].id
    ensures Steady(s, Gathered(ctx, p.id, [], [p], 0), path, Leaves(whole), c)
  {
    PlugLeaves(ctx, Leaf(p));
    LeafIdsAlone(ctx, p);
    GatheredLeaves(ctx, p.id, [], [p], 0);
    assert LeavesOf([]) + [p] == [p];
    EmptyRow(s.nodes, c);
    hide Leaves, LeavesOf, LeavesBefore, LeavesAfter, Ids, IdsOf, CtxIds, Plug, AllLeaves, WorldIds, Around, Depth,
         Row, PathOf, Distinct;
  }

  lemma EmptyRow(nodes: seq<Node>, c: Caps)
    ensures forall h :: Row(nodes, [], h, c)
  {
  }

  lemma DescentLeaf(nodes: seq<Node>, whole: Tree, height: nat, ctx: Ctx, p: LeafPage, h: int, path: seq<PageId>,
                    c: Caps)
    requires Descending(nodes, whole, height, ctx, Leaf(p), h, path, c)
    ensures c.Ok() && whole == Plug(ctx, Leaf(p)) && h == 1 && height == 1 + Depth(ctx) && path == PathOf(ctx) + [p.id]
    ensures Around(nodes, ctx, p.id, 1, c) && p.entries != [] && |p.entries| <= c.leaf
    ensures ctx.Under? ==> c.HalfLeaf() <= |p.entries|
    ensures Exact(ctx, p.entries[0].key) && HeadKey(Gathered(ctx, p.id, [], [p], 0)) == p.entries[0].key
  {
  }

  lemma FlatAround(ctx: Ctx, p: LeafPage)
    ensures Flat(LeavesBefore(ctx) + [p] + LeavesAfter(ctx))
            == Flat(LeavesBefore(ctx)) + p.entries + Flat(LeavesAfter(ctx))
  {
    FlatAppend(LeavesBefore(ctx) + [p], LeavesAfter(ctx));
    FlatAppend(LeavesBefore(ctx), [p]);
    FlatOne(p);
  }

  /** The leaf in memory gets other entries; nothing else changes yet. */
  lemma LeafEdited(s: Store, ctx: Ctx, p: LeafPage, es: seq<Entry>, path: seq<PageId>, ls: seq<LeafPage>, c: Caps)
    requires Steady(s, Gathered(ctx, p.id, [], [p], 0), path, ls, c)
    ensures var p' := p.(entries := es); var ls' := LeavesBefore(ctx) + [p'] + LeavesAfter(ctx);
            && Steady(s, Gathered(ctx, p.id, [], [p'], 0), path, ls', c)
            && (Chain(ls) ==> Chain(ls')) && ls'[0].id == ls[0].id
  {
    hide World, Around, LeavesBefore, LeavesAfter, AllLeaves;
    var p' := p.(entries := es);
    GatheredLeaves(ctx, p.id, [], [p], 0);
    GatheredLeaves(ctx, p.id, [], [p'], 0);
    assert LeavesOf([]) + [p] == [p] && LeavesOf([]) + [p'] == [p'];
    var ls' := LeavesBefore(ctx) + [p'] + LeavesAfter(ctx);
    assert |ls'| == |ls| && forall i :: 0 <= i < |ls| ==> ls'[i].id == ls[i].id && ls'[i].next == ls[i].next;
  }

  lemma LeafIdsAlone(ctx: Ctx, p: LeafPage)
    ensures CtxIds(ctx) + multiset{p.id} + IdsOf([]) == CtxIds(ctx) + Ids(Leaf(p))
    ensures WorldIds(ctx, p.id, [], [], [], multiset{}) == CtxIds(ctx) + Ids(Leaf(p))
    ensures Ids(Leaf(p)) == multiset{p.id}
  {
  }

  /** The edited leaf is written. */
  lemma LeafWritten(s: Store, ctx: Ctx, p: LeafPage, path: seq<PageId>, ls: seq<LeafPage>, c: Caps)
    requires Steady(s, Gathered(ctx, p.id, [], [p], 0), path, ls, c)
    requires Placed(Leaf(p), ctx, 1, c)
    ensures p.id < |s.nodes|
    ensures Focus(s.nodes[p.id := LeafNode(p)], s.root, s.first, s.height, ctx, Leaf(p), 1, path, ls, c)
  {
    GatheredLeaves(ctx, p.id, [], [p], 0);
    assert LeavesOf([]) + [p] == [p];
    LeafIdsAlone(ctx, p);
    hide LeavesOf, Row, Shape, LeavesBefore, LeavesAfter, AllLeaves, Keys, Records, IdsOf, CtxIds, WorldIds, Around,
         Exact, FrameNode, FrameKeys, PathOf;
    SumCommutes(CtxIds(ctx), multiset{p.id});
    OneChange(s.nodes, p.id, LeafNode(p), CtxIds(ctx));
    AroundFrame(s.nodes, s.nodes[p.id := LeafNode(p)], ctx, p.id, 1, c);
  }

  lemma SumCommutes(a: multiset<PageId>, b: multiset<PageId>)
    ensures a + b == b + a
  {
  }

  // ----- entries as a map -----

  function AsMap(es: seq<Entry>): map<IndexKey, Record> {
    if es == [] then map[] else AsMap(es[1..])[es[0].key := es[0].rec]
  }

  lemma {:induction false} AsMapHas(es: seq<Entry>, key: IndexKey)
    ensures key in AsMap(es) <==> exists i :: 0 <= i < |es| && es[i].key == key
  {
    if es != [] {
      AsMapHas(es[1..], key);
      if key in AsMap(es[1..]) {
        var i :| 0 <= i < |es[1..]| && es[1..][i].key == key;
        assert es[i + 1].key == key;
      }
      if i :| 0 <= i < |es| && es[i].key == key {
        if i > 0 { assert es[1..][i - 1].key == key; }
      }
    }
  }

  lemma {:induction false} AsMapGet(es: seq<Entry>, i: nat, kind: KeyKind)
    requires Ordered(es, kind) && i < |es|
    ensures es[i].key in AsMap(es) && AsMap(es)[es[i].key] == es[i].rec
  {
    if i > 0 {
      AsMapGet(es[1..], i - 1, kind);
      assert Rank(es[0].key) < Rank(es[i].key);
    }
  }

  /** The key lies in the gap between two parts. */
  lemma GapOrdered(a: seq<Entry>, e: Entry, b: seq<Entry>, kind: KeyKind)
    requires Ordered(a + b, kind) && AllBelow(a, e.key) && AllAbove(b, e.key) && KeyMatchesKind(e.key, kind)
    ensures Ordered(a + [e] + b, kind)
  {
    var es, es' := a + b, a + [e] + b;
    var n := |a|;
    assert forall i :: 0 <= i < n ==> es'[i] == a[i] && es[i] == a[i];
    assert forall i :: n < i < |es'| ==> es'[i] == b[i - n - 1] && es'[i] == es[i - 1];
    assert es'[n] == e;
    forall i | 0 <= i < |es'|
      ensures KeyMatchesKind(es'[i].key, kind)
    {
      if i > n { assert es'[i] == es[i - 1]; }
    }
    forall i, j | 0 <= i < j < |es'|
      ensures Rank(es'[i].key) < Rank(es'[j].key)
    {
      var i', j' := if i > n then i - 1 else i, if j > n then j - 1 else j;
      assert i != n ==> es'[i] == es[i'];
      assert j != n ==> es'[j] == es[j'];
    }
  }

  lemma {:induction false} GapMap(a: seq<Entry>, e: Entry, b: seq<Entry>)
    requires AllBelow(a, e.key) && AllAbove(b, e.key)
    ensures e.key !in AsMap(a + b) && AsMap(a + [e] + b) == AsMap(a + b)[e.key := e.rec]
  {
    if a == [] {
      GapFirst(e, b);
      hide AsMap;
      assert a + b == b && a + [e] + b == [e] + b;
    } else {
      var rest := a[1..];
      assert Rank(a[0].key) < Rank(e.key) && a[0].key != e.key && AllBelow(rest, e.key);
      hide AsMap, AllBelow, AllAbove, Rank;
      GapMap(rest, e, b);
      assert (a + b)[1..] == rest + b && (a + [e] + b)[1..] == rest + [e] + b;
      AsMapCons(a + b);
      AsMapCons(a + [e] + b);
      SwapUpdates(AsMap(rest + b), e, a[0]);
    }
  }

  lemma GapFirst(e: Entry, b: seq<Entry>)
    requires AllAbove(b, e.key)
    ensures e.key !in AsMap(b) && AsMap([e] + b) == AsMap(b)[e.key := e.rec]
  {
    hide AsMap;
    assert forall i :: 0 <= i < |b| ==> b[i].key != e.key;
    hide AllAbove, Rank;
    AsMapHas(b, e.key);
    AsMapCons([e] + b);
    assert ([e] + b)[1..] == b;
  }

  lemma SwapUpdates(m: map<IndexKey, Record>, x: Entry, y: Entry)
    requires x.key != y.key
    ensures (m[x.key := x.rec])[y.key := y.rec] == (m[y.key := y.rec])[x.key := x.rec]
  {
  }

  lemma AsMapCons(es: seq<Entry>)
    requires es != []
    ensures AsMap(es) == AsMap(es[1..])[es[0].key := es[0].rec]
  {
  }

  lemma {:induction false} AsMapSize(es: seq<Entry>, kind: KeyKind)
    requires Ordered(es, kind)
    ensures |AsMap(es)| == |es|
  {
    if es != [] {
      AsMapSize(es[1..], kind);
      AsMapHas(es[1..], es[0].key);
      assert forall i :: 0 <= i < |es[1..]| ==> Rank(es[0].key) < Rank(es[1..][i].key);
      assert AsMap(es).Keys == AsMap(es[1..]).Keys + {es[0].key};
    }
  }

  lemma OrderedWithout(a: seq<Entry>, e: Entry, b: seq<Entry>, kind: KeyKind)
    requires Ordered(a + [e] + b, kind)
    ensures Ordered(a + b, kind) && AllBelow(a, e.key) && AllAbove(b, e.key) && KeyMatchesKind(e.key, kind)
  {
    var es' := a + [e] + b;
    assert es'[|a|] == e;
    assert forall i :: 0 <= i < |a| ==> es'[i] == a[i];
    forall i | 0 <= i < |b|
      ensures b[i] == es'[|a| + 1 + i] && Rank(e.key) < Rank(b[i].key) && KeyMatchesKind(b[i].key, kind)
    {
    }
    forall i, j | 0 <= i < j < |b| ensures Rank(b[i].key) < Rank(b[j].key) {
      assert b[i] == es'[|a| + 1 + i] && b[j] == es'[|a| + 1 + j];
    }
    OrderedJoin(a, e.key, b, kind);
  }

  lemma OrderedJoin(a: seq<Entry>, middle: IndexKey, b: seq<Entry>, kind: KeyKind)
    requires Ordered(a, kind) && Ordered(b, kind) && AllBelow(a, middle) && AllAbove(b, middle)
    ensures Ordered(a + b, kind)
  {
    forall i, j | 0 <= i < j < |a + b| ensures Rank((a + b)[i].key) < Rank((a + b)[j].key) {
      if i < |a| <= j {
        assert Rank(a[i].key) < Rank(middle) < Rank(b[j - |a|].key);
      }
    }
  }

  lemma Around4<T>(before: seq<T>, x: seq<T>, y: seq<T>, after: seq<T>, m: seq<T>)
    ensures before + (x + m + y) + after == (before + x) + m + (y + after)
    ensures before + (x + y) + after == (before + x) + (y + after)
  {
  }

  /** The place of a key among all entries, seen from its leaf. */
  lemma PlaceInWhole(before: seq<Entry>, es: seq<Entry>, after: seq<Entry>, i: nat, e: Entry)
    requires i <= |es| && AllBelow(before, e.key) && AllAbove(after, e.key)
    requires AllBelow(es[..i], e.key) && AllAbove(es[i..], e.key)
    ensures var a, b := before + es[..i], es[i..] + after;
            && AllBelow(a, e.key) && AllAbove(b, e.key)
            && before + es + after == a + b
            && before + (es[..i] + [e] + es[i..]) + after == a + [e] + b
  {
    hide AllBelow, AllAbove;
    JoinBounds(before, es[..i], e.key);
    JoinBounds(es[i..], after, e.key);
    assert es == es[..i] + es[i..];
    Around4(before, es[..i], es[i..], after, [e]);
  }

  /** The key, if present, is in the leaf that the search reached. */
  lemma FoundInLeaf(before: seq<Entry>, es: seq<Entry>, after: seq<Entry>, key: IndexKey, kind: KeyKind)
    requires Ordered(before + es + after, kind) && KeyMatchesKind(key, kind)
    requires AllBelow(before, key) && AllAbove(after, key)
    ensures forall j :: 0 <= j < |es| ==> Keys(es)[j].IntKey? == key.IntKey?
    ensures var i := LowerBound(Keys(es), key); var m := AsMap(before + es + after);
            && i <= |es|
            && (i < |es| && es[i].key == key ==>
                  && key in m && m[key] == es[i].rec
                  && before + es + after == (before + es[..i]) + [es[i]] + (es[i + 1..] + after)
                  && before + (es[..i] + es[i + 1..]) + after == (before + es[..i]) + (es[i + 1..] + after))
            && (i == |es| || es[i].key != key ==> key !in m && AllBelow(es[..i], key) && AllAbove(es[i..], key))
  {
    OrderedSlice(before, es, after, kind);
    LowerBoundInLeaf(es, key, kind);
    hide Ordered, AllBelow, AllAbove, LowerBound;
    var i := LowerBound(Keys(es), key);
    if i < |es| && es[i].key == key {
      assert es == es[..i] + [es[i]] + es[i + 1..];
      Around4(before, es[..i], es[i + 1..], after, [es[i]]);
      var n := |before| + i;
      assert (before + es + after)[n] == es[i];
      AsMapGet(before + es + after, n, kind);
    } else {
      PlaceInWhole(before, es, after, i, Entry(key, 0));
      GapMap(before + es[..i], Entry(key, 0), es[i..] + after);
    }
  }

  // ----- range search -----

  ghost predicate Within(key: IndexKey, beg: IndexKey, end: IndexKey) {
    Rank(beg) <= Rank(key) <= Rank(end)
  }

  /** The entries with keys from beg to end, both included, in order. */
  ghost function InRange(es: seq<Entry>, beg: IndexKey, end: IndexKey): seq<Entry> {
    if es == [] then []
    else (if Within(es[0].key, beg, end) then [es[0]] else []) + InRange(es[1..], beg, end)
  }

  lemma {:induction false} InRangeAppend(a: seq<Entry>, b: seq<Entry>, beg: IndexKey, end: IndexKey)
    ensures InRange(a + b, beg, end) == InRange(a, beg, end) + InRange(b, beg, end)
  {
    if a == [] {
      assert a + b == b;
    } else {
      InRangeAppend(a[1..], b, beg, end);
      TailOfConcat(a, b);
      var first := if Within(a[0].key, beg, end) then [a[0]] else [];
      ConcatAssociative(first, InRange(a[1..], beg, end), InRange(b, beg, end));
    }
  }

  lemma {:induction false} InRangeNothing(es: seq<Entry>, beg: IndexKey, end: IndexKey)
    requires AllBelow(es, beg) || AllAbove(es, end) || Rank(end) < Rank(beg)
    ensures InRange(es, beg, end) == []
  {
    if es != [] {
      assert !Within(es[0].key, beg, end);
      assert AllBelow(es, beg) ==> AllBelow(es[1..], beg);
      assert AllAbove(es, end) ==> AllAbove(es[1..], end);
      InRangeNothing(es[1..], beg, end);
    }
  }

  /** The range holds exactly the entries whose keys lie in it, in ascending order. */
  lemma {:induction false} InRangeMeaning(es: seq<Entry>, beg: IndexKey, end: IndexKey, kind: KeyKind)
    requires Ordered(es, kind)
    ensures forall e :: e in InRange(es, beg, end) <==> e in es && Within(e.key, beg, end)
    ensures Ordered(InRange(es, beg, end), kind)
  {
    if es != [] {
      var rest := InRange(es[1..], beg, end);
      InRangeMeaning(es[1..], beg, end, kind);
      InRangeHead(es, beg, end);
      FirstIsLeast(es, kind);
      hide InRange, Within, Ordered;
      assert forall e :: e in es <==> e == es[0] || e in es[1..];
      LeastBefore(es[0], rest, es[1..], kind);
    }
  }

  lemma FirstIsLeast(es: seq<Entry>, kind: KeyKind)
    requires Ordered(es, kind) && es != []
    ensures KeyMatchesKind(es[0].key, kind) && forall e :: e in es[1..] ==> Rank(es[0].key) < Rank(e.key)
  {
  }

  lemma LeastBefore(first: Entry, rest: seq<Entry>, all: seq<Entry>, kind: KeyKind)
    requires Ordered(rest, kind) && KeyMatchesKind(first.key, kind)
    requires forall e :: e in rest ==> e in all
    requires forall e :: e in all ==> Rank(first.key) < Rank(e.key)
    ensures Ordered([first] + rest, kind)
  {
  }

  lemma InRangeHead(es: seq<Entry>, beg: IndexKey, end: IndexKey)
    requires es != []
    ensures InRange(es, beg, end) ==
            if Within(es[0].key, beg, end) then [es[0]] + InRange(es[1..], beg, end) else InRange(es[1..], beg, end)
  {
  }

  lemma InRangeOne(e: Entry, beg: IndexKey, end: IndexKey)
    ensures InRange([e], beg, end) == if Within(e.key, beg, end) then [e] else []
  {
    assert InRange([e][1..], beg, end) == [];
  }

  /** The entry under the cursor, and what is before and behind it. */
  lemma Cursor(ls: seq<LeafPage>, i: nat, j: nat)
    requires i < |ls| && j <= |ls[i].entries|
    ensures Flat(ls) == (Flat(ls[..i]) + ls[i].entries[..j]) + (ls[i].entries[j..] + Flat(ls[i + 1..]))
    ensures j == |ls[i].entries| ==> Flat(ls[..i + 1]) == Flat(ls[..i]) + ls[i].entries[..j]
  {
    var es := ls[i].entries;
    assert ls == ls[..i] + ([ls[i]] + ls[i + 1..]);
    FlatAppend(ls[..i], [ls[i]] + ls[i + 1..]);
    FlatAppend([ls[i]], ls[i + 1..]);
    FlatOne(ls[i]);
    assert es == es[..j] + es[j..];
    assert ls[..i + 1] == ls[..i] + [ls[i]];
    FlatAppend(ls[..i], [ls[i]]);
    Around4(Flat(ls[..i]), es[..j], es[j..], Flat(ls[i + 1..]), []);
  }

  /** One entry further. */
  lemma CursorStep(ls: seq<LeafPage>, i: nat, j: nat, beg: IndexKey, end: IndexKey, kind: KeyKind)
    requires i < |ls| && j < |ls[i].entries| && Ordered(Flat(ls), kind) && KeyMatchesKind(beg, kind)
             && KeyMatchesKind(end, kind)
    ensures var e := ls[i].entries[j]; var seen := Flat(ls[..i]) + ls[i].entries[..j];
            && e.key.IntKey? == beg.IntKey? == end.IntKey?
            && InRange(Flat(ls[..i]) + ls[i].entries[..j + 1], beg, end)
               == InRange(seen, beg, end) + (if KeyLess(e.key, beg) || KeyLess(end, e.key) then [] else [e])
            && (KeyLess(end, e.key) ==> InRange(Flat(ls), beg, end) == InRange(seen, beg, end))
  {
    var e, seen := ls[i].entries[j], Flat(ls[..i]) + ls[i].entries[..j];
    var rest := ls[i].entries[j..] + Flat(ls[i + 1..]);
    Cursor(ls, i, j);
    assert rest[0] == e;
    OrderedAt(seen, rest, kind);
    KeyLessIsRank(e.key, beg);
    KeyLessIsRank(end, e.key);
    hide Flat, Ordered, KeyLess;
    assert Flat(ls[..i]) + ls[i].entries[..j + 1] == seen + [e];
    InRangeAppend(seen, [e], beg, end);
    InRangeOne(e, beg, end);
    if KeyLess(end, e.key) {
      InRangeAppend(seen, rest, beg, end);
      InRangeNothing(rest, beg, end);
    }
  }

  lemma OrderedAt(a: seq<Entry>, b: seq<Entry>, kind: KeyKind)
    requires Ordered(a + b, kind) && b != []
    ensures KeyMatchesKind(b[0].key, kind)
    ensures forall k :: Rank(k) < Rank(b[0].key) ==> AllAbove(b, k)
  {
    OrderedParts(a, b, kind);
    assert (a + b)[|a|] == b[0];
  }

  /** The pages of the leaves hold the leaves. */
  lemma {:induction false} LeafStored(nodes: seq<Node>, t: Tree, i: nat)
    requires Stored(nodes, t) && i < |Leaves(t)|
    ensures Leaves(t)[i].id < |nodes| && nodes[Leaves(t)[i].id] == LeafNode(Leaves(t)[i])
    decreases t, 1
  {
    if t.Branch? {
      LeafStoredOf(nodes, t.kids, i);
    }
  }

  lemma {:induction false} LeafStoredOf(nodes: seq<Node>, ts: seq<Tree>, i: nat)
    requires AllStored(nodes, ts) && i < |LeavesOf(ts)|
    ensures LeavesOf(ts)[i].id < |nodes| && nodes[LeavesOf(ts)[i].id] == LeafNode(LeavesOf(ts)[i])
    decreases ts, 0
  {
    if i < |Leaves(ts[0])| {
      LeafStored(nodes, ts[0], i);
    } else {
      assert forall j :: 0 <= j < |ts[1..]| ==> ts[1..][j] == ts[j + 1];
      LeafStoredOf(nodes, ts[1..], i - |Leaves(ts[0])|);
    }
  }

  /** The search for key in the whole comes down to the leaf p. */
  lemma WholeAround(ctx: Ctx, p: LeafPage, key: IndexKey, kind: KeyKind)
    requires Narrowed(ctx, Leaf(p), key) && KeyMatchesKind(key, kind)
    requires Ordered(Flat(LeavesBefore(ctx) + [p] + LeavesAfter(ctx)), kind)
    ensures var before, after := Flat(LeavesBefore(ctx)), Flat(LeavesAfter(ctx));
            && Flat(LeavesBefore(ctx) + [p] + LeavesAfter(ctx)) == before + p.entries + after
            && AllBelow(before, key) && AllAbove(after, key) && Ordered(before + p.entries + after, kind)
  {
    FlatAround(ctx, p);
  }

  /** A new entry goes into its leaf: what that means for the whole. */
  lemma EntryAdded(ctx: Ctx, p: LeafPage, i: nat, e: Entry, kind: KeyKind)
    requires Narrowed(ctx, Leaf(p), e.key) && KeyMatchesKind(e.key, kind) && i <= |p.entries|
    requires AllBelow(p.entries[..i], e.key) && AllAbove(p.entries[i..], e.key)
    requires Ordered(Flat(LeavesBefore(ctx) + [p] + LeavesAfter(ctx)), kind)
    ensures var p' := p.(entries := p.entries[..i] + [e] + p.entries[i..]);
            var old_, new_ := Flat(LeavesBefore(ctx) + [p] + LeavesAfter(ctx)),
              Flat(LeavesBefore(ctx) + [p'] + LeavesAfter(ctx));
            && Ordered(new_, kind) && |new_| == |old_| + 1 && e.key !in AsMap(old_)
               && AsMap(new_) == AsMap(old_)[e.key := e.rec]
  {
    var p' := p.(entries := p.entries[..i] + [e] + p.entries[i..]);
    WholeAround(ctx, p, e.key, kind);
    FlatAround(ctx, p');
    var before, after := Flat(LeavesBefore(ctx)), Flat(LeavesAfter(ctx));
    hide Ordered, AllBelow, AllAbove, Flat, AsMap, Narrowed;
    PlaceInWhole(before, p.entries, after, i, e);
    GapOrdered(before + p.entries[..i], e, p.entries[i..] + after, kind);
    GapMap(before + p.entries[..i], e, p.entries[i..] + after);
  }

  /** An entry leaves its leaf. */
  lemma EntryRemoved(ctx: Ctx, p: LeafPage, key: IndexKey, kind: KeyKind)
    requires Narrowed(ctx, Leaf(p), key) && KeyMatchesKind(key, kind)
    requires Ordered(Flat(LeavesBefore(ctx) + [p] + LeavesAfter(ctx)), kind)
    ensures forall j :: 0 <= j < |p.entries| ==> Keys(p.entries)[j].IntKey? == key.IntKey?
    ensures var i := LowerBound(Keys(p.entries), key);
            var old_ := Flat(LeavesBefore(ctx) + [p] + LeavesAfter(ctx));
            && i <= |p.entries|
            && (i < |p.entries| && p.entries[i].key == key ==>
                  var p' := p.(entries := p.entries[..i] + p.entries[i + 1..]);
                  var new_ := Flat(LeavesBefore(ctx) + [p'] + LeavesAfter(ctx));
                  && Ordered(new_, kind) && |new_| == |old_| - 1
                  && key in AsMap(old_) && AsMap(new_) == AsMap(old_) - {key})
            && (i == |p.entries| || p.entries[i].key != key ==> key !in AsMap(old_))
  {
    hide Ordered, AllBelow, AllAbove, Flat, AsMap, Narrowed, LowerBound, LeavesBefore, LeavesAfter;
    WholeAround(ctx, p, key, kind);
    var before, after := Flat(LeavesBefore(ctx)), Flat(LeavesAfter(ctx));
    FoundInLeaf(before, p.entries, after, key, kind);
    var i := LowerBound(Keys(p.entries), key);
    if i < |p.entries| && p.entries[i].key == key {
      var p' := p.(entries := p.entries[..i] + p.entries[i + 1..]);
      FlatAround(ctx, p');
      var a, b, e := before + p.entries[..i], p.entries[i + 1..] + after, p.entries[i];
      OrderedWithout(a, e, b, kind);
      GapMap(a, e, b);
      assert AsMap(a + b) == AsMap(a + [e] + b) - {key};
    }
  }

  /** The first key of the whole is the first key of the leftmost leaf. */
  lemma FirstKeyKept(ctx: Ctx, p: LeafPage, p': LeafPage, key: IndexKey)
    requires p.entries != [] && p'.entries != [] && Exact(ctx, p.entries[0].key) && Narrowed(ctx, Leaf(p), key)
    requires p'.entries[0].key == p.entries[0].key || Leftmost(ctx)
    ensures Exact(ctx, MinKey(Leaf(p'))) && HeadKey(Gathered(ctx, p'.id, [], [p'], 0)) == MinKey(Leaf(p'))
  {
    if Leftmost(ctx) {
      LeftmostExact(ctx, MinKey(Leaf(p')));
    }
  }

  /** Looking a key up in the leaf that the search reached is looking it up in the whole. */
  lemma LookupInLeaf(ctx: Ctx, p: LeafPage, key: IndexKey, kind: KeyKind)
    requires Narrowed(ctx, Leaf(p), key) && KeyMatchesKind(key, kind)
    requires Ordered(Flat(LeavesBefore(ctx) + [p] + LeavesAfter(ctx)), kind)
    ensures var n := LeafNode(p);
            |n.keys| == |n.records| == |p.entries| && forall j :: 0 <= j < |n.keys| ==> n.keys[j].IntKey? == key.IntKey?
    ensures var n := LeafNode(p);
            var i := LowerBound(n.keys, key);
            var m := AsMap(Flat(LeavesBefore(ctx) + [p] + LeavesAfter(ctx)));
            && (i < |n.keys| && n.keys[i] == key ==> key in m && m[key] == n.records[i])
            && (i == |n.keys| || n.keys[i] != key ==>
                  key !in m && AllBelow(p.entries[..i], key) && AllAbove(p.entries[i..], key))
  {
    WholeAround(ctx, p, key, kind);
    FoundInLeaf(Flat(LeavesBefore(ctx)), p.entries, Flat(LeavesAfter(ctx)), key, kind);
  }

  lemma LeafGained(p: LeafPage, i: nat, e: Entry)
    requires i <= |p.entries|
    ensures LeafNode(p.(entries := p.entries[..i] + [e] + p.entries[i..]))
         == LeafNode(p).(keys := LeafNode(p).keys[..i] + [e.key] + LeafNode(p).keys[i..],
                         records := LeafNode(p).records[..i] + [e.rec] + LeafNode(p).records[i..])
  {
    ColumnsGained(p.entries, i, e);
  }

  lemma ColumnsGained(es: seq<Entry>, i: nat, e: Entry)
    requires i <= |es|
    ensures Keys(es[..i] + [e] + es[i..]) == Keys(es)[..i] + [e.key] + Keys(es)[i..]
    ensures Records(es[..i] + [e] + es[i..]) == Records(es)[..i] + [e.rec] + Records(es)[i..]
  {
  }

  lemma LeafLost(p: LeafPage, i: nat)
    requires i < |p.entries|
    ensures LeafNode(p.(entries := p.entries[..i] + p.entries[i + 1..]))
         == LeafNode(p).(keys := LeafNode(p).keys[..i] + LeafNode(p).keys[i + 1..],
                         records := LeafNode(p).records[..i] + LeafNode(p).records[i + 1..])
  {
    ColumnsLost(p.entries, i);
  }

  lemma ColumnsLost(es: seq<Entry>, i: nat)
    requires i < |es|
    ensures Keys(es[..i] + es[i + 1..]) == Keys(es)[..i] + Keys(es)[i + 1..]
    ensures Records(es[..i] + es[i + 1..]) == Records(es)[..i] + Records(es)[i + 1..]
  {
  }

  /** Only at the left end of the tree can a new key become the smallest of its leaf. */
  lemma InsertKeepsFirst(ctx: Ctx, p: LeafPage, i: nat, e: Entry)
    requires Narrowed(ctx, Leaf(p), e.key) && i <= |p.entries| && p.entries != [] && AllAbove(p.entries[i..], e.key)
    ensures var p' := p.(entries := p.entries[..i] + [e] + p.entries[i..]);
            p'.entries[0].key == p.entries[0].key || Leftmost(ctx)
  {
    if i == 0 {
      assert p.entries[i..][0] == p.entries[0];
    }
  }

  lemma SimilarSelf(ls: seq<LeafPage>)
    requires ls != []
    ensures Similar(ls, ls)
  {
  }

  /** A tree of one leaf. */
  lemma FirstLeaf(nodes: seq<Node>, id: PageId, e: Entry, c: Caps, kind: KeyKind)
    requires c.Ok() && id < |nodes| <= MAX_PAGES && KeyMatchesKind(e.key, kind)
    ensures var p := LeafPage(id, [e], INVALID_PAGE_ID);
            && Focus(nodes[id := LeafNode(p)], id, id, 1, Top, Leaf(p), 1, [id], [p], c) && Exact(Top, MinKey(Leaf(p)))
            && Chain([p]) && Ordered(Flat([p]), kind) && Flat([p]) == [e]
            && AsMap([]) == map[] && AsMap([e]) == map[e.key := e.rec]
            && LeafNode(p) == Node(true, id, INVALID_PAGE_ID, [e.key], [], [e.rec])
  {
    var p := LeafPage(id, [e], INVALID_PAGE_ID);
    FlatOne(p);
    assert Keys([e]) == [e.key] && Records([e]) == [e.rec];
    FirstFocus(nodes, id, p, c);
  }

  lemma FirstFocus(nodes: seq<Node>, id: PageId, p: LeafPage, c: Caps)
    requires c.Ok() && id < |nodes| <= MAX_PAGES && p.id == id && |p.entries| == 1
    ensures Focus(nodes[id := LeafNode(p)], id, id, 1, Top, Leaf(p), 1, [id], [p], c)
  {
  }

  // ----- the search loop -----

  /** The search for key has come down to the subtree t. */
  ghost predicate Searching(nodes: seq<Node>, whole: Tree, height: nat, ctx: Ctx, t: Tree, h: int, path: seq<PageId>,
                            key: IndexKey, c: Caps, kind: KeyKind)
  {
    && Descending(nodes, whole, height, ctx, t, h, path, c) && Narrowed(ctx, t, key) && Ordered(Flat(Leaves(t)), kind)
    && KeyMatchesKind(key, kind)
  }

  /** The leaf where a search for key ends: at each node the child behind the separators not above key. */
  ghost function LeafFor(t: Tree, key: IndexKey): LeafPage {
    match t
    case Leaf(p) => p
    case Branch(_, ks) =>
      if (forall j :: 0 <= j < |Seps(ks)| ==> Seps(ks)[j].IntKey? == key.IntKey?) && UpperBound(Seps(ks), key) < |ks|
      then LeafFor(ks[UpperBound(Seps(ks), key)], key)
      else LeafPage(0, [], 0)
  }

  /** What is around that leaf, where ctx is around t. */
  ghost function ContextFor(t: Tree, ctx: Ctx, key: IndexKey): Ctx
    decreases t
  {
    match t
    case Leaf(_) => ctx
    case Branch(_, ks) =>
      if (forall j :: 0 <= j < |Seps(ks)| ==> Seps(ks)[j].IntKey? == key.IntKey?) && UpperBound(Seps(ks), key) < |ks|
      then ContextFor(ks[UpperBound(Seps(ks), key)], Below(ctx, t, UpperBound(Seps(ks), key)), key)
      else ctx
  }

  /** The entries of a leaf and of the neighbour with which it would be split: the next one, or else the
      one before it. */
  ghost function PairAround(ctx: Ctx, p: LeafPage): seq<Entry> {
    if ctx.Under? && ctx.right != [] then p.entries + EntriesOf(ctx.right[0])
    else if ctx.Under? && ctx.left != [] then EntriesOf(ctx.left[|ctx.left| - 1]) + p.entries
    else p.entries
  }

  lemma PairCount(a: seq<Entry>, e: Entry, b: seq<Entry>, kind: KeyKind)
    requires Ordered(a + [e] + b, kind)
    ensures CountBelow(a + b, e.key) == |a|
  {
    var es := a + [e] + b;
    assert es[|a|] == e;
    forall i | 0 <= i < |a| ensures Rank(a[i].key) < Rank(e.key) {
      assert es[i] == a[i];
    }
    forall i | 0 <= i < |b| ensures Rank(e.key) < Rank(b[i].key) {
      assert es[|a| + 1 + i] == b[i];
    }
    assert (a + b)[..|a|] == a && (a + b)[|a|..] == b;
    CountIsPosition(a + b, |a|, e.key);
  }

  /** The leaf before the one that ctx is around. */
  lemma LastBefore(ctx: Ctx)
    requires ctx.Under? && ctx.left != [] && ctx.left[|ctx.left| - 1].Leaf?
    ensures LeavesBefore(ctx) != [] && LeavesBefore(ctx)[|LeavesBefore(ctx)| - 1] == ctx.left[|ctx.left| - 1].page
  {
    var n := |ctx.left| - 1;
    assert ctx.left == ctx.left[..n] + [ctx.left[n]];
    LeavesOfAppend(ctx.left[..n], [ctx.left[n]]);
    LeavesOfOne(ctx.left[n]);
  }

  lemma LeafForLeaf(p: LeafPage, key: IndexKey)
    ensures LeafFor(Leaf(p), key) == p && forall ctx :: ContextFor(Leaf(p), ctx, key) == ctx
  {
  }

  lemma LeafForBelow(t: Tree, key: IndexKey)
    requires t.Branch? && forall j :: 0 <= j < |Seps(t.kids)| ==> Seps(t.kids)[j].IntKey? == key.IntKey?
    ensures var i := UpperBound(Seps(t.kids), key);
            i < |t.kids| ==>
              && LeafFor(t, key) == LeafFor(t.kids[i], key)
              && forall ctx :: ContextFor(t, ctx, key) == ContextFor(t.kids[i], Below(ctx, t, i), key)
  {
    hide Below;
  }

  /** How many entries have a smaller key. */
  ghost function CountBelow(es: seq<Entry>, key: IndexKey): nat {
    if es == [] then 0 else (if Rank(es[0].key) < Rank(key) then 1 else 0) + CountBelow(es[1..], key)
  }

  lemma {:induction false} CountIsPosition(es: seq<Entry>, i: nat, key: IndexKey)
    requires i <= |es| && AllBelow(es[..i], key) && AllAbove(es[i..], key)
    ensures CountBelow(es, key) == i
  {
    if es != [] {
      if i > 0 {
        assert es[..i][0] == es[0] && es[1..][..i - 1] == es[..i][1..] && es[1..][i - 1..] == es[i..];
        CountIsPosition(es[1..], i - 1, key);
      } else {
        assert es[0..][0] == es[0] && es[1..][0..] == es[0..][1..];
        CountIsPosition(es[1..], 0, key);
      }
    }
  }

  /** A store that holds a whole tree, in order. */
  ghost predicate Grounded(s: Store, whole: Tree, c: Caps, kind: KeyKind) {
    && c.Ok() && |s.nodes| <= MAX_PAGES && Stored(s.nodes, whole) && RootShape(whole, s.height, c)
    && Distinct(Ids(whole), |s.nodes|) && s.root == Id(whole) && Leaves(whole) != [] && s.first == Leaves(whole)[0].id
    && Ordered(Flat(Leaves(whole)), kind)
  }

  lemma SearchStart(s: Store, whole: Tree, key: IndexKey, c: Caps, kind: KeyKind)
    requires Grounded(s, whole, c, kind) && KeyMatchesKind(key, kind)
    ensures Searching(s.nodes, whole, s.height, Top, whole, s.height, [Id(whole)], key, c, kind)
    ensures s.root == Id(whole) < |s.nodes| <= MAX_PAGES
  {
    DescentStart(s.nodes, whole, s.height, key, c);
  }

  lemma BranchColumns(id: PageId, ks: seq<Tree>)
    ensures BranchNode(id, ks).keys == Seps(ks) && BranchNode(id, ks).children == IdSeq(ks)
    ensures |Seps(ks)| == if ks == [] then 0 else |ks| - 1
  {
  }

  /** What the page at hand shows, and where the upper bound leads. */
  lemma SearchStep(nodes: seq<Node>, whole: Tree, height: nat, ctx: Ctx, t: Tree, h: int, path: seq<PageId>,
                   key: IndexKey, c: Caps, kind: KeyKind)
    requires Searching(nodes, whole, height, ctx, t, h, path, key, c, kind)
    ensures Id(t) < |nodes| && nodes[Id(t)].isLeaf == t.Leaf? && nodes[Id(t)].pageId == Id(t)
    ensures t.Leaf? ==> nodes[Id(t)] == LeafNode(t.page)
    ensures t.Branch? ==>
              var node := nodes[Id(t)];
              && (forall j :: 0 <= j < |node.keys| ==> node.keys[j].IntKey? == key.IntKey?)
              && var i := UpperBound(node.keys, key);
              && i < |t.kids| && i < |node.children| && node.children[i] == Id(t.kids[i]) < |nodes|
              && LeafFor(t, key) == LeafFor(t.kids[i], key)
              && ContextFor(t, ctx, key) == ContextFor(t.kids[i], Below(ctx, t, i), key)
              && Searching(nodes, whole, height, Below(ctx, t, i), t.kids[i], h - 1, path + [Id(t.kids[i])], key, c,
                           kind)
  {
    hide Ordered, Narrowed, Leaves, Flat, Shape, RootShape, LeavesOf, Descending, IdSeq, Below, Seps, UpperBound,
         LeafFor, ContextFor;
    DescentStored(nodes, whole, height, ctx, t, h, path, c);
    if t.Branch? {
      NarrowedBelow(ctx, t, key, h, c, kind);
      BranchColumns(t.pid, t.kids);
      var i := UpperBound(Seps(t.kids), key);
      LeafForBelow(t, key);
      Descended(nodes, whole, height, ctx, t, h, path, i, c);
      DescentStored(nodes, whole, height, Below(ctx, t, i), t.kids[i], h - 1, path + [Id(t.kids[i])], c);
    }
  }

  lemma SearchEnd(s: Store, whole: Tree, ctx: Ctx, p: LeafPage, h: int, path: seq<PageId>, key: IndexKey, c: Caps,
                  kind: KeyKind)
    requires Searching(s.nodes, whole, s.height, ctx, Leaf(p), h, path, key, c, kind) && Grounded(s, whole, c, kind)
    ensures h == 1 && Steady(s, Gathered(ctx, p.id, [], [p], 0), path, Leaves(whole), c)
    ensures |path| == s.height && p.entries != [] && |p.entries| <= c.leaf
    ensures ctx.Under? ==> c.HalfLeaf() <= |p.entries|
    ensures Leaves(whole) == LeavesBefore(ctx) + [p] + LeavesAfter(ctx) && whole == Plug(ctx, Leaf(p))
    ensures Exact(ctx, p.entries[0].key) && Narrowed(ctx, Leaf(p), key)
    ensures Ordered(Flat(LeavesBefore(ctx) + [p] + LeavesAfter(ctx)), kind)
  {
    hide Ordered, Narrowed, Flat, Plug;
    DescentEnd(s, whole, ctx, p, h, path, c);
  }

  /** What the leaf at the end of the search says of the whole. */
  lemma SearchFound(s: Store, whole: Tree, ctx: Ctx, p: LeafPage, h: int, path: seq<PageId>, key: IndexKey, c: Caps,
                    kind: KeyKind)
    requires Searching(s.nodes, whole, s.height, ctx, Leaf(p), h, path, key, c, kind) && Grounded(s, whole, c, kind)
    ensures var n := LeafNode(p);
            |n.keys| == |n.records| && forall j :: 0 <= j < |n.keys| ==> n.keys[j].IntKey? == key.IntKey?
    ensures var n := LeafNode(p);
            var i := LowerBound(n.keys, key);
            var m := AsMap(Flat(Leaves(whole)));
            if i < |n.keys| && n.keys[i] == key then key in m && m[key] == n.records[i] else key !in m
  {
    hide Searching, Grounded, Leaves, Flat, AsMap, LowerBound, LeafNode, Ordered;
    SearchEnd(s, whole, ctx, p, h, path, key, c, kind);
    SearchKind(s.nodes, whole, s.height, ctx, Leaf(p), h, path, key, c, kind);
    LookupInLeaf(ctx, p, key, kind);
  }

  lemma SearchKind(nodes: seq<Node>, whole: Tree, height: nat, ctx: Ctx, t: Tree, h: int, path: seq<PageId>,
                   key: IndexKey, c: Caps, kind: KeyKind)
    requires Searching(nodes, whole, height, ctx, t, h, path, key, c, kind)
    ensures KeyMatchesKind(key, kind)
  {
  }

  /** A new entry in its leaf, before anything is written. */
  lemma InsertPrepared(s: Store, ctx: Ctx, p: LeafPage, i: nat, e: Entry, path: seq<PageId>, c: Caps, kind: KeyKind)
    requires var ls := LeavesBefore(ctx) + [p] + LeavesAfter(ctx);
             && Steady(s, Gathered(ctx, p.id, [], [p], 0), path, ls, c) && Ordered(Flat(ls), kind)
    requires p.entries != [] && Exact(ctx, p.entries[0].key) && Narrowed(ctx, Leaf(p), e.key)
    requires KeyMatchesKind(e.key, kind) && i <= |p.entries|
    requires AllBelow(p.entries[..i], e.key) && AllAbove(p.entries[i..], e.key)
    ensures var p' := p.(entries := p.entries[..i] + [e] + p.entries[i..]);
            var ls := LeavesBefore(ctx) + [p] + LeavesAfter(ctx);
            var ls' := LeavesBefore(ctx) + [p'] + LeavesAfter(ctx);
            && Steady(s, Gathered(ctx, p.id, [], [p'], 0), path, ls', c)
            && (Chain(ls) ==> Chain(ls')) && Ordered(Flat(ls'), kind)
            && |Flat(ls')| == |Flat(ls)| + 1 && AsMap(Flat(ls')) == AsMap(Flat(ls))[e.key := e.rec]
            && Exact(ctx, MinKey(Leaf(p'))) && HeadKey(Gathered(ctx, p.id, [], [p'], 0)) == MinKey(Leaf(p'))
            && LeafNode(p') == LeafNode(p).(keys := LeafNode(p).keys[..i] + [e.key] + LeafNode(p).keys[i..],
                                            records := LeafNode(p).records[..i] + [e.rec] + LeafNode(p).records[i..])
  {
    hide Steady, Ordered, Flat, AsMap, Exact, Narrowed, Leftmost, HeadKey, MinKey, Chain, LeavesBefore, LeavesAfter,
         LeafNode, AllBelow, AllAbove;
    var p' := p.(entries := p.entries[..i] + [e] + p.entries[i..]);
    EntryAdded(ctx, p, i, e, kind);
    InsertKeepsFirst(ctx, p, i, e);
    FirstKeyKept(ctx, p, p', e.key);
    LeafEdited(s, ctx, p, p'.entries, path, LeavesBefore(ctx) + [p] + LeavesAfter(ctx), c);
    LeafGained(p, i, e);
  }

  /** An entry taken out of its leaf, before anything is written. */
  lemma ErasePrepared(s: Store, ctx: Ctx, p: LeafPage, key: IndexKey, path: seq<PageId>, c: Caps, kind: KeyKind)
    requires var ls := LeavesBefore(ctx) + [p] + LeavesAfter(ctx);
             && Steady(s, Gathered(ctx, p.id, [], [p], 0), path, ls, c) && Ordered(Flat(ls), kind)
    requires Narrowed(ctx, Leaf(p), key) && KeyMatchesKind(key, kind)
    ensures forall j :: 0 <= j < |LeafNode(p).keys| ==> LeafNode(p).keys[j].IntKey? == key.IntKey?
    ensures |LeafNode(p).keys| == |LeafNode(p).records| == |p.entries|
    ensures var ls := LeavesBefore(ctx) + [p] + LeavesAfter(ctx);
            var n := LeafNode(p);
            var i := LowerBound(n.keys, key);
            if i < |n.keys| && n.keys[i] == key then
              var p' := p.(entries := p.entries[..i] + p.entries[i + 1..]);
              var ls' := LeavesBefore(ctx) + [p'] + LeavesAfter(ctx);
              && Steady(s, Gathered(ctx, p.id, [], [p'], 0), path, ls', c)
              && (Chain(ls) ==> Chain(ls')) && Ordered(Flat(ls'), kind) && |Flat(ls')| == |Flat(ls)| - 1
              && key in AsMap(Flat(ls)) && AsMap(Flat(ls')) == AsMap(Flat(ls)) - {key}
              && (ctx.Top? ==> Flat(ls') == p'.entries)
              && LeafNode(p') == n.(keys := n.keys[..i] + n.keys[i + 1..],
                                    records := n.records[..i] + n.records[i + 1..])
            else key !in AsMap(Flat(ls))
  {
    hide Steady, Ordered, Flat, AsMap, Narrowed, Chain, LowerBound, LeavesBefore, LeavesAfter, KeyMatchesKind, Gathered;
    EntryRemoved(ctx, p, key, kind);
    var i := LowerBound(LeafNode(p).keys, key);
    if i < |p.entries| && p.entries[i].key == key {
      var p' := p.(entries := p.entries[..i] + p.entries[i + 1..]);
      LeafEdited(s, ctx, p, p'.entries, path, LeavesBefore(ctx) + [p] + LeavesAfter(ctx), c);
      LeafLost(p, i);
      if ctx.Top? {
        TopLeaves(ctx);
        FlatOne(p');
        assert [] + [p'] + [] == [p'];
      }
    }
  }

  lemma TopLeaves(ctx: Ctx)
    requires ctx.Top?
    ensures LeavesBefore(ctx) == [] && LeavesAfter(ctx) == []
  {
  }

  // ----- along the leaves -----

  lemma SameKind(a: IndexKey, b: IndexKey, kind: KeyKind)
    requires KeyMatchesKind(a, kind) && KeyMatchesKind(b, kind)
    ensures a.IntKey? == b.IntKey?
  {
  }

  lemma NothingInRange(es: seq<Entry>, beg: IndexKey, end: IndexKey)
    requires beg.IntKey? == end.IntKey? && (es == [] || KeyLess(end, beg))
    ensures InRange(es, beg, end) == []
  {
    if es != [] {
      KeyLessIsRank(end, beg);
      InRangeNothing(es, beg, end);
    }
  }

  /** The scan starts at the leaf that would hold the lower end. */
  lemma RangeStart(s: Store, whole: Tree, ctx: Ctx, p: LeafPage, beg: IndexKey, end: IndexKey, c: Caps, kind: KeyKind)
    requires Grounded(s, whole, c, kind) && Narrowed(ctx, Leaf(p), beg)
    requires Leaves(whole) == LeavesBefore(ctx) + [p] + LeavesAfter(ctx)
    ensures var i := |LeavesBefore(ctx)|; var ls := Leaves(whole);
            && i < |ls| && ls[i] == p && p.id < |s.nodes| <= MAX_PAGES && InRange(Flat(ls[..i]), beg, end) == []
  {
    var i, ls := |LeavesBefore(ctx)|, Leaves(whole);
    LeafStored(s.nodes, whole, i);
    assert ls[..i] == LeavesBefore(ctx);
    InRangeNothing(Flat(ls[..i]), beg, end);
  }

  /** The next-page link of a leaf leads to the next leaf, or nowhere at the end. */
  lemma ChainNext(s: Store, whole: Tree, i: nat, c: Caps, kind: KeyKind)
    requires Grounded(s, whole, c, kind) && Chain(Leaves(whole)) && i < |Leaves(whole)|
    ensures var ls := Leaves(whole);
            if i + 1 < |ls| then
              && ls[i].next == ls[i + 1].id < |s.nodes| <= MAX_PAGES && s.nodes[ls[i].next] == LeafNode(ls[i + 1])
            else ls[i].next == INVALID_PAGE_ID && ls[..i + 1] == ls
  {
    var ls := Leaves(whole);
    if i + 1 < |ls| {
      LeafStored(s.nodes, whole, i + 1);
    }
  }
}
