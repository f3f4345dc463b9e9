/** The rewriting of a family of siblings, seen together with the rest of the index: the record
    that the splitting, merging and redistributing methods work on, and its steps. */
module TreeMoves {
  import opened IndexTypes
  import opened TreeModel
  import opened TreeSteps

  /** What the methods see of the index besides its capacities. */
  datatype Store = Store(nodes: seq<Node>, root: PageId, first: PageId, height: nat)

  /** The children of page pid, whose subtrees have height h, under reconstruction: see World.
      The contents of leaf pages that are still to be written are in pend. */
  datatype Family = Family(up: Ctx, pid: PageId, before: seq<Tree>, loose: seq<Tree>, after: seq<Tree>,
                           open: multiset<PageId>, pend: seq<LeafPage>, h: int)

  /** All children in place, none written over. */
  ghost function Gathered(ctx: Ctx, id: PageId, kids: seq<Tree>, pend: seq<LeafPage>, h: int): Family {
    Family(ctx, id, kids, [], [], multiset{}, pend, h)
  }

  /** The leaves of the whole index once the family is complete. */
  ghost function AllLeaves(f: Family): seq<LeafPage> {
    LeavesBefore(f.up) + (LeavesOf(f.before) + (LeavesOf(f.loose) + f.pend) + LeavesOf(f.after)) + LeavesAfter(f.up)
  }

  /** The smallest key below the parent page when the family is complete. */
  ghost function HeadKey(f: Family): IndexKey {
    if f.before != [] then MinKey(f.before[0])
    else if f.loose != [] then MinKey(f.loose[0])
    else if f.pend != [] then MinKey(Leaf(f.pend[0])) else IntKey(0)
  }

  ghost predicate InWorld(nodes: seq<Node>, f: Family, c: Caps) {
    World(nodes, f.up, f.pid, f.before, f.loose, f.after, f.open, f.h, c)
  }

  /** Only the family is unfinished; when it is finished the leaves will be ls. */
  ghost predicate Steady(s: Store, f: Family, path: seq<PageId>, ls: seq<LeafPage>, c: Caps) {
    && c.Ok() && |s.nodes| <= MAX_PAGES
    && path == PathOf(f.up) + [f.pid] && s.root == path[0] && s.height == f.h + 1 + Depth(f.up)
    && InWorld(s.nodes, f, c)
    && (f.loose == [] || f.pend == [])
    && ls == AllLeaves(f)
    && ls != [] && s.first == ls[0].id
  }

  lemma SteadyRows(s: Store, f: Family, path: seq<PageId>, ls: seq<LeafPage>, c: Caps)
    requires Steady(s, f, path, ls, c)
    ensures Row(s.nodes, f.before, f.h, c) && Row(s.nodes, f.loose, f.h - 1, c) && Row(s.nodes, f.after, f.h, c)
    ensures Row(s.nodes, f.before + f.after, f.h, c)
    ensures f.pid < |s.nodes| && forall x :: x in f.open ==> x < |s.nodes|
    ensures c.Ok() && |path| == Depth(f.up) + 1 && path[|path| - 1] == f.pid && path[0] == s.root
    ensures f.up.Top? <==> f.pid == s.root
  {
    hide Stored, Shape, IdsOf, Leaves, LeavesOf, Around, LeavesBefore, LeavesAfter;
    RowJoin(s.nodes, f.before, f.after, f.h, c);
    PlugPath(f.up, Branch(f.pid, []));
    SteadyIds(s, f, path, ls, c);
  }

  lemma SteadyIds(s: Store, f: Family, path: seq<PageId>, ls: seq<LeafPage>, c: Caps)
    requires Steady(s, f, path, ls, c)
    ensures f.pid < |s.nodes| && forall x :: x in f.open ==> x < |s.nodes|
    ensures f.up.Top? <==> f.pid == s.root
  {
    hide Row, IdsOf, Leaves, LeavesOf, Around, LeavesBefore, LeavesAfter, AllLeaves;
    var ids := WorldIds(f.up, f.pid, f.before, f.loose, f.after, f.open);
    assert f.pid in ids;
    assert forall x :: x in f.open ==> x in ids;
    if f.up.Under? {
      TopId(f.up, f.pid);
      assert path[0] in CtxIds(f.up);
      assert ids[f.pid] == 1;
    }
  }

  lemma {:induction false} TopId(ctx: Ctx, id: PageId)
    requires ctx.Under?
    ensures (PathOf(ctx) + [id])[0] in CtxIds(ctx)
  {
    if ctx.up.Under? {
      TopId(ctx.up, ctx.pid);
      assert (PathOf(ctx) + [id])[0] == (PathOf(ctx.up) + [ctx.pid])[0];
    }
  }

  function PageOf(t: Tree): seq<LeafPage> {
    if t.Leaf? then [t.page] else []
  }

  ghost function WithRight(ctx: Ctx, id: PageId, kids: seq<Tree>, pend: seq<LeafPage>, h: int): Family
    requires ctx.Under? && ctx.right != []
  {
    var r := ctx.right[0];
    Family(ctx.up, ctx.pid, ctx.left, kids + KidsOf(r), ctx.right[1..], multiset{id, Id(r)}, pend + PageOf(r), h + 1)
  }

  ghost function WithLeft(ctx: Ctx, id: PageId, kids: seq<Tree>, pend: seq<LeafPage>, h: int): Family
    requires ctx.Under? && ctx.left != []
  {
    var n := |ctx.left| - 1;
    var l := ctx.left[n];
    Family(ctx.up, ctx.pid, ctx.left[..n], KidsOf(l) + kids, ctx.right, multiset{Id(l), id}, PageOf(l) + pend, h + 1)
  }

  lemma LeavesOfNode(t: Tree)
    ensures Leaves(t) == LeavesOf(KidsOf(t)) + PageOf(t)
  {
  }

  /** What is known of the parent's page and of the siblings before anything is written. */
  lemma Siblings(s: Store, ctx: Ctx, id: PageId, kids: seq<Tree>, pend: seq<LeafPage>, h: int,
                 path: seq<PageId>, ls: seq<LeafPage>, c: Caps)
    requires Steady(s, Gathered(ctx, id, kids, pend, h), path, ls, c) && ctx.Under?
    ensures |path| >= 2 && path[|path| - 2] == ctx.pid < |s.nodes|
    ensures s.nodes[ctx.pid] == FrameNode(ctx.pid, ctx.left, id, ctx.sep, ctx.right)
    ensures IndexOf(s.nodes[ctx.pid].children, id) == |ctx.left|
    ensures Row(s.nodes, ctx.left, h + 1, c) && Row(s.nodes, ctx.right, h + 1, c)
    ensures (if ctx.up.Top? then 2 else c.HalfKids()) <= |ctx.left| + 1 + |ctx.right| <= c.inner + 1
  {
    hide Stored, Shape, IdsOf, Leaves, LeavesOf, LeavesBefore, LeavesAfter, IdSeq, AllLeaves, Plug, FrameKeys, Row;
    PlugPath(ctx, Branch(id, kids));
    PlugPath(ctx.up, Branch(id, kids));
    var ids := multiset{id} + IdsOf(kids);
    assert WorldIds(ctx, id, kids, [], [], multiset{}) == CtxIds(ctx) + ids;
    ChildIndex(ctx, id, ids, |s.nodes|);
  }

  lemma RegroupRight<T>(a: seq<T>, b: seq<T>, x: seq<T>, r: seq<T>, s: seq<T>, e: seq<T>)
    ensures (a + b) + x + ((r + s) + e) == a + (b + (x + r) + s) + e
  {
  }

  lemma RegroupLeft<T>(a: seq<T>, b: seq<T>, l: seq<T>, x: seq<T>, s: seq<T>, e: seq<T>)
    ensures (a + (b + l)) + x + (s + e) == a + (b + (l + x) + s) + e
  {
  }

  /** Only leaf pages are pending at the lowest level, only subtrees above it. */
  ghost predicate OneLevel(kids: seq<Tree>, pend: seq<LeafPage>, h: int) {
    if h == 0 then kids == [] && pend != [] else h > 0 && pend == []
  }

  lemma GatheredLeaves(ctx: Ctx, id: PageId, kids: seq<Tree>, pend: seq<LeafPage>, h: int)
    ensures var f := Gathered(ctx, id, kids, pend, h);
            AllLeaves(f) == LeavesBefore(ctx) + (LeavesOf(kids) + pend) + LeavesAfter(ctx)
    ensures WorldIds(ctx, id, kids, [], [], multiset{}) == CtxIds(ctx) + multiset{id} + IdsOf(kids)
  {
    assert LeavesOf(kids) + ([] + pend) + [] == LeavesOf(kids) + pend;
  }

  lemma PathUp(ctx: Ctx, id: PageId, path: seq<PageId>)
    requires ctx.Under? && path == PathOf(ctx) + [id]
    ensures path[..|path| - 1] == PathOf(ctx.up) + [ctx.pid] && path[..|path| - 1][0] == path[0]
  {
  }

  ghost predicate AtLevel(t: Tree, h: int) {
    if h == 1 then t.Leaf? else t.Branch?
  }

  lemma RightLeaves(ctx: Ctx, id: PageId, kids: seq<Tree>, pend: seq<LeafPage>, h: int)
    requires ctx.Under? && ctx.right != [] && OneLevel(kids, pend, h) && AtLevel(ctx.right[0], h + 1)
    ensures AllLeaves(WithRight(ctx, id, kids, pend, h)) == AllLeaves(Gathered(ctx, id, kids, pend, h))
  {
    var r := ctx.right[0];
    GatheredLeaves(ctx, id, kids, pend, h);
    LeavesOfNode(r);
    LeavesOfAppend(kids, KidsOf(r));
    var x := LeavesOf(kids) + pend;
    assert LeavesOf(kids + KidsOf(r)) + (pend + PageOf(r)) == x + Leaves(r);
    assert LeavesOf(ctx.right) == Leaves(r) + LeavesOf(ctx.right[1..]);
    RegroupRight(LeavesBefore(ctx.up), LeavesOf(ctx.left), x, Leaves(r), LeavesOf(ctx.right[1..]), LeavesAfter(ctx.up));
  }

  lemma LeftLeaves(ctx: Ctx, id: PageId, kids: seq<Tree>, pend: seq<LeafPage>, h: int)
    requires ctx.Under? && ctx.left != [] && OneLevel(kids, pend, h) && AtLevel(ctx.left[|ctx.left| - 1], h + 1)
    ensures AllLeaves(WithLeft(ctx, id, kids, pend, h)) == AllLeaves(Gathered(ctx, id, kids, pend, h))
  {
    var n := |ctx.left| - 1;
    var l := ctx.left[n];
    GatheredLeaves(ctx, id, kids, pend, h);
    LeavesOfNode(l);
    LeavesOfAppend(KidsOf(l), kids);
    var x := LeavesOf(kids) + pend;
    assert LeavesOf(KidsOf(l) + kids) + (PageOf(l) + pend) == Leaves(l) + x;
    assert ctx.left == ctx.left[..n] + [l];
    LeavesOfAppend(ctx.left[..n], [l]);
    LeavesOfOne(l);
    RegroupLeft(LeavesBefore(ctx.up), LeavesOf(ctx.left[..n]), Leaves(l), x, LeavesOf(ctx.right), LeavesAfter(ctx.up));
  }

  lemma OpenedRight(s: Store, ctx: Ctx, id: PageId, kids: seq<Tree>, pend: seq<LeafPage>, h: int,
                    path: seq<PageId>, ls: seq<LeafPage>, c: Caps)
    requires Steady(s, Gathered(ctx, id, kids, pend, h), path, ls, c)
    requires ctx.Under? && ctx.right != [] && OneLevel(kids, pend, h)
    ensures Steady(s, WithRight(ctx, id, kids, pend, h), path[..|path| - 1], ls, c)
    ensures Stored(s.nodes, ctx.right[0]) && Shape(ctx.right[0], h + 1, c)
  {
    hide AllLeaves, LeavesOf, Leaves, Ids, IdsOf, IdSeq, FrameNode, FrameKeys, Row, CtxIds, LeavesBefore, LeavesAfter;
    GatheredLeaves(ctx, id, kids, pend, h);
    OpenRight(s.nodes, ctx, id, kids, h + 1, c);
    PathUp(ctx, id, path);
    RightLeaves(ctx, id, kids, pend, h);
  }

  lemma OpenedLeft(s: Store, ctx: Ctx, id: PageId, kids: seq<Tree>, pend: seq<LeafPage>, h: int,
                   path: seq<PageId>, ls: seq<LeafPage>, c: Caps)
    requires Steady(s, Gathered(ctx, id, kids, pend, h), path, ls, c)
    requires ctx.Under? && ctx.left != [] && OneLevel(kids, pend, h)
    ensures Steady(s, WithLeft(ctx, id, kids, pend, h), path[..|path| - 1], ls, c)
    ensures var l := ctx.left[|ctx.left| - 1]; Stored(s.nodes, l) && Shape(l, h + 1, c)
  {
    hide AllLeaves, LeavesOf, Leaves, Ids, IdsOf, IdSeq, FrameNode, FrameKeys, Row, CtxIds, LeavesBefore, LeavesAfter;
    GatheredLeaves(ctx, id, kids, pend, h);
    OpenLeft(s.nodes, ctx, id, kids, h + 1, c);
    PathUp(ctx, id, path);
    LeftLeaves(ctx, id, kids, pend, h);
  }

  /** The separators above stay right when a sibling joins in. */
  lemma HeadRight(ctx: Ctx, id: PageId, kids: seq<Tree>, pend: seq<LeafPage>, h: int, c: Caps)
    requires ctx.Under? && OneLevel(kids, pend, h) && (kids != [] || pend != [])
    requires Exact(ctx, HeadKey(Gathered(ctx, id, kids, pend, h)))
    requires c.Ok() && ctx.right != [] && Shape(ctx.right[0], h + 1, c)
    ensures Exact(ctx.up, HeadKey(WithRight(ctx, id, kids, pend, h)))
  {
    if kids != [] {
      assert (kids + KidsOf(ctx.right[0]))[0] == kids[0];
    } else {
      assert (pend + PageOf(ctx.right[0]))[0] == pend[0];
    }
  }

  lemma HeadLeft(ctx: Ctx, id: PageId, kids: seq<Tree>, pend: seq<LeafPage>, h: int, c: Caps)
    requires ctx.Under? && OneLevel(kids, pend, h) && (kids != [] || pend != [])
    requires Exact(ctx, HeadKey(Gathered(ctx, id, kids, pend, h)))
    requires c.Ok() && ctx.left != [] && Shape(ctx.left[|ctx.left| - 1], h + 1, c)
    ensures Exact(ctx.up, HeadKey(WithLeft(ctx, id, kids, pend, h)))
  {
    var l := ctx.left[|ctx.left| - 1];
    if |ctx.left| == 1 {
      if l.Branch? {
        assert (KidsOf(l) + kids)[0] == l.kids[0];
      } else {
        assert (PageOf(l) + pend)[0] == l.page;
      }
    }
  }

  /** Writing the next child page of the family. */
  ghost function Wrote(f: Family, t: Tree): Family
    requires KidsOf(t) <= f.loose && PageOf(t) <= f.pend
  {
    f.(before := f.before + [t], loose := f.loose[|KidsOf(t)|..], open := f.open - multiset{Id(t)},
       pend := f.pend[|PageOf(t)|..])
  }

  /** After writing two neighbours the family is complete. */
  lemma WrotePair(f: Family, lt: Tree, rt: Tree)
    requires f.loose == KidsOf(lt) + KidsOf(rt) && f.pend == PageOf(lt) + PageOf(rt)
    requires f.open == multiset{Id(lt), Id(rt)}
    ensures KidsOf(lt) <= f.loose && PageOf(lt) <= f.pend && Id(lt) in f.open
    ensures var f1 := Wrote(f, lt);
            && KidsOf(rt) <= f1.loose && PageOf(rt) <= f1.pend && Id(rt) in f1.open
            && f1.h == f.h
            && Wrote(f1, rt) == f.(before := f.before + [lt, rt], loose := [], open := multiset{}, pend := [])
  {
    hide KidsOf, PageOf, Id;
    var f1 := Wrote(f, lt);
    assert f1.loose == KidsOf(rt) && f1.pend == PageOf(rt) && f1.open == multiset{Id(rt)};
    assert f.before + [lt] + [rt] == f.before + [lt, rt];
  }

  lemma OneAndTwo<T>(s: seq<T>, a: T, b: T, d: T)
    ensures s + [a] + [b, d] == s + [a, b, d]
  {
  }

  lemma RestOfThree<T>(a: seq<T>, b: seq<T>, d: seq<T>)
    ensures a <= a + b + d && (a + b + d)[|a|..] == b + d
  {
  }

  lemma WroteThree(f: Family, lt: Tree, mt: Tree, rt: Tree)
    requires f.loose == KidsOf(lt) + KidsOf(mt) + KidsOf(rt) && f.pend == PageOf(lt) + PageOf(mt) + PageOf(rt)
    requires f.open == multiset{Id(lt), Id(mt), Id(rt)}
    ensures KidsOf(lt) <= f.loose && PageOf(lt) <= f.pend && Id(lt) in f.open
    ensures var f1 := Wrote(f, lt);
            && KidsOf(mt) <= f1.loose && PageOf(mt) <= f1.pend && Id(mt) in f1.open
            && var f2 := Wrote(f1, mt);
            && KidsOf(rt) <= f2.loose && PageOf(rt) <= f2.pend && Id(rt) in f2.open
            && f1.h == f.h && f2.h == f.h
            && Wrote(f2, rt) == f.(before := f.before + [lt, mt, rt], loose := [], open := multiset{}, pend := [])
  {
    hide KidsOf, PageOf, Id;
    var f1 := Wrote(f, lt);
    RestOfThree(KidsOf(lt), KidsOf(mt), KidsOf(rt));
    RestOfThree(PageOf(lt), PageOf(mt), PageOf(rt));
    assert f1.open == multiset{Id(mt), Id(rt)};
    WrotePair(f1, mt, rt);
    OneAndTwo(f.before, lt, mt, rt);
  }

  lemma WroteLeaves(f: Family, t: Tree)
    requires KidsOf(t) <= f.loose && PageOf(t) <= f.pend
    requires f.loose == [] || f.pend == []
    ensures AllLeaves(Wrote(f, t)) == AllLeaves(f)
  {
    var f' := Wrote(f, t);
    assert f.loose == KidsOf(t) + f'.loose && f.pend == PageOf(t) + f'.pend;
    LeavesOfNode(t);
    LeavesOfAppend(KidsOf(t), f'.loose);
    LeavesOfAppend(f.before, [t]);
    LeavesOfOne(t);
    hide Leaves, LeavesOf, LeavesBefore, LeavesAfter;
    Shift(LeavesOf(f.before), LeavesOf(KidsOf(t)), LeavesOf(f'.loose), PageOf(t), f'.pend);
  }

  lemma Shift<T>(b: seq<T>, k: seq<T>, l: seq<T>, p: seq<T>, q: seq<T>)
    requires (k == [] && l == []) || (p == [] && q == [])
    ensures b + ((k + l) + (p + q)) == (b + (k + p)) + (l + q)
  {
  }

  lemma SteadyWritten(s: Store, f: Family, t: Tree, path: seq<PageId>, ls: seq<LeafPage>, c: Caps)
    requires Steady(s, f, path, ls, c) && Id(t) in f.open
    requires KidsOf(t) <= f.loose && PageOf(t) <= f.pend
    requires PageShape(t, f.h, c)
    ensures Id(t) < |s.nodes|
    ensures Steady(s.(nodes := s.nodes[Id(t) := Image(t)]), Wrote(f, t), path, ls, c)
    ensures HeadKey(Wrote(f, t)) == HeadKey(f)
  {
    hide AllLeaves, World, Image;
    var f' := Wrote(f, t);
    assert f.loose == KidsOf(t) + f'.loose;
    assert f.open == f'.open + multiset{Id(t)};
    Written(s.nodes, f.up, f.pid, f.before, t, f'.loose, f.after, f'.open, f.h, c);
    WroteLeaves(f, t);
  }

  /** Writing both pages of a pair of siblings. */
  lemma SteadyPair(s: Store, f: Family, lt: Tree, rt: Tree, path: seq<PageId>, ls: seq<LeafPage>, c: Caps)
    requires Steady(s, f, path, ls, c)
    requires f.loose == KidsOf(lt) + KidsOf(rt) && f.pend == PageOf(lt) + PageOf(rt)
    requires f.open == multiset{Id(lt), Id(rt)}
    requires PageShape(lt, f.h, c) && PageShape(rt, f.h, c)
    ensures Id(lt) < |s.nodes| && Id(rt) < |s.nodes|
    ensures var g := f.(before := f.before + [lt, rt], loose := [], open := multiset{}, pend := []);
            && Steady(s.(nodes := s.nodes[Id(lt) := Image(lt)][Id(rt) := Image(rt)]), g, path, ls, c)
            && HeadKey(g) == HeadKey(f)
  {
    hide Steady, HeadKey, Wrote, KidsOf, PageOf, Image, Id, PageShape;
    WrotePair(f, lt, rt);
    SteadyWritten(s, f, lt, path, ls, c);
    SteadyWritten(s.(nodes := s.nodes[Id(lt) := Image(lt)]), Wrote(f, lt), rt, path, ls, c);
  }

  /** Writing three neighbouring siblings. */
  lemma SteadyThree(s: Store, f: Family, lt: Tree, mt: Tree, rt: Tree, path: seq<PageId>, ls: seq<LeafPage>, c: Caps)
    requires Steady(s, f, path, ls, c)
    requires f.loose == KidsOf(lt) + KidsOf(mt) + KidsOf(rt) && f.pend == PageOf(lt) + PageOf(mt) + PageOf(rt)
    requires f.open == multiset{Id(lt), Id(mt), Id(rt)}
    requires PageShape(lt, f.h, c) && PageShape(mt, f.h, c) && PageShape(rt, f.h, c)
    ensures Id(lt) < |s.nodes| && Id(mt) < |s.nodes| && Id(rt) < |s.nodes|
    ensures var g := f.(before := f.before + [lt, mt, rt], loose := [], open := multiset{}, pend := []);
            && Steady(s.(nodes := s.nodes[Id(lt) := Image(lt)][Id(mt) := Image(mt)][Id(rt) := Image(rt)]), g, path,
                      ls, c)
            && HeadKey(g) == HeadKey(f)
  {
    hide Steady, HeadKey, Wrote, KidsOf, PageOf, Image, Id, PageShape;
    WroteThree(f, lt, mt, rt);
    SteadyWritten(s, f, lt, path, ls, c);
    var s1 := s.(nodes := s.nodes[Id(lt) := Image(lt)]);
    var f1 := Wrote(f, lt);
    SteadyWritten(s1, f1, mt, path, ls, c);
    SteadyWritten(s1.(nodes := s1.nodes[Id(mt) := Image(mt)]), Wrote(f1, mt), rt, path, ls, c);
  }

  lemma SteadyAllocated(s: Store, blank: Node, f: Family, path: seq<PageId>, ls: seq<LeafPage>, c: Caps)
    requires Steady(s, f, path, ls, c) && |s.nodes| < MAX_PAGES
    ensures |s.nodes| !in f.open
    ensures Steady(s.(nodes := s.nodes + [blank]), f.(open := f.open + multiset{|s.nodes|}), path, ls, c)
    ensures HeadKey(f.(open := f.open + multiset{|s.nodes|})) == HeadKey(f)
  {
    hide IdsOf, Around, Row, LeavesOf, Leaves;
    var ids := WorldIds(f.up, f.pid, f.before, f.loose, f.after, f.open);
    assert forall x :: x in f.open ==> x in ids;
    Allocated(s.nodes, blank, f.up, f.pid, f.before, f.loose, f.after, f.open, f.h, c);
  }

  /** The family is complete: its parent page can be written. */
  lemma SteadyParent(s: Store, f: Family, path: seq<PageId>, ls: seq<LeafPage>, c: Caps)
    requires Steady(s, f, path, ls, c) && f.loose == [] && f.pend == [] && f.open == multiset{} && f.h >= 1
    requires (if f.up.Top? then 2 else c.HalfKids()) <= |f.before| + |f.after| <= c.inner + 1
    requires f.before != []
    ensures f.pid < |s.nodes|
    ensures var b := Branch(f.pid, f.before + f.after);
            && Focus(s.nodes[f.pid := Image(b)], s.root, s.first, s.height, f.up, b, f.h + 1, path, ls, c)
            && MinKey(b) == HeadKey(f)
  {
    hide Image, IdsOf, Ids, Around, Stored;
    var b := Branch(f.pid, f.before + f.after);
    ParentWritten(s.nodes, f.up, f.pid, f.before, f.after, f.h, c);
    LeavesOfAppend(f.before, f.after);
    assert LeavesOf(f.before) + (LeavesOf(f.loose) + f.pend) + LeavesOf(f.after) == Leaves(b);
    assert (f.before + f.after)[0] == f.before[0];
  }

  lemma CompleteLeaves(f: Family)
    requires f.loose == [] && f.pend == [] && f.open == multiset{}
    ensures var g := Gathered(f.up, f.pid, f.before + f.after, [], f.h);
            && AllLeaves(g) == AllLeaves(f)
            && WorldIds(g.up, g.pid, g.before, g.loose, g.after, g.open)
               == WorldIds(f.up, f.pid, f.before, f.loose, f.after, f.open)
  {
    LeavesOfAppend(f.before, f.after);
    IdsOfAppend(f.before, f.after);
    assert LeavesOf([]) == [] && IdsOf([]) == multiset{};
    hide Leaves, LeavesOf, Ids, IdsOf, CtxIds, LeavesBefore, LeavesAfter;
    SameSum(LeavesOf(f.before), LeavesOf(f.after));
    SameIds(CtxIds(f.up), multiset{f.pid}, IdsOf(f.before), IdsOf(f.after));
  }

  lemma SameSum(a: seq<LeafPage>, b: seq<LeafPage>)
    ensures (a + b) + ([] + []) + [] == a + ([] + []) + b
  {
  }

  lemma SameIds(a: multiset<PageId>, b: multiset<PageId>, c: multiset<PageId>, d: multiset<PageId>)
    ensures a + b + (c + d) + multiset{} + multiset{} + multiset{} == a + b + c + multiset{} + d + multiset{}
  {
  }

  /** The complete family as the children of an overfull or underfull node one level up. */
  lemma SteadyGathered(s: Store, f: Family, path: seq<PageId>, ls: seq<LeafPage>, c: Caps)
    requires Steady(s, f, path, ls, c) && f.loose == [] && f.pend == [] && f.open == multiset{} && f.before != []
    ensures Steady(s, Gathered(f.up, f.pid, f.before + f.after, [], f.h), path, ls, c)
    ensures HeadKey(Gathered(f.up, f.pid, f.before + f.after, [], f.h)) == HeadKey(f)
  {
    hide Stored, Shape, Ids, Around, AllLeaves, WorldIds;
    RowJoin(s.nodes, f.before, f.after, f.h, c);
    CompleteLeaves(f);
    assert (f.before + f.after)[0] == f.before[0];
  }

  // ----- what the methods hold in memory -----

  /** An internal node with these children; its separators may be out of date. */
  ghost predicate IsBranch(n: Node, id: PageId, children: seq<PageId>) {
    !n.isLeaf && n.pageId == id && n.nextLeaf == INVALID_PAGE_ID && n.records == [] && n.children == children
  }

  lemma BranchRebuilt(n: Node, id: PageId, ks: seq<Tree>)
    requires IsBranch(n, id, IdSeq(ks)) && n.keys == Seps(ks)
    ensures n == Image(Branch(id, ks))
  {
  }

  /** A parent in memory whose family has the pages mid in its middle. */
  ghost predicate IsParent(n: Node, f: Family, mid: seq<PageId>) {
    IsBranch(n, f.pid, IdSeq(f.before) + mid + IdSeq(f.after))
  }

  lemma ParentRebuilt(n: Node, f: Family, ts: seq<Tree>, before: seq<Tree>)
    requires IsParent(n, f, IdSeq(ts)) && before == f.before + ts
    ensures IsBranch(n, f.pid, IdSeq(before + f.after))
  {
    IdSeqAppend(f.before + ts, f.after);
    IdSeqAppend(f.before, ts);
  }

  /** Two neighbouring internal siblings in memory, and their parent. */
  ghost predicate IsPair(f: Family, left: Node, right: Node, parent: Node, c: Caps) {
    && f.h >= 2 && f.pend == [] && f.open == multiset{left.pageId, right.pageId}
    && IsBranch(left, left.pageId, left.children) && IsBranch(right, right.pageId, right.children)
    && left.children + right.children == IdSeq(f.loose)
    && IsParent(parent, f, [left.pageId, right.pageId])
    && (if f.up.Top? then 2 else c.HalfKids()) <= |f.before| + 2 + |f.after| <= c.inner + 1
  }

  /** A parent read from its page lists the hole and its siblings in order. */
  lemma ParentChildren(ctx: Ctx, id: PageId, sep: IndexKey)
    requires ctx.Under?
    ensures var n := FrameNode(ctx.pid, ctx.left, id, sep, ctx.right);
            && IsBranch(n, ctx.pid, IdSeq(ctx.left) + [id] + IdSeq(ctx.right))
            && |n.children| == |ctx.left| + 1 + |ctx.right| && |n.keys| + 1 == |n.children|
            && (ctx.right != [] ==>
                  && n.children[|ctx.left| + 1] == Id(ctx.right[0])
                  && n.children == IdSeq(ctx.left) + [id, Id(ctx.right[0])] + IdSeq(ctx.right[1..]))
            && (ctx.left != [] ==>
                  && n.children[|ctx.left| - 1] == Id(ctx.left[|ctx.left| - 1])
                  && n.children == IdSeq(ctx.left[..|ctx.left| - 1]) + [Id(ctx.left[|ctx.left| - 1]), id]
                     + IdSeq(ctx.right))
  {
  }

  /** A stored internal sibling, read from its page. */
  lemma SiblingBranch(nodes: seq<Node>, t: Tree, h: int, c: Caps)
    requires Stored(nodes, t) && Shape(t, h, c) && h >= 2
    ensures t.Branch? && c.HalfKids() <= |t.kids| <= c.inner + 1
    ensures Id(t) < |nodes| && IsBranch(nodes[Id(t)], Id(t), IdSeq(t.kids)) && nodes[Id(t)] == Image(t)
    ensures |nodes[Id(t)].keys| + 1 == |t.kids|
  {
  }

  lemma IdSeqAppend(a: seq<Tree>, b: seq<Tree>)
    ensures IdSeq(a + b) == IdSeq(a) + IdSeq(b)
  {
  }

  /** Splitting the root: two halves, side by side under a new page. */
  lemma RootFamily(nodes: seq<Node>, blank: Node, a: seq<Tree>, b: seq<Tree>, left: PageId, right: PageId, h: int,
                   c: Caps)
    requires Row(nodes, a + b, h - 1, c) && |nodes| < MAX_PAGES
    requires Distinct(multiset{left, right} + IdsOf(a + b), |nodes|)
    ensures World(nodes + [blank], Top, |nodes|, [], a + b, [], multiset{left, right}, h, c)
  {
    var rest := multiset{left, right} + IdsOf(a + b);
    assert forall x :: x in IdsOf(a + b) ==> x in rest;
    RowFrame(nodes, nodes + [blank], a + b, h - 1, c);
    assert WorldIds(Top, |nodes|, [], a + b, [], multiset{left, right}) == multiset{|nodes|} + rest;
    assert |nodes| !in rest;
    assert Distinct(multiset{|nodes|} + rest, |nodes| + 1);
  }

  /** Both halves and the page above them are written: that page is the root of a tree. */
  lemma RootGrown(nodes: seq<Node>, first: PageId, id: PageId, lt: Tree, rt: Tree, h: int, ls: seq<LeafPage>, c: Caps)
    requires c.Ok() && h >= 1 && |nodes| <= MAX_PAGES
    requires World(nodes, Top, id, [lt, rt], [], [], multiset{}, h, c)
    requires ls == Leaves(lt) + Leaves(rt) && ls != [] && first == ls[0].id
    ensures id < |nodes|
    ensures var t := Branch(id, [lt, rt]);
            Focus(nodes[id := Image(t)], id, first, h as nat + 1, Top, t, h + 1, [id], ls, c)
  {
    hide Image, Stored, Leaves, Ids, IdsOf;
    ParentWritten(nodes, Top, id, [lt, rt], [], h, c);
    assert [lt, rt] + [] == [lt, rt];
    assert [lt, rt] == [lt] + [rt];
    LeavesOfAppend([lt], [rt]);
    LeavesOfOne(lt);
    LeavesOfOne(rt);
    hide LeavesOf;
    assert [] + ls + [] == ls;
    assert Leaves(Branch(id, [lt, rt])) == ls;
  }

  /** Writing both halves and the new root above them, one after the other. */
  lemma RootRaised(nodes: seq<Node>, first: PageId, id: PageId, lt: Tree, rt: Tree, h: int, ls: seq<LeafPage>, c: Caps)
    requires c.Ok() && h >= 1 && |nodes| <= MAX_PAGES && PageShape(lt, h, c) && PageShape(rt, h, c)
    requires World(nodes, Top, id, [], KidsOf(lt) + KidsOf(rt), [], multiset{Id(lt), Id(rt)}, h, c)
    requires ls == Leaves(lt) + Leaves(rt) && ls != [] && first == ls[0].id
    ensures id < |nodes| && Id(lt) < |nodes| && Id(rt) < |nodes|
    ensures var t := Branch(id, [lt, rt]);
            var nodes' := nodes[Id(lt) := Image(lt)][Id(rt) := Image(rt)][id := Image(t)];
            Focus(nodes', id, first, h as nat + 1, Top, t, h + 1, [id], ls, c)
  {
    hide World, Focus, Image, Leaves, PageShape, KidsOf, Id;
    assert multiset{Id(lt), Id(rt)} == multiset{Id(rt)} + multiset{Id(lt)};
    Written(nodes, Top, id, [], lt, KidsOf(rt), [], multiset{Id(rt)}, h, c);
    assert KidsOf(rt) + [] == KidsOf(rt) && multiset{Id(rt)} == multiset{} + multiset{Id(rt)} && [] + [lt] == [lt];
    Written(nodes[Id(lt) := Image(lt)], Top, id, [lt], rt, [], [], multiset{}, h, c);
    assert [lt] + [rt] == [lt, rt];
    RootGrown(nodes[Id(lt) := Image(lt)][Id(rt) := Image(rt)], first, id, lt, rt, h, ls, c);
  }

  lemma ThreeIds(a: Tree, b: Tree, d: Tree)
    ensures IdSeq([a, b, d]) == [Id(a), Id(b), Id(d)]
  {
  }

  lemma MiddleInserted(parent: Node, f: Family, l: PageId, r: PageId, mid: PageId)
    requires IsParent(parent, f, [l, r])
    ensures |f.before| + 1 <= |parent.children|
    ensures var at := |f.before| + 1;
            IsParent(parent.(children := parent.children[..at] + [mid] + parent.children[at..]), f, [l, mid, r])
  {
    var at := |f.before| + 1;
    assert parent.children[..at] == IdSeq(f.before) + [l];
    assert parent.children[at..] == [r] + IdSeq(f.after);
  }

  /** The root alone: nothing around it. */
  lemma SteadyRoot(s: Store, blank: Node, id: PageId, kids: seq<Tree>, pend: seq<LeafPage>, h: int,
                   path: seq<PageId>, ls: seq<LeafPage>, c: Caps)
    requires Steady(s, Gathered(Top, id, kids, pend, h), path, ls, c)
    ensures path == [id] && s.root == id && s.height == h + 1 && ls == LeavesOf(kids) + pend
    ensures Row(s.nodes + [blank], kids, h, c)
    ensures Distinct(multiset{id, |s.nodes|} + IdsOf(kids), |s.nodes| + 1)
    ensures c.Ok() && ls != [] && s.first == ls[0].id && id < |s.nodes|
  {
    hide Stored, Shape, Leaves, LeavesOf, IdsOf, Around, AllLeaves, Row;
    GatheredLeaves(Top, id, kids, pend, h);
    var ids := multiset{id} + IdsOf(kids);
    assert WorldIds(Top, id, kids, [], [], multiset{}) == ids;
    assert multiset{id, |s.nodes|} + IdsOf(kids) == ids + multiset{|s.nodes|};
    assert id in ids;
    RowFrame(s.nodes, s.nodes + [blank], kids, h, c);
  }

  lemma RowFirst(nodes: seq<Node>, ts: seq<Tree>, h: int, c: Caps)
    requires Row(nodes, ts, h, c) && ts != []
    ensures Stored(nodes, ts[0]) && Shape(ts[0], h, c)
  {
  }

  lemma TopAlways(ctx: Ctx, m: IndexKey)
    requires ctx.Top?
    ensures Exact(ctx, m)
  {
  }

  /** An internal node and its right sibling, ready to be rewritten. */
  lemma PairRight(s: Store, node: Node, ctx: Ctx, kids: seq<Tree>, h: int, path: seq<PageId>, ls: seq<LeafPage>,
                  c: Caps)
    requires Steady(s, Gathered(ctx, node.pageId, kids, [], h), path, ls, c)
    requires h >= 1 && ctx.Under? && ctx.right != [] && IsBranch(node, node.pageId, IdSeq(kids)) && kids != []
    ensures ctx.pid < |s.nodes| && path != []
    ensures var r := ctx.right[0];
            var f := WithRight(ctx, node.pageId, kids, [], h);
            && Id(r) < |s.nodes| && s.nodes[Id(r)] == Image(r) && r.Branch?
            && |s.nodes[Id(r)].children| == |KidsOf(r)| == |s.nodes[Id(r)].keys| + 1 && s.nodes[Id(r)].pageId == Id(r)
            && |ctx.left| + 1 < |s.nodes[ctx.pid].children| && s.nodes[ctx.pid].children[|ctx.left| + 1] == Id(r)
            && Steady(s, f, path[..|path| - 1], ls, c)
            && IsPair(f, node, s.nodes[Id(r)], s.nodes[ctx.pid], c)
            && c.HalfKids() <= |KidsOf(r)| <= c.inner + 1 && |f.loose| == |kids| + |KidsOf(r)|
            && (Exact(ctx, HeadKey(Gathered(ctx, node.pageId, kids, [], h))) ==> Exact(f.up, HeadKey(f)))
  {
    hide Steady, Row, Stored, Shape, RootShape, MinKey, Seps, FrameNode, AllLeaves, HeadKey, Around, Exact, Image;
    var id := node.pageId;
    Siblings(s, ctx, id, kids, [], h, path, ls, c);
    ParentChildren(ctx, id, ctx.sep);
    OpenedRight(s, ctx, id, kids, [], h, path, ls, c);
    SiblingBranch(s.nodes, ctx.right[0], h + 1, c);
    SteadyRows(s, WithRight(ctx, id, kids, [], h), path[..|path| - 1], ls, c);
    IdSeqAppend(kids, ctx.right[0].kids);
    if Exact(ctx, HeadKey(Gathered(ctx, id, kids, [], h))) {
      HeadRight(ctx, id, kids, [], h, c);
    }
  }

  /** An internal node and its left sibling l, read from its page, ready to be rewritten. */
  ghost predicate LeftReady(s: Store, f: Family, node: Node, ctx: Ctx, l: Tree, count: nat, c: Caps)
    requires ctx.Under? && ctx.pid < |s.nodes| && ctx.left != []
  {
    var n := |ctx.left| - 1;
    && l == ctx.left[n] && Id(l) < |s.nodes| && s.nodes[Id(l)] == Image(l) && l.Branch?
    && |s.nodes[Id(l)].children| == |KidsOf(l)| == |s.nodes[Id(l)].keys| + 1 && s.nodes[Id(l)].pageId == Id(l)
    && n < |s.nodes[ctx.pid].children| && s.nodes[ctx.pid].children[n] == Id(l)
    && IsPair(f, s.nodes[Id(l)], node, s.nodes[ctx.pid], c)
    && c.HalfKids() <= |KidsOf(l)| <= c.inner + 1 && |f.loose| == count + |KidsOf(l)|
  }

  lemma PairLeft(s: Store, node: Node, ctx: Ctx, kids: seq<Tree>, h: int, path: seq<PageId>, ls: seq<LeafPage>, c: Caps)
    requires Steady(s, Gathered(ctx, node.pageId, kids, [], h), path, ls, c)
    requires h >= 1 && ctx.Under? && ctx.left != [] && IsBranch(node, node.pageId, IdSeq(kids)) && kids != []
    ensures ctx.pid < |s.nodes| && path != []
    ensures var f := WithLeft(ctx, node.pageId, kids, [], h);
            && LeftReady(s, f, node, ctx, ctx.left[|ctx.left| - 1], |kids|, c)
            && Steady(s, f, path[..|path| - 1], ls, c)
            && (Exact(ctx, HeadKey(Gathered(ctx, node.pageId, kids, [], h))) ==> Exact(f.up, HeadKey(f)))
  {
    hide Steady, Row, Stored, Shape, RootShape, MinKey, AllLeaves, HeadKey, Around, Exact, Image, LeftReady;
    PairLeftSteady(s, node.pageId, ctx, kids, h, path, ls, c);
    PairLeftReady(s, node, ctx, kids, h, path, ls, c);
  }

  lemma PairLeftReady(s: Store, node: Node, ctx: Ctx, kids: seq<Tree>, h: int, path: seq<PageId>, ls: seq<LeafPage>,
                      c: Caps)
    requires Steady(s, Gathered(ctx, node.pageId, kids, [], h), path, ls, c)
    requires h >= 1 && ctx.Under? && ctx.left != [] && IsBranch(node, node.pageId, IdSeq(kids)) && kids != []
    ensures ctx.pid < |s.nodes|
    ensures LeftReady(s, WithLeft(ctx, node.pageId, kids, [], h), node, ctx, ctx.left[|ctx.left| - 1], |kids|, c)
  {
    hide Steady, Row, Stored, Shape, RootShape, MinKey, Seps, FrameNode, AllLeaves, HeadKey, Around, Exact, Image;
    var id := node.pageId;
    PairLeftSteady(s, id, ctx, kids, h, path, ls, c);
    var l := ctx.left[|ctx.left| - 1];
    Siblings(s, ctx, id, kids, [], h, path, ls, c);
    ParentChildren(ctx, id, ctx.sep);
    SiblingBranch(s.nodes, l, h + 1, c);
    IdSeqAppend(l.kids, kids);
    hide FrameNode, IdSeq;
  }

  lemma PairLeftSteady(s: Store, id: PageId, ctx: Ctx, kids: seq<Tree>, h: int, path: seq<PageId>, ls: seq<LeafPage>,
                       c: Caps)
    requires Steady(s, Gathered(ctx, id, kids, [], h), path, ls, c) && h >= 1 && ctx.Under? && ctx.left != []
             && kids != []
    ensures path != [] && c.Ok()
    ensures var l := ctx.left[|ctx.left| - 1]; Stored(s.nodes, l) && Shape(l, h + 1, c)
    ensures var f := WithLeft(ctx, id, kids, [], h);
            && Steady(s, f, path[..|path| - 1], ls, c)
            && (Exact(ctx, HeadKey(Gathered(ctx, id, kids, [], h))) ==> Exact(f.up, HeadKey(f)))
  {
    hide Steady, Row, Stored, Shape, RootShape, MinKey, Seps, FrameNode, AllLeaves, HeadKey, Around, Exact, Image;
    Siblings(s, ctx, id, kids, [], h, path, ls, c);
    OpenedLeft(s, ctx, id, kids, [], h, path, ls, c);
    SiblingBranch(s.nodes, ctx.left[|ctx.left| - 1], h + 1, c);
    SteadyRows(s, WithLeft(ctx, id, kids, [], h), path[..|path| - 1], ls, c);
    if Exact(ctx, HeadKey(Gathered(ctx, id, kids, [], h))) {
      HeadLeft(ctx, id, kids, [], h, c);
    }
  }

  // ----- dividing keys and children -----

  function ThreeWayCounts(total: nat): (nat, nat, nat) {
    var first := (total + 2) / 3;
    var second := (total - first + 1) / 2;
    (first, second, total - first - second)
  }

  /** A full family of internal nodes divides into three that are neither too full nor too empty. */
  lemma ThirdsOfChildren(n: nat, c: Caps)
    requires c.Ok() && n == 2 * c.inner + 3
    ensures var (a, b, d) := ThreeWayCounts(n);
            && a + b + d == n
            && c.HalfKids() <= a <= c.inner + 1 && c.HalfKids() <= b <= c.inner + 1 && c.HalfKids() <= d <= c.inner + 1
  {
  }

  /** So does a full family of leaves. */
  lemma ThirdsOfKeys(n: nat, c: Caps)
    requires c.Ok() && n == 2 * c.leaf + 1
    ensures var (a, b, d) := ThreeWayCounts(n);
            && a + b + d == n
            && c.HalfLeaf() <= a <= c.leaf && c.HalfLeaf() <= b <= c.leaf && c.HalfLeaf() <= d <= c.leaf
  {
  }

  lemma CutTwo(nodes: seq<Node>, ts: seq<Tree>, a: nat, h: int, c: Caps)
    requires a <= |ts| && Row(nodes, ts, h, c)
    ensures Row(nodes, ts[..a], h, c) && Row(nodes, ts[a..], h, c)
    ensures ts == ts[..a] + ts[a..]
    ensures IdSeq(ts)[..a] == IdSeq(ts[..a]) && IdSeq(ts)[a..] == IdSeq(ts[a..])
  {
    assert ts == ts[..a] + ts[a..];
    RowSplit(nodes, ts[..a], ts[a..], h, c);
  }

  lemma CutThree(nodes: seq<Node>, ts: seq<Tree>, a: nat, b: nat, h: int, c: Caps)
    requires a <= b <= |ts| && Row(nodes, ts, h, c)
    ensures Row(nodes, ts[..a], h, c) && Row(nodes, ts[a..b], h, c) && Row(nodes, ts[b..], h, c)
    ensures ts == ts[..a] + ts[a..b] + ts[b..]
    ensures IdSeq(ts)[..a] == IdSeq(ts[..a]) && IdSeq(ts)[a..b] == IdSeq(ts[a..b]) && IdSeq(ts)[b..] == IdSeq(ts[b..])
  {
    hide Row;
    assert ts == ts[..b] + ts[b..] && ts[..b] == ts[..a] + ts[a..b];
    RowSplit(nodes, ts[..b], ts[b..], h, c);
    RowSplit(nodes, ts[..a], ts[a..b], h, c);
  }

  /** The root with one child too many falls into two halves. */
  lemma RootHalves(s: Store, blank: Node, id: PageId, kids: seq<Tree>, at: nat, h: int,
                   path: seq<PageId>, ls: seq<LeafPage>, c: Caps)
    requires Steady(s, Gathered(Top, id, kids, [], h), path, ls, c)
    requires 0 < at < |kids|
    ensures var a, b := kids[..at], kids[at..]; var nodes := s.nodes + [blank];
            && Row(nodes, a, h, c) && Row(nodes, b, h, c) && Row(nodes, a + b, h, c)
            && Stored(nodes, b[0]) && Shape(b[0], h, c) && MinKey(Branch(|s.nodes|, b)) == MinKey(b[0])
            && IdSeq(kids)[..at] == IdSeq(a) && IdSeq(kids)[at..] == IdSeq(b)
            && Distinct(multiset{id, |s.nodes|} + IdsOf(a + b), |nodes|)
            && ls == Leaves(Branch(id, a)) + Leaves(Branch(|s.nodes|, b))
    ensures path == [id] && s.root == id && s.height == h + 1
    ensures c.Ok() && ls != [] && s.first == ls[0].id && id < |s.nodes|
  {
    SteadyRoot(s, blank, id, kids, [], h, path, ls, c);
    hide Steady, Row, IdSeq, IdsOf, LeavesOf;
    var nodes := s.nodes + [blank];
    CutTwo(nodes, kids, at, h, c);
    RowFirst(nodes, kids[at..], h, c);
    LeavesOfAppend(kids[..at], kids[at..]);
  }

  lemma MovedBack<T>(a: seq<T>, b: seq<T>)
    requires a != []
    ensures a[..|a| - 1] + ([a[|a| - 1]] + b) == a + b
  {
  }

  lemma MovedFront<T>(a: seq<T>, b: seq<T>)
    requires b != []
    ensures (a + [b[0]]) + b[1..] == a + b
  {
  }

  /** Moving children between the two nodes of a pair keeps it a pair. */
  lemma PairShifted(f: Family, left: Node, right: Node, parent: Node, l: Node, r: Node, c: Caps)
    requires IsPair(f, left, right, parent, c)
    requires l == left.(children := l.children) && r == right.(children := r.children)
    requires l.children + r.children == left.children + right.children
    ensures IsPair(f, l, r, parent, c)
  {
  }

  lemma PairMerged(f: Family, left: Node, right: Node, parent: Node, c: Caps)
    requires IsPair(f, left, right, parent, c)
    ensures f.h >= 2 && f.pend == [] && f.open == multiset{left.pageId, right.pageId}
    ensures IsBranch(left.(children := left.children + right.children), left.pageId, IdSeq(f.loose))
    ensures IsParent(parent, f, [left.pageId, right.pageId])
    ensures (if f.up.Top? then 2 else c.HalfKids()) <= |f.before| + 2 + |f.after| <= c.inner + 1
    ensures |parent.children| == |f.before| + 2 + |f.after|
  {
  }

  // ----- removing a page from a family -----

  /** The key that the separators above the parent show. */
  ghost function UpKey(ctx: Ctx, m: IndexKey): IndexKey
    requires ctx.Under?
  {
    if ctx.left == [] then m else MinKey(ctx.left[0])
  }

  lemma ExactUp(ctx: Ctx, m: IndexKey)
    requires ctx.Under? && Exact(ctx, m)
    ensures Exact(ctx.up, UpKey(ctx, m))
  {
  }

  /** Pages that are not written any more leave the tree. */
  lemma SteadyDropped(s: Store, f: Family, path: seq<PageId>, ls: seq<LeafPage>, c: Caps)
    requires Steady(s, f, path, ls, c)
    ensures Steady(s, f.(open := multiset{}), path, ls, c)
  {
    hide Around, Row, IdsOf, LeavesOf, Leaves;
    var ids := WorldIds(f.up, f.pid, f.before, f.loose, f.after, f.open);
    var ids' := WorldIds(f.up, f.pid, f.before, f.loose, f.after, multiset{});
    assert ids == ids' + f.open;
    assert forall x :: x in ids' ==> x in ids && ids'[x] <= ids[x];
  }

  /** Two siblings become one: the children of both go to page Id(t), the page gone is left. */
  lemma SteadyMerged(s: Store, f: Family, t: Tree, gone: PageId, path: seq<PageId>, ls: seq<LeafPage>, c: Caps)
    requires Steady(s, f, path, ls, c)
    requires f.loose == KidsOf(t) && f.pend == PageOf(t) && f.open == multiset{Id(t), gone}
    requires PageShape(t, f.h, c)
    ensures Id(t) < |s.nodes|
    ensures var g := f.(before := f.before + [t], loose := [], open := multiset{}, pend := []);
            Steady(s.(nodes := s.nodes[Id(t) := Image(t)]), Gathered(f.up, f.pid, g.before + f.after, [], f.h), path,
                   ls, c)
  {
    hide Steady, Image, KidsOf, PageOf, PageShape, Id, HeadKey;
    SteadyWritten(s, f, t, path, ls, c);
    var f1 := Wrote(f, t);
    var s1 := s.(nodes := s.nodes[Id(t) := Image(t)]);
    SteadyDropped(s1, f1, path, ls, c);
    SteadyGathered(s1, f1.(open := multiset{}), path, ls, c);
  }

  /** Removing the page of one child from the parent's list. */
  lemma ChildRemoved(parent: Node, f: Family, r: PageId, t: Tree)
    requires IsParent(parent, f, [Id(t), r])
    ensures |parent.children| == |f.before| + 2 + |f.after|
    ensures var at := |f.before| + 1;
            IsBranch(parent.(children := parent.children[..at] + parent.children[at + 1..]), f.pid,
                     IdSeq((f.before + [t]) + f.after))
  {
    var at := |f.before| + 1;
    IdSeqAppend(f.before + [t], f.after);
    IdSeqAppend(f.before, [t]);
    assert IdSeq([t]) == [Id(t)];
    var cs := parent.children[..at] + parent.children[at + 1..];
    assert cs == IdSeq(f.before) + [Id(t)] + IdSeq(f.after);
  }

  /** A root with a single child gives way to it. */
  lemma SingleChild(s: Store, id: PageId, kids: seq<Tree>, h: int, path: seq<PageId>, ls: seq<LeafPage>, c: Caps)
    requires Steady(s, Gathered(Top, id, kids, [], h), path, ls, c) && |kids| == 1 && h >= 1
    ensures Focus(s.nodes, Id(kids[0]), s.first, h, Top, kids[0], h, [Id(kids[0])], ls, c)
            && Exact(Top, MinKey(kids[0]))
    ensures Stored(s.nodes, kids[0]) && Shape(kids[0], h, c) && s.nodes[Id(kids[0])].isLeaf == kids[0].Leaf?
    ensures Leaves(kids[0]) == ls && ls != [] && c.Ok() && s.height == h + 1
    ensures kids[0].Leaf? ==> ls[0].id == Id(kids[0])
  {
    GatheredLeaves(Top, id, kids, [], h);
    assert kids == [kids[0]];
    LeavesOfOne(kids[0]);
    IdsOfOne(kids[0]);
    RowFirst(s.nodes, kids, h, c);
    var ids := WorldIds(Top, id, kids, [], [], multiset{});
    assert ids == multiset{id} + Ids(kids[0]);
    assert forall x :: x in Ids(kids[0]) ==> x in ids && Ids(kids[0])[x] <= ids[x];
  }
}
