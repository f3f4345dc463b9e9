/** One rewriting of a family of sibling pages: what holds of the page store between the writes. */
module TreeSteps {
  import opened IndexTypes
  import opened TreeModel

  function KidsOf(t: Tree): seq<Tree> {
    if t.Leaf? then [] else t.kids
  }

  /** The children of page pid are being rewritten from left to right. Done and still to the left
      of the changes: before; not yet given to a parent page: the grandchildren loose; untouched:
      after. The pages in open will be written next. */
  ghost predicate World(nodes: seq<Node>, up: Ctx, pid: PageId, before: seq<Tree>, loose: seq<Tree>,
                        after: seq<Tree>, open: multiset<PageId>, h: int, c: Caps)
  {
    && Around(nodes, up, pid, h + 1, c)
    && Row(nodes, before, h, c) && Row(nodes, loose, h - 1, c) && Row(nodes, after, h, c)
    && Distinct(WorldIds(up, pid, before, loose, after, open), |nodes|)
  }

  ghost function WorldIds(up: Ctx, pid: PageId, before: seq<Tree>, loose: seq<Tree>,
                          after: seq<Tree>, open: multiset<PageId>): multiset<PageId>
  {
    CtxIds(up) + multiset{pid} + IdsOf(before) + IdsOf(loose) + IdsOf(after) + open
  }

  lemma WorldFrame(nodes: seq<Node>, nodes': seq<Node>, up: Ctx, pid: PageId, before: seq<Tree>, loose: seq<Tree>,
                   after: seq<Tree>, open: multiset<PageId>, h: int, c: Caps)
    requires World(nodes, up, pid, before, loose, after, open, h, c)
    requires Agree(nodes, nodes', CtxIds(up) + IdsOf(before) + IdsOf(loose) + IdsOf(after))
    ensures World(nodes', up, pid, before, loose, after, open, h, c)
  {
    hide Around, CtxIds, IdsOf, WorldIds;
    AgreeParts(nodes, nodes', CtxIds(up) + IdsOf(before) + IdsOf(loose), IdsOf(after));
    AgreeParts(nodes, nodes', CtxIds(up) + IdsOf(before), IdsOf(loose));
    AgreeParts(nodes, nodes', CtxIds(up), IdsOf(before));
    AroundFrame(nodes, nodes', up, pid, h + 1, c);
    RowFrame(nodes, nodes', before, h, c);
    RowFrame(nodes, nodes', loose, h - 1, c);
    RowFrame(nodes, nodes', after, h, c);
    hide Row;
  }

  lemma AgreeParts(nodes: seq<Node>, nodes': seq<Node>, a: multiset<PageId>, b: multiset<PageId>)
    requires Agree(nodes, nodes', a + b)
    ensures Agree(nodes, nodes', a) && Agree(nodes, nodes', b)
  {
    assert forall x :: x in a || x in b ==> x in a + b;
  }

  /** Allocating a page adds it to the open ones. */
  lemma Allocated(nodes: seq<Node>, blank: Node, up: Ctx, pid: PageId, before: seq<Tree>, loose: seq<Tree>,
                  after: seq<Tree>, open: multiset<PageId>, h: int, c: Caps)
    requires World(nodes, up, pid, before, loose, after, open, h, c) && |nodes| < MAX_PAGES
    ensures World(nodes + [blank], up, pid, before, loose, after, open + multiset{|nodes|}, h, c)
  {
    hide Around, Row, CtxIds, IdsOf;
    WorldFrame(nodes, nodes + [blank], up, pid, before, loose, after, open, h, c);
    var ids := WorldIds(up, pid, before, loose, after, open);
    assert WorldIds(up, pid, before, loose, after, open + multiset{|nodes|}) == ids + multiset{|nodes|};
    assert |nodes| !in ids;
  }

  /** The page at the top of t is neither too full nor too empty. */
  ghost predicate PageShape(t: Tree, h: int, c: Caps) {
    if t.Leaf? then h == 1 && c.HalfLeaf() <= |t.page.entries| <= c.leaf
    else h >= 2 && c.HalfKids() <= |t.kids| <= c.inner + 1
  }

  lemma WrittenIds(up: Ctx, pid: PageId, before: seq<Tree>, t: Tree, loose: seq<Tree>,
                   after: seq<Tree>, open: multiset<PageId>)
    ensures WorldIds(up, pid, before, KidsOf(t) + loose, after, open + multiset{Id(t)})
         == WorldIds(up, pid, before + [t], loose, after, open)
  {
    IdsOfAppend(KidsOf(t), loose);
    IdsOfAppend(before, [t]);
    IdsOfOne(t);
    IdsOfNode(t);
  }

  lemma IdsOfNode(t: Tree)
    ensures Ids(t) == multiset{Id(t)} + IdsOf(KidsOf(t))
  {
  }

  /** Writing the next child page: it takes its children from the front of the loose ones. */
  lemma Written(nodes: seq<Node>, up: Ctx, pid: PageId, before: seq<Tree>, t: Tree, loose: seq<Tree>,
                after: seq<Tree>, open: multiset<PageId>, h: int, c: Caps)
    requires World(nodes, up, pid, before, KidsOf(t) + loose, after, open + multiset{Id(t)}, h, c)
    requires PageShape(t, h, c)
    ensures Id(t) < |nodes|
    ensures World(nodes[Id(t) := Image(t)], up, pid, before + [t], loose, after, open, h, c)
  {
    hide Around, IdsOf, Leaves, LeavesOf, CtxIds;
    var ks := KidsOf(t);
    var ids := WorldIds(up, pid, before, ks + loose, after, open + multiset{Id(t)});
    assert Id(t) in ids;
    var nodes' := nodes[Id(t) := Image(t)];
    assert ids[Id(t)] == 1;
    WorldFrame(nodes, nodes', up, pid, before, ks + loose, after, open + multiset{Id(t)}, h, c);
    RowSplit(nodes', ks, loose, h - 1, c);
    RowOne(nodes', t, h, c);
    RowJoin(nodes', before, [t], h, c);
    WrittenIds(up, pid, before, t, loose, after, open);
  }

  lemma ParentIds(up: Ctx, pid: PageId, before: seq<Tree>, after: seq<Tree>)
    ensures CtxIds(up) + Ids(Branch(pid, before + after)) == WorldIds(up, pid, before, [], after, multiset{})
  {
    IdsOfAppend(before, after);
  }

  /** Once every child is in place, the parent page itself can be written. */
  lemma ParentWritten(nodes: seq<Node>, up: Ctx, pid: PageId, before: seq<Tree>, after: seq<Tree>, h: int, c: Caps)
    requires World(nodes, up, pid, before, [], after, multiset{}, h, c)
    ensures pid < |nodes|
    ensures var b := Branch(pid, before + after);
            var nodes' := nodes[pid := Image(b)];
            && Stored(nodes', b) && Around(nodes', up, pid, h + 1, c)
            && Row(nodes', before + after, h, c)
            && Distinct(CtxIds(up) + Ids(b), |nodes'|)
            && Leaves(b) == LeavesOf(before) + LeavesOf(after)
  {
    var b := Branch(pid, before + after);
    hide IdsOf, Around, Shape, Shapes, LeavesOf, CtxIds, Seps, IdSeq;
    var ids := WorldIds(up, pid, before, [], after, multiset{});
    assert pid in ids;
    assert ids[pid] == 1;
    var nodes' := nodes[pid := Image(b)];
    WorldFrame(nodes, nodes', up, pid, before, [], after, multiset{}, h, c);
    RowJoin(nodes', before, after, h, c);
    LeavesOfAppend(before, after);
    ParentIds(up, pid, before, after);
  }

  // ----- opening a family -----

  lemma OpenRightIds(ctx: Ctx, id: PageId, kids: seq<Tree>)
    requires ctx.Under? && ctx.right != []
    ensures var r := ctx.right[0];
            WorldIds(ctx.up, ctx.pid, ctx.left, kids + KidsOf(r), ctx.right[1..], multiset{id, Id(r)})
            == CtxIds(ctx) + multiset{id} + IdsOf(kids)
  {
    var r := ctx.right[0];
    IdsOfAppend(kids, KidsOf(r));
    IdsOfNode(r);
    assert IdsOf(ctx.right) == Ids(r) + IdsOf(ctx.right[1..]);
    assert CtxIds(ctx) == CtxIds(ctx.up) + multiset{ctx.pid} + IdsOf(ctx.left) + IdsOf(ctx.right);
    hide Ids, IdsOf, CtxIds, Id, KidsOf;
  }

  lemma OpenLeftIds(ctx: Ctx, id: PageId, kids: seq<Tree>)
    requires ctx.Under? && ctx.left != []
    ensures var n := |ctx.left| - 1; var l := ctx.left[n];
            WorldIds(ctx.up, ctx.pid, ctx.left[..n], KidsOf(l) + kids, ctx.right, multiset{Id(l), id})
            == CtxIds(ctx) + multiset{id} + IdsOf(kids)
  {
    var n := |ctx.left| - 1;
    var l := ctx.left[n];
    assert ctx.left == ctx.left[..n] + [l];
    IdsOfAppend(ctx.left[..n], [l]);
    IdsOfOne(l);
    IdsOfAppend(KidsOf(l), kids);
    IdsOfNode(l);
  }

  lemma KidsRow(nodes: seq<Node>, t: Tree, h: int, c: Caps)
    requires Stored(nodes, t) && Shape(t, h, c)
    ensures Row(nodes, KidsOf(t), h - 1, c)
  {
  }

  /** The same when the right sibling is rewritten too. */
  lemma OpenRight(nodes: seq<Node>, ctx: Ctx, id: PageId, kids: seq<Tree>, h: int, c: Caps)
    requires ctx.Under? && Around(nodes, ctx, id, h, c) && ctx.right != []
    requires Row(nodes, kids, h - 1, c)
    requires Distinct(CtxIds(ctx) + multiset{id} + IdsOf(kids), |nodes|)
    ensures var r := ctx.right[0];
            && World(nodes, ctx.up, ctx.pid, ctx.left, kids + KidsOf(r), ctx.right[1..], multiset{id, Id(r)}, h, c)
            && Stored(nodes, r) && Shape(r, h, c)
            && LeavesOf(ctx.right) == Leaves(r) + LeavesOf(ctx.right[1..])
  {
    hide Stored, Shape, Shapes, AllStored, IdsOf, Ids, Leaves;
    var r := ctx.right[0];
    assert ctx.right == [r] + ctx.right[1..];
    RowSplit(nodes, [r], ctx.right[1..], h, c);
    RowOne(nodes, r, h, c);
    KidsRow(nodes, r, h, c);
    RowJoin(nodes, kids, KidsOf(r), h - 1, c);
    OpenRightIds(ctx, id, kids);
  }

  /** The same when the left sibling is rewritten too. */
  lemma OpenLeft(nodes: seq<Node>, ctx: Ctx, id: PageId, kids: seq<Tree>, h: int, c: Caps)
    requires ctx.Under? && Around(nodes, ctx, id, h, c) && ctx.left != []
    requires Row(nodes, kids, h - 1, c)
    requires Distinct(CtxIds(ctx) + multiset{id} + IdsOf(kids), |nodes|)
    ensures var n := |ctx.left| - 1; var l := ctx.left[n];
            && World(nodes, ctx.up, ctx.pid, ctx.left[..n], KidsOf(l) + kids, ctx.right, multiset{Id(l), id}, h, c)
            && Stored(nodes, l) && Shape(l, h, c)
            && LeavesOf(ctx.left) == LeavesOf(ctx.left[..n]) + Leaves(l)
  {
    hide Stored, Shape, Shapes, AllStored, IdsOf, Ids, Leaves, LeavesOf;
    var n := |ctx.left| - 1;
    var l := ctx.left[n];
    assert ctx.left == ctx.left[..n] + [l];
    RowSplit(nodes, ctx.left[..n], [l], h, c);
    RowOne(nodes, l, h, c);
    KidsRow(nodes, l, h, c);
    RowJoin(nodes, KidsOf(l), kids, h - 1, c);
    LeavesOfAppend(ctx.left[..n], [l]);
    LeavesOfOne(l);
    OpenLeftIds(ctx, id, kids);
  }

  /** std::find over child pages. */
  function IndexOf(ids: seq<PageId>, id: PageId): (i: nat)
    ensures i <= |ids| && (i < |ids| ==> ids[i] == id)
    ensures forall j :: 0 <= j < i ==> ids[j] != id
  {
    if ids == [] || ids[0] == id then 0 else 1 + IndexOf(ids[1..], id)
  }

  /** A parent finds the page of the hole behind the left siblings. */
  lemma ChildIndex(ctx: Ctx, id: PageId, ids: multiset<PageId>, count: nat)
    requires ctx.Under? && Distinct(CtxIds(ctx) + ids, count) && id in ids
    ensures IndexOf(IdSeq(ctx.left) + [id] + IdSeq(ctx.right), id) == |ctx.left|
  {
    forall i | 0 <= i < |ctx.left|
      ensures IdSeq(ctx.left)[i] != id
    {
      IdsOfMember(ctx.left, i);
      var all := CtxIds(ctx) + ids;
      assert Id(ctx.left[i]) in all && id in all;
      assert all[Id(ctx.left[i])] == 1;
    }
    assert (IdSeq(ctx.left) + [id] + IdSeq(ctx.right))[|ctx.left|] == id;
  }

  lemma ReplaceMiddle<T>(a: seq<T>, x: T, y: T, b: seq<T>)
    ensures (a + [x] + b)[|a| := y] == a + [y] + b
  {
  }

  lemma SeparatorReplaced(pid: PageId, left: seq<Tree>, id: PageId, sep: IndexKey, right: seq<Tree>, key: IndexKey)
    requires left != []
    ensures var node := FrameNode(pid, left, id, sep, right);
            && |left| <= |node.keys|
            && node.(keys := node.keys[|left| - 1 := key]) == FrameNode(pid, left, id, key, right)
  {
    hide IdSeq, MinKey, Id;
    ReplaceMiddle(Seps(left), sep, key, MinKeys(right));
  }

  lemma SepIrrelevant(ctx: Ctx, sep: IndexKey)
    requires ctx.Under? && ctx.left != []
    ensures var ctx' := ctx.(sep := sep);
            && PathOf(ctx') == PathOf(ctx) && Depth(ctx') == Depth(ctx) && CtxIds(ctx') == CtxIds(ctx)
            && LeavesBefore(ctx') == LeavesBefore(ctx) && LeavesAfter(ctx') == LeavesAfter(ctx)
            && forall m :: Exact(ctx, m) ==> Exact(ctx', sep)
  {
  }

  /** Writing the right separator into the parent page. */
  lemma SeparatorCorrected(nodes: seq<Node>, ctx: Ctx, t: Tree, h: int, c: Caps)
    requires ctx.Under? && ctx.left != [] && Around(nodes, ctx, Id(t), h, c) && Stored(nodes, t)
    requires Distinct(CtxIds(ctx) + Ids(t), |nodes|)
    ensures |nodes[ctx.pid].keys| >= |ctx.left|
    ensures var parent := nodes[ctx.pid];
            var nodes' := nodes[ctx.pid := parent.(keys := parent.keys[|ctx.left| - 1 := MinKey(t)])];
            && Around(nodes', ctx.(sep := MinKey(t)), Id(t), h, c)
            && Stored(nodes', t)
  {
    hide Stored, Ids, IdsOf, Shape, FrameNode, AllStored, Shapes, Row, MinKey;
    SeparatorReplaced(ctx.pid, ctx.left, Id(t), ctx.sep, ctx.right, MinKey(t));
    var node := FrameNode(ctx.pid, ctx.left, Id(t), MinKey(t), ctx.right);
    var nodes' := nodes[ctx.pid := node];
    var rest := CtxIds(ctx.up) + IdsOf(ctx.left) + IdsOf(ctx.right) + Ids(t);
    PidFirst(CtxIds(ctx.up), multiset{ctx.pid}, IdsOf(ctx.left), IdsOf(ctx.right), Ids(t));
    OneChange(nodes, ctx.pid, node, rest);
    RowFrame(nodes, nodes', ctx.left, h, c);
    RowFrame(nodes, nodes', ctx.right, h, c);
    StoredFrame(nodes, nodes', t);
    AroundFrame(nodes, nodes', ctx.up, ctx.pid, h + 1, c);
  }

  lemma PidFirst(a: multiset<PageId>, p: multiset<PageId>, l: multiset<PageId>, r: multiset<PageId>,
                 t: multiset<PageId>)
    ensures (a + p + l + r) + t == p + (a + l + r + t)
  {
  }

  /** From a stored subtree at the hole to the stored subtree of its parent. */
  lemma Climbed(nodes: seq<Node>, ctx: Ctx, t: Tree, h: int, c: Caps)
    requires c.Ok() && ctx.Under? && ctx.left == [] && Around(nodes, ctx, Id(t), h, c) && Stored(nodes, t)
             && Shape(t, h, c)
    ensures var b := Branch(ctx.pid, ctx.left + [t] + ctx.right);
            && Stored(nodes, b) && MinKey(b) == MinKey(t) && Placed(b, ctx.up, h + 1, c)
            && CtxIds(ctx.up) + Ids(b) == CtxIds(ctx) + Ids(t)
            && LeavesBefore(ctx.up) + Leaves(b) + LeavesAfter(ctx.up)
               == LeavesBefore(ctx) + Leaves(t) + LeavesAfter(ctx)
  {
    ParentStored(nodes, ctx, t, h, c);
    LeavesClimbed(ctx, t);
  }

  // ----- a stored subtree whose surroundings may record an outdated separator -----

  /** The subtree t of height h is stored at the end of path, and everything around it too; the
      leaves of the whole are ls. Only the separators recorded in ctx may be wrong. */
  ghost predicate Focus(nodes: seq<Node>, root: PageId, first: PageId, height: nat, ctx: Ctx, t: Tree,
                        h: int, path: seq<PageId>, ls: seq<LeafPage>, c: Caps)
  {
    && c.Ok() && |nodes| <= MAX_PAGES
    && path == PathOf(ctx) + [Id(t)] && root == path[0] && height == h + Depth(ctx)
    && Around(nodes, ctx, Id(t), h, c)
    && Stored(nodes, t) && Placed(t, ctx, h, c)
    && Distinct(CtxIds(ctx) + Ids(t), |nodes|)
    && ls == LeavesBefore(ctx) + Leaves(t) + LeavesAfter(ctx)
    && ls != [] && first == ls[0].id
  }

  /** What the way up from a focus looks like. */
  lemma FocusPath(nodes: seq<Node>, root: PageId, first: PageId, height: nat, ctx: Ctx, t: Tree,
                  h: int, path: seq<PageId>, ls: seq<LeafPage>, c: Caps)
    requires Focus(nodes, root, first, height, ctx, t, h, path, ls, c)
    ensures |path| == Depth(ctx) + 1 && path[|path| - 1] == Id(t)
    ensures c.Ok() && Stored(nodes, t) && (Shape(t, h, c) || RootShape(t, h, c))
    ensures ctx.Under? ==>
              && path[|path| - 2] == ctx.pid < |nodes|
              && nodes[ctx.pid] == FrameNode(ctx.pid, ctx.left, Id(t), ctx.sep, ctx.right)
              && nodes[ctx.pid].pageId == ctx.pid && !nodes[ctx.pid].isLeaf
              && |ctx.left| + |ctx.right| == |nodes[ctx.pid].keys| <= c.inner
              && nodes[ctx.pid].records == [] && |nodes[ctx.pid].children| == |nodes[ctx.pid].keys| + 1
              && IndexOf(nodes[ctx.pid].children, Id(t)) == |ctx.left|
  {
    hide Stored, Leaves, LeavesBefore, LeavesAfter;
    PlugPath(ctx, t);
    if ctx.Under? {
      PlugPath(ctx.up, t);
      IdsOfNode(t);
      ChildIndex(ctx, Id(t), Ids(t), |nodes|);
    }
  }

  lemma FocusClimbed(nodes: seq<Node>, root: PageId, first: PageId, height: nat, ctx: Ctx, t: Tree,
                     h: int, path: seq<PageId>, ls: seq<LeafPage>, c: Caps)
    requires Focus(nodes, root, first, height, ctx, t, h, path, ls, c)
    requires ctx.Under? && ctx.left == []
    ensures var b := Branch(ctx.pid, ctx.left + [t] + ctx.right);
            && Focus(nodes, root, first, height, ctx.up, b, h + 1, path[..|path| - 1], ls, c)
            && MinKey(b) == MinKey(t) && Depth(ctx) == Depth(ctx.up) + 1
    ensures forall m :: Exact(ctx, m) ==> Exact(ctx.up, m)
  {
    hide Stored, RootShape, Shape, Leaves, Ids, MinKey, LeavesBefore, LeavesAfter, Row, FrameNode;
    var b := Branch(ctx.pid, ctx.left + [t] + ctx.right);
    Climbed(nodes, ctx, t, h, c);
    assert path[..|path| - 1] == PathOf(ctx.up) + [ctx.pid];
    assert path[..|path| - 1][0] == path[0];
  }

  lemma FocusCorrected(nodes: seq<Node>, root: PageId, first: PageId, height: nat, ctx: Ctx, t: Tree,
                       h: int, path: seq<PageId>, ls: seq<LeafPage>, c: Caps)
    requires Focus(nodes, root, first, height, ctx, t, h, path, ls, c)
    requires ctx.Under? && ctx.left != []
    ensures ctx.pid < |nodes| && |nodes[ctx.pid].keys| >= |ctx.left| && nodes[ctx.pid].pageId == ctx.pid
    ensures var parent := nodes[ctx.pid];
            var nodes' := nodes[ctx.pid := parent.(keys := parent.keys[|ctx.left| - 1 := MinKey(t)])];
            Focus(nodes', root, first, height, ctx.(sep := MinKey(t)), t, h, path, ls, c)
    ensures forall m :: Exact(ctx, m) ==> Exact(ctx.(sep := MinKey(t)), MinKey(t))
  {
    hide Stored, RootShape, Shape, Leaves, Ids, MinKey, LeavesBefore, LeavesAfter, Row, FrameKeys, CtxIds;
    SeparatorCorrected(nodes, ctx, t, h, c);
    SepIrrelevant(ctx, MinKey(t));
  }

  lemma FocusDone(nodes: seq<Node>, root: PageId, first: PageId, height: nat, ctx: Ctx, t: Tree,
                  h: int, path: seq<PageId>, ls: seq<LeafPage>, c: Caps)
    requires Focus(nodes, root, first, height, ctx, t, h, path, ls, c) && Exact(ctx, MinKey(t))
    ensures Stored(nodes, Plug(ctx, t)) && RootShape(Plug(ctx, t), height, c)
    ensures Distinct(Ids(Plug(ctx, t)), |nodes|) && root == Id(Plug(ctx, t)) && Leaves(Plug(ctx, t)) == ls
  {
    hide Leaves, Ids, MinKey, LeavesBefore, LeavesAfter, Around;
    PlugStored(nodes, ctx, t, h, height, c);
    PlugLeaves(ctx, t);
    PlugPath(ctx, t);
  }

  lemma TwoSeps(lt: Tree, rt: Tree)
    ensures Seps([lt, rt]) == [MinKey(rt)] && IdSeq([lt, rt]) == [Id(lt), Id(rt)]
  {
  }
}
