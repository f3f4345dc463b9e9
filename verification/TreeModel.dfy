/** The abstract tree behind the pages of the B*+ index: its leaves in key order, the pages it
    occupies, its shape, and what the page store must hold for it. */
module TreeModel {
  import opened IndexTypes
  import opened Sequences

  datatype LeafPage = LeafPage(id: PageId, entries: seq<Entry>, next: PageId)

  datatype Tree = Leaf(page: LeafPage) | Branch(pid: PageId, kids: seq<Tree>)

  /** Capacities: the most keys a leaf and an internal node may hold. */
  datatype Caps = Caps(leaf: nat, inner: nat) {
    ghost predicate Ok() { 3 <= leaf && 3 <= inner }
    /** The fewest keys a leaf other than the root holds. */
    function HalfLeaf(): nat { (leaf + 1) / 2 }
    /** The fewest children an internal node other than the root holds. */
    function HalfKids(): nat { (inner + 2) / 2 }
  }

  function Id(t: Tree): PageId {
    if t.Leaf? then t.page.id else t.pid
  }

  function IdSeq(ts: seq<Tree>): (ids: seq<PageId>)
    ensures |ids| == |ts| && forall i :: 0 <= i < |ts| ==> ids[i] == Id(ts[i])
  {
    seq(|ts|, i requires 0 <= i < |ts| => Id(ts[i]))
  }

  lemma RegroupIds(a: multiset<PageId>, p: multiset<PageId>, l: multiset<PageId>, t: multiset<PageId>,
                   r: multiset<PageId>)
    ensures a + (p + (l + t + r)) == (a + p + l + r) + t
  {
  }

  // ----- the leaves of a tree, and their entries, in order -----

  function Leaves(t: Tree): seq<LeafPage>
    decreases t, 1
  {
    match t
    case Leaf(p) => [p]
    case Branch(_, ks) => LeavesOf(ks)
  }

  function LeavesOf(ts: seq<Tree>): seq<LeafPage>
    decreases ts, 0
  {
    if ts == [] then [] else Leaves(ts[0]) + LeavesOf(ts[1..])
  }

  lemma {:induction false} LeavesOfAppend(a: seq<Tree>, b: seq<Tree>)
    ensures LeavesOf(a + b) == LeavesOf(a) + LeavesOf(b)
  {
    if a == [] {
      assert a + b == b;
    } else {
      LeavesOfAppend(a[1..], b);
      TailOfConcat(a, b);
      ConcatAssociative(Leaves(a[0]), LeavesOf(a[1..]), LeavesOf(b));
    }
  }

  lemma LeavesOfOne(t: Tree)
    ensures LeavesOf([t]) == Leaves(t)
  {
    assert LeavesOf([t][1..]) == [];
  }

  function Flat(ls: seq<LeafPage>): seq<Entry> {
    if ls == [] then [] else ls[0].entries + Flat(ls[1..])
  }

  lemma {:induction false} FlatAppend(a: seq<LeafPage>, b: seq<LeafPage>)
    ensures Flat(a + b) == Flat(a) + Flat(b)
  {
    if a == [] {
      assert a + b == b;
    } else {
      FlatAppend(a[1..], b);
      TailOfConcat(a, b);
      ConcatAssociative(a[0].entries, Flat(a[1..]), Flat(b));
    }
  }

  lemma FlatOne(p: LeafPage)
    ensures Flat([p]) == p.entries
  {
    assert Flat([p][1..]) == [];
  }

  /** Each page but the last points to the next one. */
  ghost predicate Linked(ls: seq<LeafPage>) {
    forall i :: 0 <= i < |ls| - 1 ==> ls[i].next == ls[i + 1].id
  }

  /** The last page points to no page. */
  ghost predicate Chain(ls: seq<LeafPage>) {
    Linked(ls) && (ls != [] ==> ls[|ls| - 1].next == INVALID_PAGE_ID)
  }

  // ----- the pages of a tree -----

  ghost function Ids(t: Tree): multiset<PageId>
    decreases t, 1
  {
    match t
    case Leaf(p) => multiset{p.id}
    case Branch(id, ks) => multiset{id} + IdsOf(ks)
  }

  ghost function IdsOf(ts: seq<Tree>): multiset<PageId>
    decreases ts, 0
  {
    if ts == [] then multiset{} else Ids(ts[0]) + IdsOf(ts[1..])
  }

  lemma SumAssociative(a: multiset<PageId>, b: multiset<PageId>, c: multiset<PageId>)
    ensures a + (b + c) == (a + b) + c
  {
  }

  lemma EmptySum(a: multiset<PageId>)
    ensures multiset{} + a == a
  {
  }

  lemma IdsOfCons(ts: seq<Tree>)
    requires ts != []
    ensures IdsOf(ts) == Ids(ts[0]) + IdsOf(ts[1..])
  {
  }

  lemma {:induction false} IdsOfAppend(a: seq<Tree>, b: seq<Tree>)
    ensures IdsOf(a + b) == IdsOf(a) + IdsOf(b)
  {
    if a == [] {
      assert a + b == b;
      EmptySum(IdsOf(b));
    } else {
      IdsOfAppend(a[1..], b);
      TailOfConcat(a, b);
      IdsOfCons(a);
      IdsOfCons(a + b);
      hide IdsOf, Ids;
      SumAssociative(Ids(a[0]), IdsOf(a[1..]), IdsOf(b));
    }
  }

  lemma IdsOfOne(t: Tree)
    ensures IdsOf([t]) == Ids(t)
  {
    assert IdsOf([t][1..]) == multiset{};
  }

  lemma {:induction false} IdsOfMember(ts: seq<Tree>, i: nat)
    requires i < |ts|
    ensures Id(ts[i]) in IdsOf(ts) && Ids(ts[i]) <= IdsOf(ts)
    ensures Id(ts[i]) in Ids(ts[i])
  {
    if i > 0 {
      IdsOfMember(ts[1..], i - 1);
    }
  }

  /** No page is used twice and every page is allocated. */
  ghost predicate Distinct(ids: multiset<PageId>, count: nat) {
    forall x :: x in ids ==> ids[x] == 1 && x < count
  }

  // ----- separators -----

  /** The smallest key of a subtree. */
  function MinKey(t: Tree): IndexKey {
    match t
    case Leaf(p) => if p.entries == [] then IntKey(0) else p.entries[0].key
    case Branch(_, ks) => if ks == [] then IntKey(0) else MinKey(ks[0])
  }

  function MinKeys(ts: seq<Tree>): (ks: seq<IndexKey>)
    ensures |ks| == |ts| && forall i :: 0 <= i < |ts| ==> ks[i] == MinKey(ts[i])
  {
    seq(|ts|, i requires 0 <= i < |ts| => MinKey(ts[i]))
  }

  /** The separators of an internal node over these children. */
  function Seps(ts: seq<Tree>): seq<IndexKey> {
    if ts == [] then [] else MinKeys(ts[1..])
  }

  // ----- shape and storage -----

  ghost predicate Shape(t: Tree, h: int, c: Caps) {
    match t
    case Leaf(p) => h == 1 && c.HalfLeaf() <= |p.entries| <= c.leaf
    case Branch(_, ks) =>
      && h >= 2 && c.HalfKids() <= |ks| <= c.inner + 1
      && forall i :: 0 <= i < |ks| ==> Shape(ks[i], h - 1, c)
  }

  ghost predicate Shapes(ts: seq<Tree>, h: int, c: Caps) {
    forall i :: 0 <= i < |ts| ==> Shape(ts[i], h, c)
  }

  /** The root may be emptier than other nodes. */
  ghost predicate RootShape(t: Tree, h: int, c: Caps) {
    match t
    case Leaf(p) => h == 1 && 1 <= |p.entries| <= c.leaf
    case Branch(_, ks) => h >= 2 && 2 <= |ks| <= c.inner + 1 && Shapes(ks, h - 1, c)
  }

  function LeafNode(p: LeafPage): Node {
    Node(true, p.id, p.next, Keys(p.entries), [], Records(p.entries))
  }

  function BranchNode(id: PageId, ks: seq<Tree>): Node {
    Node(false, id, INVALID_PAGE_ID, Seps(ks), IdSeq(ks), [])
  }

  /** The node that the page of a tree's root must hold. */
  function Image(t: Tree): Node {
    match t
    case Leaf(p) => LeafNode(p)
    case Branch(id, ks) => BranchNode(id, ks)
  }

  /** The page store holds the tree. */
  ghost predicate Stored(nodes: seq<Node>, t: Tree) {
    && Id(t) < |nodes| && nodes[Id(t)] == Image(t)
    && (t.Branch? ==> forall i :: 0 <= i < |t.kids| ==> Stored(nodes, t.kids[i]))
  }

  ghost predicate AllStored(nodes: seq<Node>, ts: seq<Tree>) {
    forall i :: 0 <= i < |ts| ==> Stored(nodes, ts[i])
  }

  /** The two stores agree on these pages. */
  ghost predicate Agree(nodes: seq<Node>, nodes': seq<Node>, ids: multiset<PageId>) {
    |nodes| <= |nodes'| && forall x :: x in ids && x < |nodes| ==> nodes'[x] == nodes[x]
  }

  lemma {:induction false} StoredFrame(nodes: seq<Node>, nodes': seq<Node>, t: Tree)
    requires Stored(nodes, t) && Agree(nodes, nodes', Ids(t))
    ensures Stored(nodes', t)
    decreases t, 1
  {
    if t.Branch? {
      AllStoredFrame(nodes, nodes', t.kids);
    }
  }

  lemma {:induction false} AllStoredFrame(nodes: seq<Node>, nodes': seq<Node>, ts: seq<Tree>)
    requires AllStored(nodes, ts) && Agree(nodes, nodes', IdsOf(ts))
    ensures AllStored(nodes', ts)
    decreases ts, 0
  {
    if ts != [] {
      StoredFrame(nodes, nodes', ts[0]);
      AllStoredFrame(nodes, nodes', ts[1..]);
      assert forall i :: 1 <= i < |ts| ==> ts[i] == ts[1..][i - 1];
    }
  }

  /** Stored sibling subtrees of height h. */
  ghost predicate Row(nodes: seq<Node>, ts: seq<Tree>, h: int, c: Caps) {
    AllStored(nodes, ts) && Shapes(ts, h, c)
  }

  lemma RowFrame(nodes: seq<Node>, nodes': seq<Node>, ts: seq<Tree>, h: int, c: Caps)
    requires Row(nodes, ts, h, c) && Agree(nodes, nodes', IdsOf(ts))
    ensures Row(nodes', ts, h, c)
  {
    AllStoredFrame(nodes, nodes', ts);
  }

  lemma RowJoin(nodes: seq<Node>, a: seq<Tree>, b: seq<Tree>, h: int, c: Caps)
    requires Row(nodes, a, h, c) && Row(nodes, b, h, c)
    ensures Row(nodes, a + b, h, c)
  {
  }

  lemma RowSplit(nodes: seq<Node>, a: seq<Tree>, b: seq<Tree>, h: int, c: Caps)
    requires Row(nodes, a + b, h, c)
    ensures Row(nodes, a, h, c) && Row(nodes, b, h, c)
  {
    assert forall i :: 0 <= i < |a| ==> a[i] == (a + b)[i];
    assert forall i :: 0 <= i < |b| ==> b[i] == (a + b)[|a| + i];
  }

  lemma RowOne(nodes: seq<Node>, t: Tree, h: int, c: Caps)
    ensures Row(nodes, [t], h, c) <==> Stored(nodes, t) && Shape(t, h, c)
  {
    assert [t][0] == t;
  }

  lemma {:induction false} LeavesHead(t: Tree, h: int, c: Caps)
    requires c.Ok() && (Shape(t, h, c) || RootShape(t, h, c))
    ensures Leaves(t) != [] && Leaves(t)[0].entries != [] && MinKey(t) == Leaves(t)[0].entries[0].key
    ensures Flat(Leaves(t)) != [] && Flat(Leaves(t))[0].key == MinKey(t)
  {
    if t.Branch? {
      LeavesHead(t.kids[0], h - 1, c);
    }
  }

  // ----- the way up from a subtree -----

  /** What surrounds a subtree, innermost node first: the page of its parent, its left and right
      siblings, the separator that the parent's page holds in front of it, and the rest above. */
  datatype Ctx = Top | Under(pid: PageId, left: seq<Tree>, right: seq<Tree>, sep: IndexKey, up: Ctx)

  /** The tree in which t sits at the hole of ctx. */
  ghost function Plug(ctx: Ctx, t: Tree): Tree
    decreases ctx
  {
    match ctx
    case Top => t
    case Under(pid, left, right, _, up) => Plug(up, Branch(pid, left + [t] + right))
  }

  ghost function Depth(ctx: Ctx): nat {
    if ctx.Top? then 0 else 1 + Depth(ctx.up)
  }

  /** The pages from the root down to, but without, the hole. */
  ghost function PathOf(ctx: Ctx): seq<PageId> {
    if ctx.Top? then [] else PathOf(ctx.up) + [ctx.pid]
  }

  ghost function CtxIds(ctx: Ctx): multiset<PageId> {
    match ctx
    case Top => multiset{}
    case Under(pid, left, right, _, up) => CtxIds(up) + multiset{pid} + IdsOf(left) + IdsOf(right)
  }

  ghost function LeavesBefore(ctx: Ctx): seq<LeafPage> {
    if ctx.Top? then [] else LeavesBefore(ctx.up) + LeavesOf(ctx.left)
  }

  ghost function LeavesAfter(ctx: Ctx): seq<LeafPage> {
    if ctx.Top? then [] else LeavesOf(ctx.right) + LeavesAfter(ctx.up)
  }

  lemma LeavesOfSurrounded(left: seq<Tree>, t: Tree, right: seq<Tree>)
    ensures LeavesOf(left + [t] + right) == LeavesOf(left) + Leaves(t) + LeavesOf(right)
    ensures IdsOf(left + [t] + right) == IdsOf(left) + Ids(t) + IdsOf(right)
  {
    LeavesOfAppend(left + [t], right);
    LeavesOfAppend(left, [t]);
    LeavesOfOne(t);
    IdsOfAppend(left + [t], right);
    IdsOfAppend(left, [t]);
    IdsOfOne(t);
  }

  /** Seen from the hole or from its parent: the same leaves and the same pages. */
  lemma LeavesClimbed(ctx: Ctx, t: Tree)
    requires ctx.Under?
    ensures var b := Branch(ctx.pid, ctx.left + [t] + ctx.right);
            && CtxIds(ctx.up) + Ids(b) == CtxIds(ctx) + Ids(t)
            && LeavesBefore(ctx.up) + Leaves(b) + LeavesAfter(ctx.up)
               == LeavesBefore(ctx) + Leaves(t) + LeavesAfter(ctx)
  {
    LeavesOfSurrounded(ctx.left, t, ctx.right);
    hide Leaves, LeavesOf, IdsOf, Ids, LeavesBefore, LeavesAfter, CtxIds;
    ClimbSteps(ctx, t);
    Regroup(LeavesBefore(ctx.up), LeavesOf(ctx.left), Leaves(t), LeavesOf(ctx.right), LeavesAfter(ctx.up));
    RegroupIds(CtxIds(ctx.up), multiset{ctx.pid}, IdsOf(ctx.left), Ids(t), IdsOf(ctx.right));
  }

  lemma ClimbSteps(ctx: Ctx, t: Tree)
    requires ctx.Under?
    ensures LeavesBefore(ctx) == LeavesBefore(ctx.up) + LeavesOf(ctx.left)
    ensures LeavesAfter(ctx) == LeavesOf(ctx.right) + LeavesAfter(ctx.up)
    ensures CtxIds(ctx) == CtxIds(ctx.up) + multiset{ctx.pid} + IdsOf(ctx.left) + IdsOf(ctx.right)
    ensures var ks := ctx.left + [t] + ctx.right;
            Leaves(Branch(ctx.pid, ks)) == LeavesOf(ks) && Ids(Branch(ctx.pid, ks)) == multiset{ctx.pid} + IdsOf(ks)
  {
  }

  lemma {:induction false} PlugLeaves(ctx: Ctx, t: Tree)
    ensures Leaves(Plug(ctx, t)) == LeavesBefore(ctx) + Leaves(t) + LeavesAfter(ctx)
    ensures Ids(Plug(ctx, t)) == CtxIds(ctx) + Ids(t)
    decreases ctx
  {
    if ctx.Under? {
      LeavesClimbed(ctx, t);
      PlugLeaves(ctx.up, Branch(ctx.pid, ctx.left + [t] + ctx.right));
    }
  }

  /** The keys that the page of a parent holds when its separator before the hole is sep. */
  function FrameKeys(left: seq<Tree>, sep: IndexKey, right: seq<Tree>): seq<IndexKey> {
    if left == [] then MinKeys(right) else Seps(left) + [sep] + MinKeys(right)
  }

  function FrameNode(pid: PageId, left: seq<Tree>, id: PageId, sep: IndexKey, right: seq<Tree>): Node {
    Node(false, pid, INVALID_PAGE_ID, FrameKeys(left, sep, right), IdSeq(left) + [id] + IdSeq(right), [])
  }

  lemma FrameIsBranch(pid: PageId, left: seq<Tree>, t: Tree, right: seq<Tree>)
    ensures FrameNode(pid, left, Id(t), MinKey(t), right) == BranchNode(pid, left + [t] + right)
  {
    var ks := left + [t] + right;
    assert IdSeq(ks) == IdSeq(left) + [Id(t)] + IdSeq(right);
    hide IdSeq, Id, MinKey;
    if left == [] {
      assert ks[1..] == right;
    } else {
      assert ks[1..] == left[1..] + [t] + right;
      assert MinKeys(left[1..] + [t] + right) == MinKeys(left[1..]) + [MinKey(t)] + MinKeys(right);
    }
  }

  /** Everything around the hole at page id, of height h, is well shaped and stored; the
      separators directly before the hole and before its ancestors are those recorded in ctx. */
  ghost predicate Around(nodes: seq<Node>, ctx: Ctx, id: PageId, h: int, c: Caps)
    decreases ctx
  {
    ctx.Under? ==>
      && Row(nodes, ctx.left, h, c) && Row(nodes, ctx.right, h, c)
      && (if ctx.up.Top? then 2 else c.HalfKids()) <= |ctx.left| + 1 + |ctx.right| <= c.inner + 1
      && ctx.pid < |nodes| && nodes[ctx.pid] == FrameNode(ctx.pid, ctx.left, id, ctx.sep, ctx.right)
      && Around(nodes, ctx.up, ctx.pid, h + 1, c)
  }

  /** The separators recorded in ctx are right for a hole whose smallest key is m. */
  ghost predicate Exact(ctx: Ctx, m: IndexKey) {
    ctx.Under? ==>
      if ctx.left == [] then Exact(ctx.up, m)
      else ctx.sep == m && Exact(ctx.up, MinKey(ctx.left[0]))
  }

  /** The hole is on the leftmost branch. */
  ghost predicate Leftmost(ctx: Ctx) {
    ctx.Under? ==> ctx.left == [] && Leftmost(ctx.up)
  }

  lemma LeftmostExact(ctx: Ctx, m: IndexKey)
    requires Leftmost(ctx)
    ensures Exact(ctx, m)
  {
  }

  lemma TopExact(ctx: Ctx, m: IndexKey)
    requires Depth(ctx) == 0
    ensures Exact(ctx, m)
  {
  }

  lemma AgreeParts(nodes: seq<Node>, nodes': seq<Node>, ctx: Ctx)
    requires ctx.Under? && Agree(nodes, nodes', CtxIds(ctx))
    ensures Agree(nodes, nodes', IdsOf(ctx.left)) && Agree(nodes, nodes', IdsOf(ctx.right))
    ensures Agree(nodes, nodes', CtxIds(ctx.up)) && (ctx.pid < |nodes| ==> nodes'[ctx.pid] == nodes[ctx.pid])
  {
    hide IdsOf;
    assert ctx.pid in CtxIds(ctx);
  }

  /** Writing one page leaves all other pages of the tree alone. */
  lemma OneChange(nodes: seq<Node>, id: PageId, n: Node, rest: multiset<PageId>)
    requires Distinct(multiset{id} + rest, |nodes|)
    ensures id < |nodes| && Agree(nodes, nodes[id := n], rest)
  {
    var all := multiset{id} + rest;
    assert id in all;
    assert all[id] == 1;
  }

  lemma {:induction false} AroundFrame(nodes: seq<Node>, nodes': seq<Node>, ctx: Ctx, id: PageId, h: int, c: Caps)
    requires Around(nodes, ctx, id, h, c) && Agree(nodes, nodes', CtxIds(ctx))
    ensures Around(nodes', ctx, id, h, c)
    decreases ctx
  {
    hide IdsOf, CtxIds, Row, FrameNode;
    if ctx.Under? {
      AgreeParts(nodes, nodes', ctx);
      RowFrame(nodes, nodes', ctx.left, h, c);
      RowFrame(nodes, nodes', ctx.right, h, c);
      AroundFrame(nodes, nodes', ctx.up, ctx.pid, h + 1, c);
    }
  }

  /** Filling the hole of the innermost parent. */
  lemma ParentStored(nodes: seq<Node>, ctx: Ctx, t: Tree, h: int, c: Caps)
    requires c.Ok() && ctx.Under? && Around(nodes, ctx, Id(t), h, c) && Stored(nodes, t)
    requires ctx.left == [] || ctx.sep == MinKey(t)
    requires Shape(t, h, c)
    ensures var b := Branch(ctx.pid, ctx.left + [t] + ctx.right);
            && Stored(nodes, b) && MinKey(b) == (if ctx.left == [] then MinKey(t) else MinKey(ctx.left[0]))
            && Placed(b, ctx.up, h + 1, c)
  {
    var ks := ctx.left + [t] + ctx.right;
    hide IdSeq, Ids, IdsOf, Leaves, LeavesOf, MinKeys;
    assert FrameKeys(ctx.left, ctx.sep, ctx.right) == FrameKeys(ctx.left, MinKey(t), ctx.right);
    FrameIsBranch(ctx.pid, ctx.left, t, ctx.right);
    assert ks[0] == if ctx.left == [] then t else ctx.left[0];
    RowOne(nodes, t, h, c);
    RowJoin(nodes, ctx.left, [t], h, c);
    RowJoin(nodes, ctx.left + [t], ctx.right, h, c);
  }

  /** The tree is as full as its place asks. */
  ghost predicate Placed(t: Tree, ctx: Ctx, h: int, c: Caps) {
    if ctx.Top? then RootShape(t, h, c) else Shape(t, h, c)
  }

  /** Filling the hole: with exact separators the whole tree is stored. */
  lemma {:induction false} PlugStored(nodes: seq<Node>, ctx: Ctx, t: Tree, h: int, height: nat, c: Caps)
    requires height == h + Depth(ctx)
    requires c.Ok() && Around(nodes, ctx, Id(t), h, c) && Exact(ctx, MinKey(t)) && Stored(nodes, t)
    requires Placed(t, ctx, h, c)
    ensures Stored(nodes, Plug(ctx, t)) && RootShape(Plug(ctx, t), height, c)
    decreases ctx
  {
    hide Row, Stored, Shape, RootShape, MinKey;
    if ctx.Under? {
      var b := Branch(ctx.pid, ctx.left + [t] + ctx.right);
      ParentStored(nodes, ctx, t, h, c);
      PlugStored(nodes, ctx.up, b, h + 1, height, c);
    }
  }

  lemma {:induction false} PlugPath(ctx: Ctx, t: Tree)
    ensures |PathOf(ctx)| == Depth(ctx)
    ensures Id(Plug(ctx, t)) == (PathOf(ctx) + [Id(t)])[0]
    decreases ctx
  {
    if ctx.Under? {
      var b := Branch(ctx.pid, ctx.left + [t] + ctx.right);
      PlugPath(ctx.up, b);
      assert PathOf(ctx) + [Id(t)] == (PathOf(ctx.up) + [Id(b)]) + [Id(t)];
    }
  }
}
