/** What the invariant of the B*+ index says about the pages of every index that can be reached:
    how full they are, which keys separate them and where the chain of leaves leads. */
module TreeFacts {
  import opened IndexTypes
  import opened KeyOrder
  import opened TreeModel
  import opened TreeMoves
  import opened LeafMoves
  import opened TreeSearch
  import opened TreeSize
  import opened NodeCodec
  import opened BStarPlusTree

  /** The height, which is the number of pages that a search reads, is logarithmic in the number of keys. */
  lemma SizeBoundsHeight(index: BStarPlusIndex)
    requires index.Valid()
    ensures index.size == |index.Model()|
    ensures index.height >= 2 ==>
              index.size >= 2 * (index.caps.HalfLeaf() * Power(index.caps.HalfKids(), index.height - 2))
    ensures index.kind.Int64? ==> index.caps.HalfLeaf() == 113 && index.caps.HalfKids() == 127
    ensures index.kind.String? ==> index.caps.HalfLeaf() == 8 && index.caps.HalfKids() == 8
  {
    hide Shape, Leaves, Stored, Ids;
    var t := index.tree;
    if index.height > 0 {
      AsMapSize(Flat(Leaves(t)), index.kind);
    }
    if index.height >= 2 {
      BranchLeaves(t);
      EntriesBelowAll(t.kids, index.height - 1, index.caps);
      FewestIsPower(index.caps, index.height - 1);
      Scaled(|t.kids|, 2, Fewest(index.caps, index.height - 1));
    }
  }

  lemma LowTree(index: BStarPlusIndex)
    requires index.Valid()
    ensures index.height <= 52
  {
    hide Leaves, Flat, Ordered, Chain, Stored, Distinct, Keeps;
    if index.height > 0 {
      HeightSmall(index.tree, index.height, index.caps, |index.nodes|);
    }
  }

  lemma ModelSize(index: BStarPlusIndex)
    requires index.Valid()
    ensures index.size == |index.Model()|
  {
    SizeBoundsHeight(index);
  }

  // ----- any node of the tree -----

  lemma {:induction false} PlugShape(ctx: Ctx, t: Tree, height: int, c: Caps)
    requires RootShape(Plug(ctx, t), height, c)
    ensures Placed(t, ctx, height - Depth(ctx), c)
    decreases ctx
  {
    if ctx.Under? {
      var ks := ctx.left + [t] + ctx.right;
      PlugShape(ctx.up, Branch(ctx.pid, ks), height, c);
      assert ks[|ctx.left|] == t;
    }
  }

  lemma {:induction false} PlugStoredAt(nodes: seq<Node>, ctx: Ctx, t: Tree)
    requires Stored(nodes, Plug(ctx, t))
    ensures Stored(nodes, t)
    decreases ctx
  {
    if ctx.Under? {
      var ks := ctx.left + [t] + ctx.right;
      PlugStoredAt(nodes, ctx.up, Branch(ctx.pid, ks));
      assert ks[|ctx.left|] == t;
    }
  }

  /** Every node but the root is at least half full, and all leaves are at the same depth. */
  lemma Occupancy(index: BStarPlusIndex, ctx: Ctx, t: Tree)
    requires index.Valid() && index.height > 0 && index.tree == Plug(ctx, t) && ctx.Under?
    ensures Id(t) < |index.nodes|
    ensures var n := index.nodes[Id(t)];
            && (n.isLeaf <==> Depth(ctx) + 1 == index.height)
            && (n.isLeaf ==> (index.caps.leaf + 1) / 2 <= |n.keys| == |n.records| <= index.caps.leaf)
            && (!n.isLeaf ==> (index.caps.inner + 2) / 2 <= |n.children| == |n.keys| + 1 <= index.caps.inner + 1)
  {
    PlugShape(ctx, t, index.height, index.caps);
    PlugStoredAt(index.nodes, ctx, t);
  }

  /** Each separator of an internal page is the smallest key below the child to its right, and
      greater than every key below the children to its left. */
  lemma SeparatorsExact(index: BStarPlusIndex, ctx: Ctx, t: Tree, i: nat)
    requires index.Valid() && index.height > 0 && index.tree == Plug(ctx, t) && t.Branch? && i + 1 < |t.kids|
    ensures Id(t) < |index.nodes| && |index.nodes[Id(t)].keys| == |t.kids| - 1
    ensures var sep, below := index.nodes[Id(t)].keys[i], Flat(Leaves(t.kids[i + 1]));
            && below != [] && below[0].key == sep && (forall j :: 1 <= j < |below| ==> Rank(sep) < Rank(below[j].key))
            && forall e :: e in Flat(LeavesOf(t.kids[..i + 1])) ==> Rank(e.key) < Rank(sep)
  {
    hide Ids, Stored, Shape, Chain, Flat, Leaves, LeavesOf, LeavesBefore, LeavesAfter, CtxIds, Plug, MinKey, Placed,
         Depth, Rank;
    PlugShape(ctx, t, index.height, index.caps);
    PlugStoredAt(index.nodes, ctx, t);
    BranchColumnsStored(index.nodes, t);
    var h := index.height - Depth(ctx);
    KidsPlaced(t, ctx, h, index.caps);
    LeavesHead(t.kids[i + 1], h - 1, index.caps);
    PlugLeaves(ctx, t);
    BranchLeaves(t);
    var a, b, d := t.kids[..i + 1], [t.kids[i + 1]], t.kids[i + 2..];
    assert t.kids == a + b + d;
    LeavesOfSurrounded(a, t.kids[i + 1], d);
    SliceOrdered(LeavesBefore(ctx), Leaves(t), LeavesAfter(ctx), index.kind);
    SliceOrdered(LeavesOf(a), Leaves(t.kids[i + 1]), LeavesOf(d), index.kind);
  }

  lemma BranchColumnsStored(nodes: seq<Node>, t: Tree)
    requires Stored(nodes, t) && t.Branch?
    ensures Id(t) < |nodes| && nodes[Id(t)].keys == Seps(t.kids) && nodes[Id(t)].children == IdSeq(t.kids)
    ensures forall i :: 0 <= i < |t.kids| - 1 ==> Seps(t.kids)[i] == MinKey(t.kids[i + 1])
  {
  }

  lemma KidsPlaced(t: Tree, ctx: Ctx, h: int, c: Caps)
    requires Placed(t, ctx, h, c) && t.Branch?
    ensures Shapes(t.kids, h - 1, c)
  {
  }

  lemma SliceOrdered(a: seq<LeafPage>, b: seq<LeafPage>, d: seq<LeafPage>, kind: KeyKind)
    requires Ordered(Flat(a + b + d), kind)
    ensures Ordered(Flat(b), kind)
    ensures forall e :: e in Flat(a) && Flat(b) != [] ==> Rank(e.key) < Rank(Flat(b)[0].key)
  {
    FlatAppend(a + b, d);
    FlatAppend(a, b);
    hide Flat;
    OrderedSlice(Flat(a), Flat(b), Flat(d), kind);
    if Flat(b) != [] {
      BeforeFirst(Flat(a), Flat(b), Flat(d), kind);
    }
  }

  lemma BeforeFirst(a: seq<Entry>, b: seq<Entry>, d: seq<Entry>, kind: KeyKind)
    requires Ordered(a + b + d, kind) && b != []
    ensures forall e :: e in a ==> Rank(e.key) < Rank(b[0].key)
  {
    var all := a + b + d;
    assert all[|a|] == b[0];
    forall e | e in a ensures Rank(e.key) < Rank(b[0].key) {
      var i :| 0 <= i < |a| && a[i] == e;
      assert all[i] == e;
    }
  }

  // ----- the chain of leaves -----

  /** The pages reached from page id by following next-page links n times. */
  ghost function Followed(nodes: seq<Node>, id: PageId, n: nat): seq<PageId>
    decreases n
  {
    if n == 0 || id >= |nodes| then [] else [id] + Followed(nodes, nodes[id].nextLeaf, n - 1)
  }

  /** Following the links from the first leaf for any number of steps visits the leaves of the
      tree in key order, each once, and nothing else. */
  lemma ChainVisitsLeaves(index: BStarPlusIndex, n: nat)
    requires index.Valid() && index.height > 0 && n >= |Leaves(index.tree)|
    ensures Followed(index.nodes, index.firstLeafPageId, n) == PageIds(Leaves(index.tree))
    ensures forall i, j :: 0 <= i < j < |Leaves(index.tree)| ==> Leaves(index.tree)[i].id != Leaves(index.tree)[j].id
  {
    index.ValidGrounded();
    FollowedFrom(index.Now(), index.tree, 0, n, index.caps, index.kind);
    hide *;
    assert Leaves(index.tree)[0..] == Leaves(index.tree);
    LeavesApart(index);
  }

  lemma LeavesApart(index: BStarPlusIndex)
    requires index.Valid() && index.height > 0
    ensures forall i, j :: 0 <= i < j < |Leaves(index.tree)| ==> Leaves(index.tree)[i].id != Leaves(index.tree)[j].id
  {
    LeafIdsAreIds(index.tree);
    hide Leaves, Ids, Stored, RootShape;
    OnceEach(Leaves(index.tree), Ids(index.tree));
  }

  lemma OnceEach(ls: seq<LeafPage>, ids: multiset<PageId>)
    requires multiset(PageIds(ls)) <= ids && forall x :: x in ids ==> ids[x] == 1
    ensures forall i, j :: 0 <= i < j < |ls| ==> ls[i].id != ls[j].id
  {
    forall i, j | 0 <= i < j < |ls| ensures ls[i].id != ls[j].id {
      var s := PageIds(ls);
      assert s == s[..i] + [s[i]] + s[i + 1..j] + [s[j]] + s[j + 1..];
      assert s[i] == s[j] ==> multiset(s)[s[i]] >= 2;
      assert s[i] in multiset(s);
    }
  }

  lemma {:induction false} FollowedFrom(s: Store, whole: Tree, i: nat, n: nat, c: Caps, kind: KeyKind)
    requires Grounded(s, whole, c, kind) && Chain(Leaves(whole)) && i < |Leaves(whole)| && n >= |Leaves(whole)| - i
    ensures Followed(s.nodes, Leaves(whole)[i].id, n) == PageIds(Leaves(whole)[i..])
    decreases |Leaves(whole)| - i
  {
    hide Leaves, Stored, RootShape, Shape, Ids, Flat, Ordered, Chain;
    var ls := Leaves(whole);
    LeafStored(s.nodes, whole, i);
    ChainNext(s, whole, i, c, kind);
    hide Grounded;
    assert s.nodes[ls[i].id].nextLeaf == ls[i].next;
    if i + 1 < |ls| {
      FollowedFrom(s, whole, i + 1, n - 1, c, kind);
      assert PageIds(ls[i..]) == [ls[i].id] + PageIds(ls[i + 1..]);
    } else {
      assert PageIds(ls[i..]) == [ls[i].id];
    }
  }

  // ----- pages and keys -----

  /** Each page of the tree, read from the file, is the node that the tree has there. */
  lemma PagesHoldTree(index: BStarPlusIndex, ctx: Ctx, t: Tree)
    requires index.Valid() && index.height > 0 && index.tree == Plug(ctx, t)
    ensures Id(t) < |index.disk.Pages()| && DecodeNode(index.disk.Pages()[Id(t)], index.kind) == Good(Image(t))
  {
    hide Leaves, Flat, Ordered, Chain, DecodeNode, RootShape, Distinct;
    PlugStoredAt(index.nodes, ctx, t);
    assert Keeps(index.disk.Pages()[Id(t)], index.nodes[Id(t)], index.kind);
    TopPage(index.nodes, t);
  }

  lemma TopPage(nodes: seq<Node>, t: Tree)
    requires Stored(nodes, t)
    ensures nodes[Id(t)] == Image(t) && Image(t).pageId == Id(t)
  {
  }

  /** All keys of an index can be written. */
  lemma KeysAreWritable(index: BStarPlusIndex, key: IndexKey)
    requires index.Valid() && key in index.Model()
    ensures KeyEncodable(key, index.kind)
  {
    hide KeyEncodable, DecodeNode, Chain, Ordered, BStarPlusIndex.Rooted, Stored, Leaves, Flat;
    var ls := Leaves(index.tree);
    AsMapHas(Flat(ls), key);
    var n :| 0 <= n < |Flat(ls)| && Flat(ls)[n].key == key;
    var i, j := EntryPlace(ls, n);
    RootedStored(index);
    LeafStored(index.nodes, index.tree, i);
    assert Keeps(index.disk.Pages()[ls[i].id], index.nodes[ls[i].id], index.kind);
    assert Keys(ls[i].entries)[j] == key;
  }

  lemma RootedStored(index: BStarPlusIndex)
    requires index.Valid() && index.height > 0
    ensures Stored(index.nodes, index.tree)
  {
  }

  /** The leaf of an entry, and its place there. */
  lemma EntryPlace(ls: seq<LeafPage>, n: nat) returns (i: nat, j: nat)
    requires n < |Flat(ls)|
    ensures i < |ls| && j < |ls[i].entries| && Flat(ls)[n] == ls[i].entries[j]
  {
    if n < |ls[0].entries| {
      i, j := 0, n;
    } else {
      i, j := EntryPlace(ls[1..], n - |ls[0].entries|);
      i := i + 1;
    }
  }
}
