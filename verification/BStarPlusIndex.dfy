/** The B*+ index: a unique-key sorted map kept in pages. */
module BStarPlusTree {
  import opened IndexTypes
  import opened KeyOrder
  import opened TreeModel
  import opened TreeSteps
  import opened TreeMoves
  import opened LeafMoves
  import opened TreeSearch
  import opened IndexLayout
  import opened NodeCodec
  import opened DiskStorage
  import opened ByteCodec
  import TreeSize

  /** The page holds the node, unless the page has only been allocated so far. */
  ghost predicate Keeps(page: seq<byte>, n: Node, kind: KeyKind) {
    KeysFit(n.keys, kind) && (n.pageId == INVALID_PAGE_ID || DecodeNode(page, kind) == Good(n))
  }

  /** The page of a stored tree holds its top node. */
  lemma AtTop(nodes: seq<Node>, t: Tree)
    requires Stored(nodes, t)
    ensures Id(t) < |nodes| && nodes[Id(t)].pageId == Id(t)
  {
  }

  /** The way down to the first leaf. */
  lemma FirstChild(nodes: seq<Node>, t: Tree, h: int, c: Caps)
    requires c.Ok() && Stored(nodes, t) && (Shape(t, h, c) || RootShape(t, h, c)) && !nodes[Id(t)].isLeaf
    ensures t.Branch? && t.kids != [] && Stored(nodes, t.kids[0]) && Shape(t.kids[0], h - 1, c)
            && MinKey(t.kids[0]) == MinKey(t)
    ensures nodes[Id(t)].children != [] && nodes[Id(t)].children[0] == Id(t.kids[0])
  {
  }

  lemma FirstKey(nodes: seq<Node>, t: Tree, h: int, c: Caps)
    requires c.Ok() && Stored(nodes, t) && (Shape(t, h, c) || RootShape(t, h, c)) && nodes[Id(t)].isLeaf
    ensures t.Leaf? && nodes[Id(t)].keys != [] && nodes[Id(t)].keys[0] == MinKey(t) && Leaves(t) == [t.page]
    ensures nodes[Id(t)].pageId == t.page.id
  {
  }

  lemma FirstLeaves(t: Tree)
    requires t.Branch? && t.kids != [] && Leaves(t.kids[0]) != []
    ensures Leaves(t) != [] && Leaves(t)[0] == Leaves(t.kids[0])[0]
  {
  }

  lemma HeightPositive(t: Tree, h: int, c: Caps)
    requires RootShape(t, h, c)
    ensures h > 0
  {
  }

  lemma NoSeps(ts: seq<Tree>)
    ensures |Seps(ts)| == if ts == [] then 0 else |ts| - 1
    ensures forall kind :: KeysFit([], kind)
  {
  }

  lemma SepAt(ts: seq<Tree>, i: nat)
    requires 0 < i < |ts|
    ensures i - 1 < |Seps(ts)| && Seps(ts)[i - 1] == MinKey(ts[i])
  {
    assert ts[1..][i - 1] == ts[i];
  }

  lemma JoinKey(keys: seq<IndexKey>, key: IndexKey, kind: KeyKind)
    requires KeysFit(keys, kind) && KeyEncodable(key, kind)
    ensures KeysFit(keys + [key], kind)
  {
    FitOne(key, kind);
    FitJoin(keys, [key], kind);
  }

  /** A key that joins the keys of a leaf. */
  lemma KeysGained(keys: seq<IndexKey>, i: nat, key: IndexKey, kind: KeyKind)
    requires KeysFit(keys, kind) && i <= |keys|
    ensures KeysFit(keys[..i] + [key] + keys[i..], kind) <==> KeyEncodable(key, kind)
  {
    FitParts(keys, i, i, kind);
    FitParts(keys, i, |keys|, kind);
    FitOne(key, kind);
    FitJoin(keys[..i], [key], kind);
    FitJoin(keys[..i] + [key], keys[i..], kind);
  }

  /** Without one of them, the keys of a leaf still fit. */
  lemma KeysLess(keys: seq<IndexKey>, i: nat, kind: KeyKind)
    requires KeysFit(keys, kind) && i < |keys|
    ensures KeysFit(keys[..i] + keys[i + 1..], kind)
  {
    FitParts(keys, i, i, kind);
    FitParts(keys, i + 1, |keys|, kind);
    FitJoin(keys[..i], keys[i + 1..], kind);
  }

  /** Whether the first n keys can be written, once a key that cannot has joined at position i. */
  lemma KeyInHalf(keys: seq<IndexKey>, i: nat, key: IndexKey, n: nat, kind: KeyKind)
    requires KeysFit(keys, kind) && !KeyEncodable(key, kind) && i <= |keys| && n <= |keys| + 1
    ensures var all := keys[..i] + [key] + keys[i..];
            (KeysFit(all[..n], kind) <==> n <= i) && (n <= i ==> !KeysFit(all[n..], kind))
  {
    var all := keys[..i] + [key] + keys[i..];
    assert all[i] == key;
    if n <= i {
      assert all[..n] == keys[..n];
      assert all[n..][i - n] == key;
    } else {
      assert all[..n][i] == key;
    }
  }

  /** Of the keys of these entries, only the one at position pos cannot be written. */
  ghost predicate OnlyBad(es: seq<Entry>, pos: nat, kind: KeyKind) {
    && pos < |es| && !KeyEncodable(es[pos].key, kind)
    && forall i :: 0 <= i < |es| && i != pos ==> KeyEncodable(es[i].key, kind)
  }

  lemma BadJoins(es: seq<Entry>, i: nat, e: Entry, kind: KeyKind)
    requires i <= |es| && KeysFit(Keys(es), kind) && !KeyEncodable(e.key, kind)
    ensures OnlyBad(es[..i] + [e] + es[i..], i, kind)
  {
    hide KeyEncodable;
    assert forall j :: 0 <= j < |es| ==> KeyEncodable(Keys(es)[j], kind) && Keys(es)[j] == es[j].key;
  }

  lemma BadBeside(a: seq<Entry>, b: seq<Entry>, pos: nat, kind: KeyKind)
    ensures OnlyBad(a, pos, kind) && KeysFit(Keys(b), kind) ==> OnlyBad(a + b, pos, kind)
    ensures OnlyBad(b, pos, kind) && KeysFit(Keys(a), kind) ==> OnlyBad(a + b, |a| + pos, kind)
  {
    hide KeyEncodable;
    assert forall j :: 0 <= j < |b| ==> Keys(b)[j] == b[j].key;
    assert forall j :: 0 <= j < |a| ==> Keys(a)[j] == a[j].key;
  }

  /** The first n of them can be written exactly if the bad one comes later. */
  lemma FirstOnes(es: seq<Entry>, pos: nat, n: nat, kind: KeyKind)
    requires OnlyBad(es, pos, kind) && n <= |es|
    ensures KeysFit(Keys(es[0..n]), kind) <==> n <= pos
  {
    hide KeyEncodable;
    var keys := Keys(es[0..n]);
    assert |keys| == n && forall j :: 0 <= j < n ==> keys[j] == es[j].key;
  }

  lemma SomeBad(es: seq<Entry>, pos: nat, kind: KeyKind)
    requires OnlyBad(es, pos, kind)
    ensures !KeysFit(Keys(es), kind)
  {
    hide KeyEncodable;
    assert Keys(es)[pos] == es[pos].key;
  }

  /** The keys of two leaves, one of which cannot be written, dealt to three. */
  lemma DealtAll(items: seq<Entry>, a: nat, b: nat, kind: KeyKind)
    requires !KeysFit(Keys(items), kind) && a <= b <= |items|
    ensures !(KeysFit(Keys(items[0..a]), kind) && KeysFit(Keys(items[a..b]), kind)
              && KeysFit(Keys(items[b..|items|]), kind))
  {
    var x, y, z := Keys(items[0..a]), Keys(items[a..b]), Keys(items[b..|items|]);
    assert Keys(items) == x + y + z;
    FitJoin(x, y, kind);
    FitJoin(x + y, z, kind);
  }

  lemma Replaced(before: seq<Node>, n: Node)
    requires n.pageId == |before|
    ensures forall blank: Node :: (before + [blank])[n.pageId := n] == before + [n]
  {
  }

  /** Integer keys can always be written. */
  lemma OnlyStrings(key: IndexKey, kind: KeyKind)
    ensures KeyMatchesKind(key, kind) && !KeyEncodable(key, kind) ==> key.StrKey?
  {
  }

  lemma PlugTop(ctx: Ctx, t: Tree)
    requires ctx.Top?
    ensures Plug(ctx, t) == t
  {
  }

  lemma TwoIds(s: Store, f: Family, a: PageId, b: PageId, path: seq<PageId>, ls: seq<LeafPage>, c: Caps)
    requires Steady(s, f, path, ls, c) && f.open == multiset{a, b}
    ensures a != b
  {
    hide Row, IdsOf, Around, AllLeaves, CtxIds;
    var ids := WorldIds(f.up, f.pid, f.before, f.loose, f.after, f.open);
    assert a in ids && (a == b ==> ids[a] >= 2);
  }

  /** The entries of a pair of leaves, in order. */
  lemma PairOrdered(s: Store, f: Family, lp: LeafPage, rp: LeafPage, path: seq<PageId>, ls: seq<LeafPage>, c: Caps,
                    kind: KeyKind)
    requires Steady(s, f, path, ls, c) && f.loose == [] && f.pend == [lp, rp] && Ordered(Flat(ls), kind)
    ensures Ordered(lp.entries + rp.entries, kind)
  {
    ItemsSorted(s, f, lp, rp, path, ls, c, kind);
  }

  lemma ImageShaped(t: Tree, h: int, c: Caps)
    requires PageShape(t, h, c) && c.Ok()
    ensures WellShaped(Image(t)) && |Image(t).keys| <= if Image(t).isLeaf then c.leaf else c.inner
  {
  }

  /** Sorting the entries of two leaves keeps their keys. */
  lemma SortedFit(left: Node, right: Node, items: seq<Entry>, kind: KeyKind)
    requires KeysFit(left.keys, kind) && KeysFit(right.keys, kind)
    requires Keys(items) == left.keys + right.keys
    ensures KeysFit(Keys(items), kind)
  {
    FitJoin(left.keys, right.keys, kind);
  }

  lemma DealtFit(items: seq<Entry>, from: nat, to: nat, kind: KeyKind)
    requires KeysFit(Keys(items), kind) && from <= to <= |items|
    ensures KeysFit(Keys(items[from..to]), kind)
  {
    FitParts(Keys(items), from, to, kind);
    assert Keys(items[from..to]) == Keys(items)[from..to];
  }

  function KindCode(kind: KeyKind): byte {
    if kind.Int64? then INT64_CODE else STRING_CODE
  }

  function KindOf(code: byte): KeyKind {
    if code == INT64_CODE then Int64 else String
  }

  class BStarPlusIndex {
    const disk: DiskPageManager
    const kind: KeyKind
    const caps: Caps
    /** The nodes that the pages of the file hold. */
    ghost var nodes: seq<Node>
    var rootPageId: PageId
    var firstLeafPageId: PageId
    var height: nat
    var size: nat
    ghost var tree: Tree

    function MinLeafKeys(): nat {
      var m := (2 * caps.leaf + 2) / 3;
      if m < 1 then 1 else m
    }

    function MinInternalKeys(): nat {
      var m := (2 * caps.inner + 2) / 3;
      if m < 1 then 1 else m
    }

    function FitsPage(n: Node): bool {
      |n.keys| <= if n.isLeaf then caps.leaf else caps.inner
    }

    // ----- what the methods below keep -----

    /** The file is in order, and its pages hold the nodes. */
    ghost predicate Backed()
      reads this`nodes, disk
    {
      && caps == CapsFor(kind) && disk.Valid() && disk.pageCount == |nodes|
      && forall id :: 0 <= id < |nodes| ==> Keeps(disk.Pages()[id], nodes[id], kind)
    }

    /** The pages hold a tree of the recorded height. */
    ghost predicate Rooted()
      reads this`nodes, this`tree, this`height, this`rootPageId
    {
      && caps.Ok() && |nodes| <= MAX_PAGES
      && Stored(nodes, tree) && RootShape(tree, height, caps)
      && Distinct(Ids(tree), |nodes|)
      && rootPageId == Id(tree)
    }

    /** The pages hold a tree with these leaves. */
    ghost predicate Holds(ls: seq<LeafPage>)
      reads this`nodes, this`tree, this`height, this`rootPageId, this`firstLeafPageId
    {
      Rooted() && ls != [] && Leaves(tree) == ls && firstLeafPageId == ls[0].id
    }

    ghost function Now(): Store
      reads this`nodes, this`height, this`rootPageId, this`firstLeafPageId
    {
      Store(nodes, rootPageId, firstLeafPageId, height)
    }

    /** The tree around and below the end of path is stored, up to the separators that ctx records. */
    ghost predicate Focused(ctx: Ctx, t: Tree, h: int, path: seq<PageId>, ls: seq<LeafPage>)
      reads this`nodes, this`height, this`rootPageId, this`firstLeafPageId
    {
      Focus(nodes, rootPageId, firstLeafPageId, height, ctx, t, h, path, ls, caps)
    }

    /** The invariant of the index between operations. */
    ghost predicate Valid()
      reads this, disk
    {
      && Backed() && disk.Meta() == Metadata(rootPageId, firstLeafPageId, height, size, KindCode(kind))
      && if height == 0 then rootPageId == INVALID_PAGE_ID && firstLeafPageId == INVALID_PAGE_ID && size == 0
         else Holds(Leaves(tree)) && Chain(Leaves(tree)) && Ordered(Flat(Leaves(tree)), kind)
              && size == |Flat(Leaves(tree))|
    }

    /** All entries in key order. */
    ghost function Contents(): seq<Entry>
      reads this`tree, this`height
    {
      if height == 0 then [] else Flat(Leaves(tree))
    }

    /** The index as a map from keys to records. */
    ghost function Model(): map<IndexKey, Record>
      reads this`tree, this`height
    {
      AsMap(Contents())
    }

    /** The entries of the leaf where key belongs and of the neighbour with which that leaf would be split. */
    ghost function PairFor(key: IndexKey): seq<Entry>
      reads this`tree
    {
      PairAround(ContextFor(tree, Top, key), LeafFor(tree, key))
    }

    /** A new index, in a file that has just been created. */
    constructor (file: DiskPageManager, k: KeyKind)
      requires file.Valid() && file.Pages() == [] && file.Meta() == EMPTY_METADATA
      modifies file
      ensures Valid() && kind == k && disk == file && Contents() == [] && Model() == map[] && nodes == []
    {
      disk := file;
      kind := k;
      caps := CapsFor(k);
      nodes, rootPageId, firstLeafPageId, height, size := [], INVALID_PAGE_ID, INVALID_PAGE_ID, 0, 0;
      tree := Branch(0, []);
      new;
      SaveMetadata();
    }

    /** An index from the file that an earlier one has left: it has the same contents. */
    constructor Reopen(file: DiskPageManager, ghost before: BStarPlusIndex)
      requires before.Valid() && file.Valid() && file.file == before.disk.file
      ensures Valid() && disk == file && kind == before.kind && Contents() == before.Contents()
              && Model() == before.Model()
    {
      var metadata := MetadataOf(file.file);
      disk := file;
      kind := KindOf(metadata.kind);
      caps := CapsFor(KindOf(metadata.kind));
      rootPageId, firstLeafPageId, height, size := metadata.root, metadata.firstLeaf, metadata.height, metadata.size;
      nodes, tree := before.nodes, before.tree;
      new;
      SameState(before);
    }

    /** All that an index knows is in its file, besides the view of it as a tree. */
    lemma SameState(before: BStarPlusIndex)
      requires before.Valid() && disk.Valid() && disk.file == before.disk.file && caps == CapsFor(kind)
      requires kind == KindOf(MetadataOf(disk.file).kind) && nodes == before.nodes && tree == before.tree
      requires Metadata(rootPageId, firstLeafPageId, height, size, MetadataOf(disk.file).kind) == MetadataOf(disk.file)
      ensures Valid() && kind == before.kind && Contents() == before.Contents() && Model() == before.Model()
    {
      hide Keeps, Ordered, Flat, Leaves, Chain, AsMap, MetadataOf, DiskStorage.PageOf, Stored, RootShape, CapsFor;
      SamePages(disk.file, disk.pageCount, before.disk.pageCount);
      assert disk.Pages() == before.disk.Pages();
      assert disk.Meta() == before.disk.Meta();
    }

    predicate Empty()
      reads this`rootPageId, this`height
    {
      rootPageId == INVALID_PAGE_ID || height == 0
    }

    ghost method Close(ctx: Ctx, t: Tree, h: int, path: seq<PageId>, ls: seq<LeafPage>)
      requires Focused(ctx, t, h, path, ls) && Exact(ctx, MinKey(t))
      modifies this`tree
      ensures Holds(ls)
    {
      tree := Plug(ctx, t);
      FocusDone(nodes, rootPageId, firstLeafPageId, height, ctx, t, h, path, ls, caps);
    }

    /** The pages hold a tree with the same entries as these leaves, as well linked as they are. */
    ghost predicate HoldsLike(ls: seq<LeafPage>)
      reads this`nodes, this`tree, this`height, this`rootPageId, this`firstLeafPageId
    {
      Holds(Leaves(tree)) && Similar(ls, Leaves(tree))
    }

    /** A leaf with one key too many, in memory, at the end of path. */
    ghost predicate LeafSplitting(leaf: Node, path: seq<PageId>, ctx: Ctx, p: LeafPage, ls: seq<LeafPage>)
      reads this`nodes, this`height, this`rootPageId, this`firstLeafPageId
    {
      && leaf == LeafNode(p) && |p.entries| == caps.leaf + 1 && KeysFit(leaf.keys, kind)
      && Steady(Now(), Gathered(ctx, p.id, [], [p], 0), path, ls, caps)
      && Exact(ctx, HeadKey(Gathered(ctx, p.id, [], [p], 0)))
      && Ordered(Flat(ls), kind)
    }

    /** An internal node with one child too many, in memory, at the end of path. */
    ghost predicate Splitting(node: Node, path: seq<PageId>, ctx: Ctx, kids: seq<Tree>, h: int, ls: seq<LeafPage>)
      reads this`nodes, this`height, this`rootPageId, this`firstLeafPageId
    {
      && h >= 1 && |kids| == caps.inner + 2 && IsBranch(node, node.pageId, IdSeq(kids))
      && Steady(Now(), Gathered(ctx, node.pageId, kids, [], h), path, ls, caps)
      && Exact(ctx, HeadKey(Gathered(ctx, node.pageId, kids, [], h)))
    }

    // ----- pages -----

    method ReadNode(pageId: PageId) returns (n: Node)
      requires Backed() && pageId < |nodes| && nodes[pageId].pageId == pageId
      ensures n == nodes[pageId] && KeysFit(n.keys, kind)
    {
      hide DecodeNode, KeysFit;
      var page := disk.ReadPage(pageId);
      assert Keeps(disk.Pages()[pageId], nodes[pageId], kind);
      var decoded := DeserializeNode(page.value, kind);
      n := decoded.node;
    }

    /** Every node that is written is well shaped, fits its page and has keys that can be written. */
    method WriteNode(n: Node)
      requires Backed() && n.pageId < |nodes| && WellShaped(n) && FitsPage(n) && KeysFit(n.keys, kind)
      modifies this`nodes, disk
      ensures Backed() && nodes == old(nodes)[n.pageId := n] && disk.Meta() == old(disk.Meta())
    {
      var ok := TryWriteNode(n);
    }

    /** false is the exception for a key that cannot be written; then nothing has been. */
    method TryWriteNode(n: Node) returns (ok: bool)
      requires Backed() && n.pageId < |nodes| && WellShaped(n) && FitsPage(n)
      modifies this`nodes, disk
      ensures Backed() && disk.Meta() == old(disk.Meta()) && ok == KeysFit(n.keys, kind)
      ensures nodes == if ok then old(nodes)[n.pageId := n] else old(nodes)
    {
      hide DecodeNode, KeysFit, PageBytes, DiskPageManager.Meta;
      FitsByCount(n, kind);
      var data := SerializeNode(n, kind);
      if data.None? {
        return false;
      }
      NodeBack(n, kind);
      hide ReckonedSize, WellShaped;
      ok := disk.WritePage(n.pageId, data.value);
      nodes := nodes[n.pageId := n];
    }

    method AllocatePage() returns (pageId: PageId)
      requires Backed() && |nodes| < MAX_PAGES
      modifies this`nodes, disk
      ensures Backed() && disk.Meta() == old(disk.Meta())
      ensures pageId == old(|nodes|) && |nodes| == old(|nodes|) + 1 && nodes == old(nodes) + [nodes[pageId]]
      ensures nodes[pageId].pageId == INVALID_PAGE_ID
    {
      hide DecodeNode, DiskPageManager.Meta;
      var added := disk.AllocatePage();
      pageId := added.value;
      nodes := nodes + [Node(true, INVALID_PAGE_ID, INVALID_PAGE_ID, [], [], [])];
    }

    /** The metadata in memory is written to its page. */
    method SaveMetadata()
      requires Backed() && height < TWO_32 && size < TWO_64
      modifies disk
      ensures Backed() && disk.Meta() == Metadata(rootPageId, firstLeafPageId, height, size, KindCode(kind))
    {
      hide DecodeNode, KeysFit;
      disk.WriteMetadata(Metadata(rootPageId, firstLeafPageId, height, size, KindCode(kind)));
    }

    // ----- separators -----

    method SubtreeMinKey(pageId: PageId, ghost t: Tree, ghost h: int) returns (key: IndexKey)
      requires Backed()
      requires caps.Ok() && Stored(nodes, t) && Id(t) == pageId
      requires Shape(t, h, caps) || RootShape(t, h, caps)
      ensures key == MinKey(t) && KeyEncodable(key, kind)
    {
      hide Backed, KeysFit, KeyEncodable, Stored, Shape, RootShape, MinKey, Image;
      AtTop(nodes, t);
      var node := ReadNode(pageId);
      ghost var cur, ch := t, h;
      while !node.isLeaf
        invariant Stored(nodes, cur) && Id(cur) < |nodes| && node == nodes[Id(cur)] && MinKey(cur) == MinKey(t)
        invariant KeysFit(node.keys, kind) && (Shape(cur, ch, caps) || RootShape(cur, ch, caps))
        decreases cur
      {
        FirstChild(nodes, cur, ch, caps);
        cur, ch := cur.kids[0], ch - 1;
        AtTop(nodes, cur);
        node := ReadNode(node.children[0]);
      }
      FirstKey(nodes, cur, ch, caps);
      FitParts(node.keys, 0, 0, kind);
      key := node.keys[0];
    }

    method RebuildInternalKeys(node: Node, ghost kids: seq<Tree>, ghost h: int) returns (n: Node)
      requires Backed()
      requires caps.Ok() && !node.isLeaf && node.children == IdSeq(kids) && Row(nodes, kids, h, caps)
      ensures n == node.(keys := Seps(kids)) && |n.keys| == if kids == [] then 0 else |kids| - 1
      ensures KeysFit(n.keys, kind)
    {
      hide Backed, KeyEncodable, KeysFit, WellShaped, Stored, Shape, Leaves, LeavesOf, Around, MinKey, Seps;
      NoSeps(kids);
      if node.children == [] {
        return node.(keys := []);
      }
      var keys := [];
      var i := 1;
      while i < |node.children|
        invariant 1 <= i <= |node.children|
        invariant keys == Seps(kids)[..i - 1] && KeysFit(keys, kind)
      {
        assert Stored(nodes, kids[i]) && Shape(kids[i], h, caps);
        var key := SubtreeMinKey(node.children[i], kids[i], h);
        SepAt(kids, i);
        JoinKey(keys, key, kind);
        keys := keys + [key];
        i := i + 1;
      }
      assert Seps(kids)[..i - 1] == Seps(kids);
      n := node.(keys := keys);
    }

    /** The smallest key of the subtree at the end of path may have changed: correct the one
        separator that shows it. */
    method PropagateSubtreeMinChange(pageId: PageId, path: seq<PageId>, ghost ctx: Ctx, ghost t: Tree,
                                     ghost h: int, ghost m: IndexKey, ghost ls: seq<LeafPage>)
      requires Backed()
      requires pageId == Id(t) && Focused(ctx, t, h, path, ls) && Exact(ctx, m)
      modifies this`nodes, disk, this`tree
      ensures Backed()
      ensures Holds(ls) && |nodes| == old(|nodes|)
    {
      hide Backed, KeyEncodable, Focus, Around, Exact, Row, FrameNode, FrameKeys, Stored, Shape, RootShape, Rooted,
           Placed, MinKey, Ids, IdsOf, Leaves, LeavesOf, LeavesBefore, LeavesAfter, CtxIds, PathOf, Plug, IndexOf,
           IdSeq, Seps, MinKeys, Image;
      FocusPath(nodes, rootPageId, firstLeafPageId, height, ctx, t, h, path, ls, caps);
      if |path| < 2 {
        Close(ctx, t, h, path, ls);
        return;
      }
      var currentPageId := pageId;
      var currentMinKey := SubtreeMinKey(currentPageId, t, h);
      ghost var cx, ct, ch := ctx, t, h;
      var i := |path| - 1;
      assert path[..i + 1] == path;
      while i > 0
        invariant 0 <= i < |path| && Backed() && nodes == old(nodes) && unchanged(this`tree)
        invariant currentPageId == Id(ct) && currentMinKey == MinKey(ct) && KeyEncodable(currentMinKey, kind)
        invariant i == Depth(cx) && Focused(cx, ct, ch, path[..i + 1], ls) && Exact(cx, m)
      {
        FocusPath(nodes, rootPageId, firstLeafPageId, height, cx, ct, ch, path[..i + 1], ls, caps);
        assert path[..i + 1][i - 1] == path[i - 1];
        var parent := ReadNode(path[i - 1]);
        var childIndex := IndexOf(parent.children, currentPageId);
        if childIndex > 0 {
          FocusCorrected(nodes, rootPageId, firstLeafPageId, height, cx, ct, ch, path[..i + 1], ls, caps);
          parent := parent.(keys := parent.keys[childIndex - 1 := currentMinKey]);
          WriteNode(parent);
          Close(cx.(sep := MinKey(ct)), ct, ch, path[..i + 1], ls);
          return;
        }
        FocusClimbed(nodes, rootPageId, firstLeafPageId, height, cx, ct, ch, path[..i + 1], ls, caps);
        assert path[..i + 1][..i] == path[..i];
        ct := Branch(cx.pid, cx.left + [ct] + cx.right);
        cx, ch := cx.up, ch + 1;
        currentPageId := parent.pageId;
        FocusPath(nodes, rootPageId, firstLeafPageId, height, cx, ct, ch, path[..i], ls, caps);
        currentMinKey := SubtreeMinKey(currentPageId, ct, ch);
        i := i - 1;
      }
      TopExact(cx, MinKey(ct));
      Close(cx, ct, ch, path[..1], ls);
    }

    /** A parent page is rebuilt from its children, which are all in place, and written. */
    method WriteParent(parent: Node, ghost g: Family, ghost path: seq<PageId>, ghost ls: seq<LeafPage>)
      requires Backed()
      requires Steady(Now(), g, path, ls, caps) && g.loose == [] && g.pend == [] && g.open == multiset{} && g.h >= 1
      requires IsBranch(parent, g.pid, IdSeq(g.before + g.after)) && g.before != []
      requires (if g.up.Top? then 2 else caps.HalfKids()) <= |g.before| + |g.after| <= caps.inner + 1
      modifies this`nodes, disk
      ensures Backed()
      ensures Focused(g.up, Branch(g.pid, g.before + g.after), g.h + 1, path, ls) && |nodes| == old(|nodes|)
      ensures MinKey(Branch(g.pid, g.before + g.after)) == HeadKey(g)
    {
      hide Backed, KeysFit, WellShaped, Steady, Focus, Row, Stored, Shape, RootShape, MinKey, Seps, Image, HeadKey,
           IdSeq;
      ghost var ks := g.before + g.after;
      SteadyRows(Now(), g, path, ls, caps);
      var p := RebuildInternalKeys(parent, ks, g.h);
      BranchRebuilt(p, g.pid, ks);
      SteadyParent(Now(), g, path, ls, caps);
      WriteNode(p);
    }

    // ----- internal nodes -----

    /** Two internal siblings in memory share out the children of both: they are rebuilt and written,
        and so is their parent. */
    method WriteInternalPair(left: Node, right: Node, parent: Node, parentPath: seq<PageId>,
                             ghost f: Family, ghost m: IndexKey, ghost ls: seq<LeafPage>)
      requires Backed()
      requires Steady(Now(), f, parentPath, ls, caps) && Exact(f.up, m) && IsPair(f, left, right, parent, caps)
      requires caps.HalfKids() <= |left.children| <= caps.inner + 1
               && caps.HalfKids() <= |right.children| <= caps.inner + 1
      modifies this`nodes, disk, this`tree
      ensures Backed()
      ensures Holds(ls) && |nodes| == old(|nodes|)
    {
      hide Backed, KeysFit, WellShaped, Steady, Focus, Exact, Row, Stored, Shape, RootShape, Rooted, MinKey, Seps,
           Image, FrameNode, AllLeaves, HeadKey, Wrote, IdSeq, Around;
      ghost var at := |left.children|;
      ghost var lk, rk := f.loose[..at], f.loose[at..];
      SteadyRows(Now(), f, parentPath, ls, caps);
      CutTwo(nodes, f.loose, at, f.h - 1, caps);
      assert left.children == IdSeq(lk) && right.children == IdSeq(rk);
      var l := RebuildInternalKeys(left, lk, f.h - 1);
      var r := RebuildInternalKeys(right, rk, f.h - 1);
      ghost var lt, rt := Branch(left.pageId, lk), Branch(right.pageId, rk);
      BranchRebuilt(l, left.pageId, lk);
      BranchRebuilt(r, right.pageId, rk);
      SteadyPair(Now(), f, lt, rt, parentPath, ls, caps);
      ghost var f2 := f.(before := f.before + [lt, rt], loose := [], open := multiset{}, pend := []);
      WriteNode(l);
      WriteNode(r);
      ghost var ks := f2.before + f2.after;
      TwoSeps(lt, rt);
      ParentRebuilt(parent, f, [lt, rt], f2.before);
      WriteParent(parent, f2, parentPath, ls);
      PropagateSubtreeMinChange(parent.pageId, parentPath, f.up, Branch(f.pid, ks), f.h + 1, m, ls);
    }

    method RedistributeInternalPair(left: Node, right: Node, parent: Node, parentPath: seq<PageId>,
                                    ghost f: Family, ghost m: IndexKey, ghost ls: seq<LeafPage>)
      requires Backed()
      requires Steady(Now(), f, parentPath, ls, caps) && Exact(f.up, m) && IsPair(f, left, right, parent, caps)
      requires caps.inner + 2 <= |f.loose| <= 2 * caps.inner + 2
      modifies this`nodes, disk, this`tree
      ensures Backed()
      ensures Holds(ls) && |nodes| == old(|nodes|)
    {
      hide Backed, KeysFit, WellShaped, Steady, Exact;
      var children := left.children + right.children;
      var leftCount := (|children| + 1) / 2;
      WriteInternalPair(left.(children := children[..leftCount]), right.(children := children[leftCount..]),
                        parent, parentPath, f, m, ls);
    }

    /** A new root above the two halves of the old one. The C++ method can also put the right half into
        an existing parent; that branch is never entered, because below the root a node always has a
        sibling to split with. */
    method InsertIntoParent(left: Node, separator: IndexKey, right: Node, leftPath: seq<PageId>,
                            ghost lt: Tree, ghost rt: Tree, ghost h: int, ghost ls: seq<LeafPage>)
      requires Backed()
      requires KeysFit(left.keys, kind) && KeysFit(right.keys, kind) && KeyEncodable(separator, kind)
      requires |leftPath| == 1 && leftPath[0] == left.pageId
      requires caps.Ok() && h >= 1 && height == h && |nodes| < MAX_PAGES
      requires left == Image(lt) && right == Image(rt) && separator == MinKey(rt)
      requires PageShape(lt, h, caps) && PageShape(rt, h, caps)
      requires Row(nodes, KidsOf(lt) + KidsOf(rt), h - 1, caps)
      requires Distinct(multiset{Id(lt), Id(rt)} + IdsOf(KidsOf(lt) + KidsOf(rt)), |nodes|)
      requires ls == Leaves(lt) + Leaves(rt) && ls != [] && firstLeafPageId == ls[0].id
      modifies this`nodes, disk, this`rootPageId, this`height, this`tree
      ensures Backed()
      ensures Holds(ls) && |nodes| == old(|nodes|) + 1
    {
      hide Backed, KeysFit, KeyEncodable, Focus, Row, Stored, Shape, RootShape, Rooted, MinKey, Seps, Leaves,
           LeavesOf, Ids, IdsOf, World, Exact, Distinct, InWorld;
      ghost var n0 := nodes;
      assert left.pageId == Id(lt) && right.pageId == Id(rt);
      var newRootPageId := AllocatePage();
      RootFamily(n0, nodes[newRootPageId], KidsOf(lt), KidsOf(rt), Id(lt), Id(rt), h, caps);
      var newRoot := Node(false, newRootPageId, INVALID_PAGE_ID, [separator], [left.pageId, right.pageId], []);
      assert newRoot == Image(Branch(newRootPageId, [lt, rt])) by {
        TwoSeps(lt, rt);
      }
      RootRaised(nodes, firstLeafPageId, newRootPageId, lt, rt, h, ls, caps);
      ImageShaped(lt, h, caps);
      ImageShaped(rt, h, caps);
      WriteNode(left);
      WriteNode(right);
      FitOne(separator, kind);
      WriteNode(newRoot);
      rootPageId := newRootPageId;
      height := height + 1;
      TopExact(Top, MinKey(Branch(newRootPageId, [lt, rt])));
      Close(Top, Branch(newRootPageId, [lt, rt]), h + 1, [newRootPageId], ls);
    }

    /** Would the children of both fit two pages, shared out evenly? */
    method HalvesFit(left: Node, right: Node, ghost kids: seq<Tree>, ghost h: int) returns (fit: bool)
      requires Backed() && caps.Ok() && Row(nodes, kids, h, caps)
      requires !left.isLeaf && !right.isLeaf && left.children + right.children == IdSeq(kids)
      ensures fit <==> |kids| <= 2 * caps.inner + 2
    {
      hide Backed, KeysFit, Row, Stored, Shape, Seps;
      var children := left.children + right.children;
      var leftCount := (|children| + 1) / 2;
      CutTwo(nodes, kids, leftCount, h, caps);
      var candidateLeft := RebuildInternalKeys(left.(children := children[..leftCount]), kids[..leftCount], h);
      var candidateRight := RebuildInternalKeys(right.(children := children[leftCount..]), kids[leftCount..], h);
      fit := FitsPage(candidateLeft) && FitsPage(candidateRight);
    }

    method TryRedistributeInternalWithRight(node: Node, parent: Node, childIndex: nat, parentPath: seq<PageId>,
                                            ghost ctx: Ctx, ghost kids: seq<Tree>, ghost h: int,
                                              ghost ls: seq<LeafPage>)
      returns (done: bool)
      requires Backed()
      requires Splitting(node, parentPath + [node.pageId], ctx, kids, h, ls)
      requires ctx.Under? && parent == nodes[ctx.pid] && childIndex == |ctx.left|
      modifies this`nodes, disk, this`tree
      ensures Backed()
      ensures done ==> Holds(ls) && |nodes| == old(|nodes|)
      ensures !done ==> nodes == old(nodes) && (ctx.right != [] ==> |KidsOf(ctx.right[0])| == caps.inner + 1)
    {
      hide Backed, KeysFit, WellShaped, Steady, Focus, Exact, Row, Stored, Shape, RootShape, Rooted, MinKey, Seps,
           Image, FrameNode, AllLeaves, HeadKey, IdSeq;
      var id := node.pageId;
      Siblings(Now(), ctx, id, kids, [], h, parentPath + [id], ls, caps);
      ParentChildren(ctx, id, ctx.sep);
      if childIndex + 1 >= |parent.children| {
        return false;
      }
      assert (parentPath + [id])[..|parentPath|] == parentPath;
      PairRight(Now(), node, ctx, kids, h, parentPath + [id], ls, caps);
      ghost var f := WithRight(ctx, id, kids, [], h);
      SteadyRows(Now(), f, parentPath, ls, caps);
      var right := ReadNode(parent.children[childIndex + 1]);
      var fit := HalvesFit(node, right, f.loose, h);
      if !fit {
        return false;
      }
      RedistributeInternalPair(node, right, parent, parentPath, f, HeadKey(f), ls);
      done := true;
    }

    method TryRedistributeInternalWithLeft(node: Node, parent: Node, childIndex: nat, parentPath: seq<PageId>,
                                           ghost ctx: Ctx, ghost kids: seq<Tree>, ghost h: int, ghost ls: seq<LeafPage>)
      returns (done: bool)
      requires Backed()
      requires Splitting(node, parentPath + [node.pageId], ctx, kids, h, ls)
      requires ctx.Under? && parent == nodes[ctx.pid] && childIndex == |ctx.left|
      modifies this`nodes, disk, this`tree
      ensures Backed()
      ensures done ==> Holds(ls) && |nodes| == old(|nodes|)
      ensures !done ==> nodes == old(nodes) && (ctx.left != [] ==> |KidsOf(ctx.left[|ctx.left| - 1])| == caps.inner + 1)
    {
      hide Backed, KeysFit, WellShaped, Steady, Focus, Exact, Row, Stored, Shape, RootShape, Rooted, MinKey, Seps,
           Image, FrameNode, AllLeaves, HeadKey, IdSeq, Around;
      if childIndex == 0 {
        return false;
      }
      ghost var id := node.pageId;
      assert (parentPath + [id])[..|parentPath|] == parentPath;
      PairLeft(Now(), node, ctx, kids, h, parentPath + [id], ls, caps);
      ghost var f := WithLeft(ctx, id, kids, [], h);
      SteadyRows(Now(), f, parentPath, ls, caps);
      var left := ReadNode(parent.children[childIndex - 1]);
      var fit := HalvesFit(left, node, f.loose, h);
      if !fit {
        return false;
      }
      RedistributeInternalPair(left, node, parent, parentPath, f, HeadKey(f), ls);
      done := true;
    }

    /** Two full siblings become three. */
    method SplitInternalPair(left: Node, right: Node, parent: Node, parentIndex: nat, parentPath: seq<PageId>,
                             ghost f: Family, ghost ls: seq<LeafPage>)
      requires Backed()
      requires Steady(Now(), f, parentPath, ls, caps) && IsPair(f, left, right, parent, caps)
      requires |f.loose| == 2 * caps.inner + 3 && Exact(f.up, HeadKey(f)) && parentIndex == |f.before|
      requires |nodes| + |parentPath| + 2 <= MAX_PAGES
      modifies this`nodes, disk, this`rootPageId, this`height, this`tree
      ensures Backed()
      ensures Holds(ls) && |nodes| <= old(|nodes|) + |parentPath| + 2
      decreases |parentPath|, 2
    {
      hide Backed, KeysFit, WellShaped, Steady, Focus, Exact, Row, Stored, Shape, RootShape, Rooted, MinKey, Seps,
           Image, FrameNode, AllLeaves, HeadKey, IdSeq, Around, ThreeWayCounts;
      var children := left.children + right.children;
      ghost var n0 := Now();
      var middlePageId := AllocatePage();
      SteadyAllocated(n0, nodes[middlePageId], f, parentPath, ls, caps);
      ghost var g := f.(open := f.open + multiset{middlePageId});
      var counts := ThreeWayCounts(|children|);
      var firstEnd, secondEnd := counts.0, counts.0 + counts.1;
      SteadyRows(Now(), g, parentPath, ls, caps);
      ThirdsOfChildren(|children|, caps);
      ghost var lk, mk, rk := f.loose[..firstEnd], f.loose[firstEnd..secondEnd], f.loose[secondEnd..];
      CutThree(nodes, f.loose, firstEnd, secondEnd, f.h - 1, caps);
      var l := RebuildInternalKeys(left.(children := children[..firstEnd]), lk, f.h - 1);
      var m := RebuildInternalKeys(Node(false, middlePageId, INVALID_PAGE_ID, [], children[firstEnd..secondEnd], []),
                                   mk, f.h - 1);
      var r := RebuildInternalKeys(right.(children := children[secondEnd..]), rk, f.h - 1);
      assert FitsPage(l) && FitsPage(m) && FitsPage(r);
      ghost var lt, mt, rt := Branch(left.pageId, lk), Branch(middlePageId, mk), Branch(right.pageId, rk);
      BranchRebuilt(l, left.pageId, lk);
      BranchRebuilt(m, middlePageId, mk);
      BranchRebuilt(r, right.pageId, rk);
      WriteThree(l, m, r, g, lt, mt, rt, parentPath, ls);
      assert g.(before := f.before + [lt, mt, rt], loose := [], open := multiset{}, pend := [])
          == f.(before := f.before + [lt, mt, rt], loose := [], open := multiset{}, pend := []);
      AdoptMiddle(parent, middlePageId, parentIndex, parentPath, f, [lt, mt, rt], ls);
    }

    /** Three internal nodes take all the children of a family. */
    method WriteThree(l: Node, m: Node, r: Node, ghost g: Family, ghost lt: Tree, ghost mt: Tree, ghost rt: Tree,
                      ghost path: seq<PageId>, ghost ls: seq<LeafPage>)
      requires Backed() && Steady(Now(), g, path, ls, caps) && g.h >= 2
      requires lt.Branch? && mt.Branch? && rt.Branch? && g.loose == lt.kids + mt.kids + rt.kids && g.pend == []
      requires g.open == multiset{lt.pid, mt.pid, rt.pid}
      requires PageShape(lt, g.h, caps) && PageShape(mt, g.h, caps) && PageShape(rt, g.h, caps)
      requires l == Image(lt) && m == Image(mt) && r == Image(rt)
      requires KeysFit(l.keys, kind) && KeysFit(m.keys, kind) && KeysFit(r.keys, kind)
      modifies this`nodes, disk
      ensures Backed() && |nodes| == old(|nodes|)
      ensures var g' := g.(before := g.before + [lt, mt, rt], loose := [], open := multiset{}, pend := []);
              Steady(Now(), g', path, ls, caps) && HeadKey(g') == HeadKey(g)
    {
      hide Backed, KeysFit, Steady, Seps, HeadKey, IdSeq;
      SteadyOk(Now(), g, path, ls, caps);
      SteadyThree(Now(), g, lt, mt, rt, path, ls, caps);
      ImageShaped(lt, g.h, caps);
      ImageShaped(mt, g.h, caps);
      ImageShaped(rt, g.h, caps);
      WriteNode(l);
      WriteNode(m);
      WriteNode(r);
    }

    /** How both pair splits end: the parent takes the new page between the two old ones, and is
        split in its turn if it is now too full. */
    method AdoptMiddle(parent: Node, middlePageId: PageId, parentIndex: nat, parentPath: seq<PageId>,
                       ghost f: Family, ghost ts: seq<Tree>, ghost ls: seq<LeafPage>)
      requires Backed()
      requires |ts| == 3 && middlePageId == Id(ts[1]) && parentIndex == |f.before| && f.h >= 1
      requires Steady(Now(), f.(before := f.before + ts, loose := [], open := multiset{}, pend := []), parentPath, ls,
                      caps)
      requires IsParent(parent, f, [Id(ts[0]), Id(ts[2])])
      requires (if f.up.Top? then 2 else caps.HalfKids()) <= |f.before| + 2 + |f.after| <= caps.inner + 1
      requires Exact(f.up, HeadKey(f.(before := f.before + ts, loose := [], open := multiset{}, pend := [])))
      requires |nodes| + |parentPath| + 1 <= MAX_PAGES
      modifies this`nodes, disk, this`rootPageId, this`height, this`tree
      ensures Backed()
      ensures Holds(ls) && |nodes| <= old(|nodes|) + |parentPath| + 1
      decreases |parentPath|, 1
    {
      hide Backed, KeysFit, WellShaped, Steady, Focus, Exact, Row, Stored, Shape, RootShape, Rooted, MinKey, Seps,
           Image, FrameNode, AllLeaves, HeadKey, IdSeq, Around, Wrote;
      ghost var g := f.(before := f.before + ts, loose := [], open := multiset{}, pend := []);
      ghost var ks := g.before + g.after;
      MiddleInserted(parent, f, Id(ts[0]), Id(ts[2]), middlePageId);
      var at := parentIndex + 1;
      var p := parent.(children := parent.children[..at] + [middlePageId] + parent.children[at..]);
      assert ts == [ts[0], ts[1], ts[2]];
      ThreeIds(ts[0], ts[1], ts[2]);
      ParentRebuilt(p, f, ts, g.before);
      SteadyRows(Now(), g, parentPath, ls, caps);
      p := RebuildInternalKeys(p, ks, f.h);
      BranchRebuilt(p, f.pid, ks);
      if FitsPage(p) {
        SteadyParent(Now(), g, parentPath, ls, caps);
        WriteNode(p);
        Close(f.up, Branch(f.pid, ks), f.h + 1, parentPath, ls);
      } else {
        SteadyGathered(Now(), g, parentPath, ls, caps);
        SplitInternal(p, parentPath, f.up, ks, f.h, ls);
      }
    }

    /** How SplitInternal ends for the root: the node falls into two halves under a new root. */
    method SplitRootInternal(node: Node, path: seq<PageId>, ghost kids: seq<Tree>, ghost h: int,
                             ghost ls: seq<LeafPage>)
      requires Backed()
      requires Splitting(node, path, Top, kids, h, ls) && |nodes| + 2 <= MAX_PAGES
      modifies this`nodes, disk, this`rootPageId, this`height, this`tree
      ensures Backed()
      ensures Holds(ls) && |nodes| <= old(|nodes|) + 2
    {
      hide Backed, KeysFit, WellShaped, Steady, Focus, Exact, Row, Stored, Shape, RootShape, Rooted, MinKey, Seps,
           Image, FrameNode, AllLeaves, HeadKey, IdSeq, Around, InWorld, IdsOf, Leaves, Holds;
      ghost var id := node.pageId;
      var splitIndex := |node.children| / 2;
      ghost var n0 := Now();
      var rightPageId := AllocatePage();
      ghost var a, b := kids[..splitIndex], kids[splitIndex..];
      RootHalves(n0, nodes[rightPageId], id, kids, splitIndex, h, path, ls, caps);
      var right := Node(false, rightPageId, INVALID_PAGE_ID, [], node.children[splitIndex..], []);
      var left := RebuildInternalKeys(node.(children := node.children[..splitIndex]), a, h);
      right := RebuildInternalKeys(right, b, h);
      BranchRebuilt(left, id, a);
      BranchRebuilt(right, rightPageId, b);
      var separator := SubtreeMinKey(right.children[0], b[0], h);
      InsertIntoParent(left, separator, right, path, Branch(id, a), Branch(rightPageId, b), h + 1, ls);
    }

    /** When the neighbours are full too: a pair split with the right one, or else the left one. */
    method SplitInternalBeside(node: Node, parent: Node, childIndex: nat, path: seq<PageId>, ghost ctx: Ctx,
                               ghost kids: seq<Tree>, ghost h: int, ghost ls: seq<LeafPage>)
      requires Backed()
      requires Splitting(node, path, ctx, kids, h, ls) && ctx.Under? && parent == nodes[ctx.pid]
               && childIndex == |ctx.left|
      requires ctx.right != [] ==> |KidsOf(ctx.right[0])| == caps.inner + 1
      requires ctx.left != [] ==> |KidsOf(ctx.left[|ctx.left| - 1])| == caps.inner + 1
      requires |nodes| + |path| + 1 <= MAX_PAGES
      modifies this`nodes, disk, this`rootPageId, this`height, this`tree
      ensures Backed()
      ensures Holds(ls) && |nodes| <= old(|nodes|) + |path| + 1
      decreases |path| - 1, 3
    {
      hide Backed, KeysFit, WellShaped, Steady, Focus, Exact, Row, Stored, Shape, RootShape, Rooted, MinKey, Seps,
           Image, FrameNode, AllLeaves, HeadKey, IdSeq, Around, Wrote, IsPair, FrameKeys, InWorld, IdsOf, Leaves,
           Holds;
      ghost var id := node.pageId;
      SteadyRows(Now(), Gathered(ctx, id, kids, [], h), path, ls, caps);
      Siblings(Now(), ctx, id, kids, [], h, path, ls, caps);
      ParentChildren(ctx, id, ctx.sep);
      var parentPath := path[..|path| - 1];
      if childIndex + 1 < |parent.children| {
        PairRight(Now(), node, ctx, kids, h, path, ls, caps);
        var right := ReadNode(parent.children[childIndex + 1]);
        SplitInternalPair(node, right, parent, childIndex, parentPath, WithRight(ctx, id, kids, [], h), ls);
        return;
      }
      if childIndex > 0 {
        PairLeft(Now(), node, ctx, kids, h, path, ls, caps);
        var left := ReadNode(parent.children[childIndex - 1]);
        SplitInternalPair(left, node, parent, childIndex - 1, parentPath, WithLeft(ctx, id, kids, [], h), ls);
        return;
      }
      assert false;
    }

    method SplitInternal(node: Node, path: seq<PageId>, ghost ctx: Ctx, ghost kids: seq<Tree>, ghost h: int,
                         ghost ls: seq<LeafPage>)
      requires Backed()
      requires Splitting(node, path, ctx, kids, h, ls)
      requires |nodes| + |path| + 1 <= MAX_PAGES
      modifies this`nodes, disk, this`rootPageId, this`height, this`tree
      ensures Backed()
      ensures Holds(ls) && |nodes| <= old(|nodes|) + |path| + 1
      decreases |path|, 0
    {
      hide Backed, KeysFit, WellShaped, Steady, Focus, Exact, Row, Stored, Shape, RootShape, Rooted, MinKey, Seps,
           Image, FrameNode, AllLeaves, HeadKey, IdSeq, Around, Wrote, IsPair, FrameKeys, InWorld, IdsOf, Leaves,
           Holds;
      ghost var id := node.pageId;
      SteadyRows(Now(), Gathered(ctx, id, kids, [], h), path, ls, caps);
      if |path| > 1 {
        Siblings(Now(), ctx, id, kids, [], h, path, ls, caps);
        ParentChildren(ctx, id, ctx.sep);
        var parent := ReadNode(path[|path| - 2]);
        var childIndex := IndexOf(parent.children, node.pageId);
        var parentPath := path[..|path| - 1];
        assert path == parentPath + [node.pageId];
        var done := TryRedistributeInternalWithRight(node, parent, childIndex, parentPath, ctx, kids, h, ls);
        if done { return; }
        done := TryRedistributeInternalWithLeft(node, parent, childIndex, parentPath, ctx, kids, h, ls);
        if done { return; }
        SplitInternalBeside(node, parent, childIndex, path, ctx, kids, h, ls);
        return;
      }
      SplitRootInternal(node, path, kids, h, ls);
    }

    // ----- leaves -----

    /** Two leaves in memory share the entries of both anew; they, and their parent, are written. */
    method WriteTwoLeaves(left: Node, right: Node, parent: Node, ghost parentPath: seq<PageId>, ghost f: Family,
                          ghost lp: LeafPage, ghost rp: LeafPage, ghost ls: seq<LeafPage>)
      requires Backed()
      requires KeysFit(left.keys, kind) && KeysFit(right.keys, kind)
      requires Steady(Now(), f, parentPath, ls, caps)
      requires Reshared(f, lp, rp, caps) && left == LeafNode(lp) && right == LeafNode(rp)
      requires IsParent(parent, f, [lp.id, rp.id])
      requires (if f.up.Top? then 2 else caps.HalfKids()) <= |f.before| + 2 + |f.after| <= caps.inner + 1
      modifies this`nodes, disk
      ensures Backed() && |nodes| == old(|nodes|)
      ensures Rejoined(f, lp, rp, parentPath, ls)
    {
      hide Backed, KeysFit, KeyEncodable, Steady, Focus, Exact, Row, Stored, Shape, RootShape, Rooted, MinKey, Seps,
           FrameNode, AllLeaves, HeadKey, IdSeq, Around, Similar, Flat, IsParent, IsBranch, Keys, Records, FrameKeys;
      PairReflowed(Now(), f, lp, rp, parentPath, ls, caps);
      WriteNode(left);
      WriteNode(right);
      TwoPages(f, lp, rp, parent);
      WriteParent(parent, f.(before := f.before + [Leaf(lp), Leaf(rp)], open := multiset{}, pend := []),
                  parentPath, AllLeaves(f.(pend := [lp, rp])));
    }

    /** Where the parent of two leaves has been written, the tree is in place again, with their new entries. */
    ghost predicate Rejoined(f: Family, lp: LeafPage, rp: LeafPage, path: seq<PageId>, ls: seq<LeafPage>)
      reads this`nodes, this`height, this`rootPageId, this`firstLeafPageId
    {
      var t, ls' := Joined(f, lp, rp), AllLeaves(f.(pend := [lp, rp]));
      Focused(f.up, t, f.h + 1, path, ls') && MinKey(t) == HeadKey(f) && Similar(ls, ls')
    }

    ghost function Joined(f: Family, lp: LeafPage, rp: LeafPage): Tree {
      Branch(f.pid, f.before + [Leaf(lp), Leaf(rp)] + f.after)
    }

    ghost method CloseTwo(f: Family, lp: LeafPage, rp: LeafPage, path: seq<PageId>, ls: seq<LeafPage>)
      requires Rejoined(f, lp, rp, path, ls) && Exact(f.up, HeadKey(f))
      modifies this`tree
      ensures HoldsLike(ls)
    {
      hide Focus, Exact, MinKey, HeadKey, AllLeaves, Similar, Rooted;
      Close(f.up, Joined(f, lp, rp), f.h + 1, path, AllLeaves(f.(pend := [lp, rp])));
    }

    method TryGiveToRightLeaf(leaf: Node, parent: Node, childIndex: nat,
                              ghost ctx: Ctx, ghost p: LeafPage, ghost path: seq<PageId>, ghost ls: seq<LeafPage>)
      returns (done: bool)
      requires Backed()
      requires LeafSplitting(leaf, path, ctx, p, ls)
      requires ctx.Under? && parent == nodes[ctx.pid] && childIndex == |ctx.left|
      modifies this`nodes, disk, this`tree
      ensures Backed()
      ensures done ==> HoldsLike(ls) && |nodes| == old(|nodes|)
      ensures !done ==> nodes == old(nodes) && (ctx.right != [] ==> |EntriesOf(ctx.right[0])| == caps.leaf)
    {
      hide Backed, KeysFit, KeyEncodable, Steady, Focus, Exact, Row, Stored, Shape, RootShape, Rooted, MinKey, Seps,
           FrameNode, AllLeaves, HeadKey, IdSeq, Around, Similar, Ordered, Flat, WithRight, IsParent, IsBranch, Keys,
           Records, FrameKeys;
      ParentChildren(ctx, p.id, ctx.sep);
      Siblings(Now(), ctx, p.id, [], [p], 0, path, ls, caps);
      if childIndex + 1 >= |parent.children| {
        return false;
      }
      LeafRight(Now(), p, ctx, path, ls, caps);
      ghost var r := ctx.right[0].page;
      var right := ReadNode(parent.children[childIndex + 1]);
      var n := |leaf.keys| - 1;
      var candidateLeaf := leaf.(keys := leaf.keys[..n], records := leaf.records[..n]);
      var candidateRight := right.(keys := [leaf.keys[n]] + right.keys, records := [leaf.records[n]] + right.records);
      if candidateLeaf.keys == [] || !FitsPage(candidateRight) || !FitsPage(candidateLeaf) {
        return false;
      }
      ghost var f := WithRight(ctx, p.id, [], [p], 0);
      SharedLast(f, parent, p, r, caps);
      ghost var lp, rp := p.(entries := p.entries[..n]), r.(entries := [p.entries[n]] + r.entries);
      FitParts(leaf.keys, n, |leaf.keys|, kind);
      assert leaf.keys[..n] == leaf.keys[0..n] && leaf.keys[n..] == [leaf.keys[n]];
      FitParts(leaf.keys, 0, n, kind);
      FitJoin([leaf.keys[n]], right.keys, kind);
      WriteTwoLeaves(candidateLeaf, candidateRight, parent, path[..|path| - 1], f, lp, rp, ls);
      CloseTwo(f, lp, rp, path[..|path| - 1], ls);
      done := true;
    }

    method TryGiveToLeftLeaf(leaf: Node, parent: Node, childIndex: nat,
                             ghost ctx: Ctx, ghost p: LeafPage, ghost path: seq<PageId>, ghost ls: seq<LeafPage>)
      returns (done: bool)
      requires Backed()
      requires LeafSplitting(leaf, path, ctx, p, ls)
      requires ctx.Under? && parent == nodes[ctx.pid] && childIndex == |ctx.left|
      modifies this`nodes, disk, this`tree
      ensures Backed()
      ensures done ==> HoldsLike(ls) && |nodes| == old(|nodes|)
      ensures !done ==> nodes == old(nodes) && (ctx.left != [] ==> |EntriesOf(ctx.left[|ctx.left| - 1])| == caps.leaf)
    {
      hide Backed, KeysFit, KeyEncodable, Steady, Focus, Exact, Row, Stored, Shape, RootShape, Rooted, MinKey, Seps,
           FrameNode, AllLeaves, HeadKey, IdSeq, Around, Similar, Ordered, Flat, WithLeft, IsParent, IsBranch, Keys,
           Records, FrameKeys;
      if childIndex == 0 || leaf.keys == [] {
        return false;
      }
      Siblings(Now(), ctx, p.id, [], [p], 0, path, ls, caps);
      LeafLeft(Now(), p, ctx, path, ls, caps);
      ghost var l := ctx.left[|ctx.left| - 1].page;
      var left := ReadNode(parent.children[childIndex - 1]);
      var candidateLeft := left.(keys := left.keys + [leaf.keys[0]], records := left.records + [leaf.records[0]]);
      var candidateLeaf := leaf.(keys := leaf.keys[1..], records := leaf.records[1..]);
      if candidateLeaf.keys == [] || !FitsPage(candidateLeft) || !FitsPage(candidateLeaf) {
        return false;
      }
      ghost var f := WithLeft(ctx, p.id, [], [p], 0);
      SharedFirst(f, parent, l, p, caps);
      ghost var lp, rp := l.(entries := l.entries + [p.entries[0]]), p.(entries := p.entries[1..]);
      FitParts(leaf.keys, 1, 1, kind);
      assert leaf.keys[..1] == [leaf.keys[0]];
      FitJoin(left.keys, [leaf.keys[0]], kind);
      WriteTwoLeaves(candidateLeft, candidateLeaf, parent, path[..|path| - 1], f, lp, rp, ls);
      CloseTwo(f, lp, rp, path[..|path| - 1], ls);
      done := true;
    }

    /** The keys and the records of the items in a range. */
    method Deal(items: seq<Entry>, from: nat, to: nat) returns (keys: seq<IndexKey>, records: seq<Record>)
      requires from <= to <= |items|
      ensures keys == Keys(items[from..to]) && records == Records(items[from..to])
    {
      keys, records := [], [];
      var i := from;
      while i < to
        invariant from <= i <= to
        invariant keys == Keys(items[from..i]) && records == Records(items[from..i])
      {
        assert items[from..i + 1] == items[from..i] + [items[i]];
        keys := keys + [items[i].key];
        records := records + [items[i].rec];
        i := i + 1;
      }
    }

    /** Two full leaves become three. */
    method SplitLeafPair(left: Node, right: Node, parent: Node, parentIndex: nat, parentPath: seq<PageId>,
                         ghost f: Family, ghost lp: LeafPage, ghost rp: LeafPage, ghost ls: seq<LeafPage>)
      requires Backed()
      requires KeysFit(left.keys, kind) && KeysFit(right.keys, kind)
      requires Steady(Now(), f, parentPath, ls, caps) && IsLeafPair(f, left, right, parent, lp, rp, caps)
      requires |lp.entries| + |rp.entries| == 2 * caps.leaf + 1 && Exact(f.up, HeadKey(f)) && parentIndex == |f.before|
      requires Ordered(Flat(ls), kind)
      requires |nodes| + |parentPath| + 2 <= MAX_PAGES
      modifies this`nodes, disk, this`rootPageId, this`height, this`tree
      ensures Backed()
      ensures HoldsLike(ls) && |nodes| <= old(|nodes|) + |parentPath| + 2
    {
      hide Backed, KeysFit, KeyEncodable, Steady, Focus, Exact, Row, Stored, Shape, RootShape, Rooted, MinKey, Seps,
           FrameNode, AllLeaves, HeadKey, IdSeq, Around, Similar, Ordered, Flat, SortByKey, ThreeWayCounts;
      ItemsSorted(Now(), f, lp, rp, parentPath, ls, caps, kind);
      SteadyOk(Now(), f, parentPath, ls, caps);
      var items := Zip(left.keys + right.keys, left.records + right.records);
      items := SortByKey(items);
      ghost var n0 := Now();
      var middlePageId := AllocatePage();
      SteadyAllocated(n0, nodes[middlePageId], f, parentPath, ls, caps);
      ghost var g := f.(open := f.open + multiset{middlePageId});
      ThirdsOfKeys(|items|, caps);
      var counts := ThreeWayCounts(|items|);
      var a, b := counts.0, counts.0 + counts.1;
      Thirds(items, a, b);
      var leftKeys, leftRecords := Deal(items, 0, a);
      var middleKeys, middleRecords := Deal(items, a, b);
      var rightKeys, rightRecords := Deal(items, b, |items|);
      Ends(items, a, b);
      var l := left.(keys := leftKeys, records := leftRecords, nextLeaf := middlePageId);
      var m := Node(true, middlePageId, right.pageId, middleKeys, [], middleRecords);
      var r := right.(keys := rightKeys, records := rightRecords);
      ghost var lp', mp, rp' := LeafPage(lp.id, items[..a], middlePageId), LeafPage(middlePageId, items[a..b], rp.id),
        rp.(entries := items[b..]);
      assert g.open == multiset{lp'.id, mp.id, rp'.id};
      ThreeReflowed(Now(), g, lp', mp, rp', parentPath, ls, caps);
      SortedFit(left, right, items, kind);
      DealtFit(items, 0, a, kind);
      DealtFit(items, a, b, kind);
      DealtFit(items, b, |items|, kind);
      WriteNode(l);
      WriteNode(m);
      WriteNode(r);
      assert g.(before := f.before + [Leaf(lp'), Leaf(mp), Leaf(rp')], open := multiset{}, pend := [])
          == f.(before := f.before + [Leaf(lp'), Leaf(mp), Leaf(rp')], loose := [], open := multiset{}, pend := []);
      AdoptMiddle(parent, middlePageId, parentIndex, parentPath, f, [Leaf(lp'), Leaf(mp), Leaf(rp')],
                  AllLeaves(g.(pend := [lp', mp, rp'])));
    }

    /** How SplitLeaf ends for the root: the leaf falls into two halves under a new root. */
    method SplitRootLeaf(leaf: Node, path: seq<PageId>, ghost p: LeafPage, ghost ls: seq<LeafPage>)
      requires Backed()
      requires LeafSplitting(leaf, path, Top, p, ls)
      requires |nodes| + 2 <= MAX_PAGES
      modifies this`nodes, disk, this`rootPageId, this`height, this`tree
      ensures Backed()
      ensures HoldsLike(ls) && |nodes| <= old(|nodes|) + 2
    {
      hide Backed, KeysFit, KeyEncodable, Steady, Focus, Exact, Row, Stored, Shape, RootShape, Rooted, MinKey, Seps,
           FrameNode, AllLeaves, HeadKey, IdSeq, Around, Similar, Ordered, Flat;
      ghost var id := leaf.pageId;
      ghost var n0 := Now();
      var rightPageId := AllocatePage();
      SteadyRoot(n0, nodes[rightPageId], id, [], [p], 0, path, ls, caps);
      var splitIndex := |leaf.keys| / 2;
      RootLeafHalves(n0, p, splitIndex, rightPageId, path, ls, caps);
      ghost var lp, rp := LeafPage(p.id, p.entries[..splitIndex], rightPageId),
        LeafPage(rightPageId, p.entries[splitIndex..], p.next);
      var right := Node(true, rightPageId, leaf.nextLeaf, leaf.keys[splitIndex..], [], leaf.records[splitIndex..]);
      var left := leaf.(keys := leaf.keys[..splitIndex], records := leaf.records[..splitIndex],
                        nextLeaf := rightPageId);
      assert left == LeafNode(lp) && right == LeafNode(rp);
      var separator := right.keys[0];
      LeafMin(rp);
      assert KidsOf(Leaf(lp)) + KidsOf(Leaf(rp)) == [];
      FitParts(leaf.keys, splitIndex, |leaf.keys|, kind);
      FitParts(leaf.keys, 0, splitIndex, kind);
      assert leaf.keys[0..splitIndex] == leaf.keys[..splitIndex] && separator == leaf.keys[splitIndex];
      InsertIntoParent(left, separator, right, path, Leaf(lp), Leaf(rp), 1, [lp] + [rp]);
    }

    /** When the neighbours are full too: a pair split with the right one, or else the left one. */
    method SplitLeafBeside(leaf: Node, parent: Node, childIndex: nat, path: seq<PageId>, ghost ctx: Ctx,
                           ghost p: LeafPage,
                           ghost ls: seq<LeafPage>)
      requires Backed()
      requires LeafSplitting(leaf, path, ctx, p, ls) && ctx.Under? && parent == nodes[ctx.pid]
               && childIndex == |ctx.left|
      requires ctx.right != [] ==> |EntriesOf(ctx.right[0])| == caps.leaf
      requires ctx.left != [] ==> |EntriesOf(ctx.left[|ctx.left| - 1])| == caps.leaf
      requires |nodes| + |path| + 1 <= MAX_PAGES
      modifies this`nodes, disk, this`rootPageId, this`height, this`tree
      ensures Backed()
      ensures HoldsLike(ls) && |nodes| <= old(|nodes|) + |path| + 1
    {
      hide Backed, KeysFit, WellShaped, Steady, Focus, Exact, Row, Stored, Shape, RootShape, Rooted, MinKey, Seps,
           FrameNode, AllLeaves, HeadKey, IdSeq, Around, Similar, Ordered, Flat, IsLeafPair, IsParent, IsBranch,
           FrameKeys, InWorld, WithRight, WithLeft, HoldsLike;
      SteadyOk(Now(), Gathered(ctx, p.id, [], [p], 0), path, ls, caps);
      Siblings(Now(), ctx, p.id, [], [p], 0, path, ls, caps);
      ParentChildren(ctx, p.id, ctx.sep);
      var parentPath := path[..|path| - 1];
      if childIndex + 1 < |parent.children| {
        LeafRight(Now(), p, ctx, path, ls, caps);
        var right := ReadNode(parent.children[childIndex + 1]);
        SplitLeafPair(leaf, right, parent, childIndex, parentPath, WithRight(ctx, p.id, [], [p], 0), p,
                      ctx.right[0].page, ls);
        return;
      }
      if childIndex > 0 {
        LeafLeft(Now(), p, ctx, path, ls, caps);
        var left := ReadNode(parent.children[childIndex - 1]);
        SplitLeafPair(left, leaf, parent, childIndex - 1, parentPath, WithLeft(ctx, p.id, [], [p], 0),
                      ctx.left[|ctx.left| - 1].page, p, ls);
        return;
      }
      assert false;
    }

    method SplitLeaf(leaf: Node, path: seq<PageId>, ghost ctx: Ctx, ghost p: LeafPage, ghost ls: seq<LeafPage>)
      requires Backed()
      requires LeafSplitting(leaf, path, ctx, p, ls)
      requires |nodes| + |path| + 1 <= MAX_PAGES
      modifies this`nodes, disk, this`rootPageId, this`height, this`tree
      ensures Backed()
      ensures HoldsLike(ls) && |nodes| <= old(|nodes|) + |path| + 1
    {
      hide Backed, KeysFit, WellShaped, Steady, Focus, Exact, Row, Stored, Shape, RootShape, Rooted, MinKey, Seps,
           FrameNode, AllLeaves, HeadKey, IdSeq, Around, Similar, Ordered, Flat, IsLeafPair, IsParent, IsBranch,
           FrameKeys, InWorld, WithRight, WithLeft, Rooted;
      ghost var id := leaf.pageId;
      SteadyRows(Now(), Gathered(ctx, id, [], [p], 0), path, ls, caps);
      if |path| > 1 {
        Siblings(Now(), ctx, id, [], [p], 0, path, ls, caps);
        ParentChildren(ctx, id, ctx.sep);
        var parent := ReadNode(path[|path| - 2]);
        var childIndex := IndexOf(parent.children, leaf.pageId);
        var done := TryGiveToRightLeaf(leaf, parent, childIndex, ctx, p, path, ls);
        if done { return; }
        done := TryGiveToLeftLeaf(leaf, parent, childIndex, ctx, p, path, ls);
        if done { return; }
        SplitLeafBeside(leaf, parent, childIndex, path, ctx, p, ls);
        return;
      }
      SplitRootLeaf(leaf, path, p, ls);
    }

    // ----- after a removal: internal nodes -----

    method LeftmostLeafPageId(pageId: PageId, ghost t: Tree, ghost h: int) returns (leafId: PageId)
      requires Backed()
      requires caps.Ok() && Stored(nodes, t) && Id(t) == pageId && Shape(t, h, caps)
      ensures Leaves(t) != [] && leafId == Leaves(t)[0].id
    {
      hide Backed, KeysFit, KeyEncodable, Flat, Stored, Shape, RootShape, MinKey, Image, Leaves;
      AtTop(nodes, t);
      var node := ReadNode(pageId);
      ghost var cur, ch := t, h;
      LeavesHead(t, h, caps);
      while !node.isLeaf
        invariant Stored(nodes, cur) && Id(cur) < |nodes| && node == nodes[Id(cur)] && Shape(cur, ch, caps)
        invariant Leaves(cur) != [] && Leaves(cur)[0] == Leaves(t)[0]
        decreases cur
      {
        FirstChild(nodes, cur, ch, caps);
        LeavesHead(cur.kids[0], ch - 1, caps);
        FirstLeaves(cur);
        cur, ch := cur.kids[0], ch - 1;
        AtTop(nodes, cur);
        node := ReadNode(node.children[0]);
      }
      FirstKey(nodes, cur, ch, caps);
      leafId := node.pageId;
    }

    method PromoteSingleChildRoot(root: Node, ghost kids: seq<Tree>, ghost h: int, ghost path: seq<PageId>,
                                  ghost ls: seq<LeafPage>)
      requires Backed()
      requires Steady(Now(), Gathered(Top, root.pageId, kids, [], h), path, ls, caps)
      requires h >= 1 && |kids| == 1 && root.children == IdSeq(kids)
      modifies this`rootPageId, this`height, this`firstLeafPageId, this`tree
      ensures Backed()
      ensures Holds(ls)
    {
      hide Backed, KeysFit, WellShaped, Steady, Leaves, Ids, Shape, RootShape, LeavesOf, IdsOf, Focus, Stored, Image,
           Rooted, Exact, MinKey;
      SingleChild(Now(), root.pageId, kids, h, path, ls, caps);
      AtTop(nodes, kids[0]);
      assert root.children[0] == Id(kids[0]);
      hide IdSeq, Gathered;
      var child := ReadNode(root.children[0]);
      rootPageId := child.pageId;
      assert height > 1;  // so the other case of the C++ code, which keeps the height at 1, does not arise
      height := height - 1;
      if child.isLeaf {
        firstLeafPageId := child.pageId;
      } else {
        firstLeafPageId := LeftmostLeafPageId(child.pageId, kids[0], h);
      }
      Close(Top, kids[0], h, [Id(kids[0])], ls);
    }

    /** A node that has lost a child, in memory, at the end of path. */
    ghost predicate Shrinking(node: Node, path: seq<PageId>, ctx: Ctx, kids: seq<Tree>, h: int, m: IndexKey,
                              ls: seq<LeafPage>)
      reads this`nodes, this`height, this`rootPageId, this`firstLeafPageId
    {
      && h >= 1 && kids != [] && |kids| <= caps.inner && (ctx.Under? ==> caps.HalfKids() - 1 <= |kids|)
      && IsBranch(node, node.pageId, IdSeq(kids))
      && Steady(Now(), Gathered(ctx, node.pageId, kids, [], h), path, ls, caps)
      && Exact(ctx, m)
    }

    method HandleInternalAfterChildRemoved(node: Node, path: seq<PageId>, ghost ctx: Ctx, ghost kids: seq<Tree>,
                                           ghost h: int, ghost m: IndexKey, ghost ls: seq<LeafPage>)
      requires Backed()
      requires Shrinking(node, path, ctx, kids, h, m, ls)
      modifies this`nodes, disk, this`rootPageId, this`height, this`firstLeafPageId, this`tree
      ensures Backed()
      ensures Holds(ls) && |nodes| == old(|nodes|)
      decreases |path|, 1
    {
      hide Backed, KeysFit, WellShaped, Steady, Focus, Exact, Row, Stored, Shape, RootShape, Rooted, MinKey, Seps,
           Image, FrameNode, AllLeaves, HeadKey, IdSeq, Around, Holds;
      ghost var f := Gathered(ctx, node.pageId, kids, [], h);
      SteadyRows(Now(), f, path, ls, caps);
      assert kids + [] == kids;
      var n := RebuildInternalKeys(node, kids, h);
      BranchRebuilt(n, node.pageId, kids);
      if n.pageId == rootPageId {
        if |n.children| == 1 {
          PromoteSingleChildRoot(n, kids, h, path, ls);
          return;
        }
        SteadyParent(Now(), f, path, ls, caps);
        WriteNode(n);
        TopAlways(ctx, MinKey(Branch(n.pageId, kids)));
        Close(ctx, Branch(n.pageId, kids), h + 1, path, ls);
        return;
      }
      if |n.keys| < MinInternalKeys() {
        FixInternalUnderflow(n, path, ctx, kids, h, m, ls);
        return;
      }
      SteadyParent(Now(), f, path, ls, caps);
      WriteNode(n);
      PropagateSubtreeMinChange(n.pageId, path, ctx, Branch(n.pageId, kids), h + 1, m, ls);
    }

    /** The last resort for an underfull node and its neighbour: one node takes all children if they
        fit, and the parent loses the other; else the two share out the children evenly. */
    method MergeInternalPair(left: Node, right: Node, parent: Node, gone: nat, parentPath: seq<PageId>,
                             ghost f: Family, ghost m: IndexKey, ghost ls: seq<LeafPage>)
      requires Backed()
      requires Steady(Now(), f, parentPath, ls, caps) && Exact(f.up, m) && IsPair(f, left, right, parent, caps)
      requires caps.HalfKids() <= |f.loose| <= 2 * caps.inner + 2
      requires |parent.keys| + 1 == |parent.children| && gone == |f.before| + 1
      modifies this`nodes, disk, this`rootPageId, this`height, this`firstLeafPageId, this`tree
      ensures Backed()
      ensures Holds(ls) && |nodes| == old(|nodes|)
      decreases |parentPath|, 2
    {
      hide Backed, KeysFit, WellShaped, Steady, Exact, Image, Holds, IsPair, IdSeq, Seps, Row;
      SteadyRows(Now(), f, parentPath, ls, caps);
      PairMerged(f, left, right, parent, caps);
      var merged := RebuildInternalKeys(left.(children := left.children + right.children), f.loose, f.h - 1);
      if !FitsPage(merged) {
        RedistributeInternalPair(left, right, parent, parentPath, f, m, ls);
        return;
      }
      ghost var t := Branch(left.pageId, f.loose);
      BranchRebuilt(merged, left.pageId, f.loose);
      ChildRemoved(parent, f, right.pageId, t);
      var p := parent.(children := parent.children[..gone] + parent.children[gone + 1..],
                       keys := parent.keys[..gone - 1] + parent.keys[gone..]);
      SteadyMerged(Now(), f, t, right.pageId, parentPath, ls, caps);
      WriteNode(merged);
      HandleInternalAfterChildRemoved(p, parentPath, f.up, (f.before + [t]) + f.after, f.h, m, ls);
    }

    /** When no neighbour has a child to spare: a merge with the left one, or else the right one. */
    method MergeInternalBeside(node: Node, parent: Node, childIndex: nat, path: seq<PageId>, ghost ctx: Ctx,
                               ghost kids: seq<Tree>,
                               ghost h: int, ghost m: IndexKey, ghost ls: seq<LeafPage>)
      requires Backed()
      requires Shrinking(node, path, ctx, kids, h, m, ls) && |kids| - 1 < MinInternalKeys() && ctx.Under?
      requires parent == nodes[ctx.pid] && childIndex == |ctx.left|
      requires ctx.left != [] ==> |KidsOf(ctx.left[|ctx.left| - 1])| <= MinInternalKeys() + 1
      requires ctx.right != [] ==> |KidsOf(ctx.right[0])| <= MinInternalKeys() + 1
      modifies this`nodes, disk, this`rootPageId, this`height, this`firstLeafPageId, this`tree
      ensures Backed()
      ensures Holds(ls) && |nodes| == old(|nodes|)
      decreases |path| - 1, 3
    {
      hide Backed, KeysFit, WellShaped, Steady, Focus, Exact, Row, Stored, Shape, RootShape, Rooted, MinKey, Seps,
           FrameNode, AllLeaves, HeadKey, Wrote, Around, Holds, InWorld, FrameKeys, IsPair, Image, IdSeq, UpKey,
           IsParent, CtxIds, PathOf;
      ghost var id := node.pageId;
      SteadyOk(Now(), Gathered(ctx, id, kids, [], h), path, ls, caps);
      Siblings(Now(), ctx, id, kids, [], h, path, ls, caps);
      ParentChildren(ctx, id, ctx.sep);
      ExactUp(ctx, m);
      ghost var up := UpKey(ctx, m);
      var parentPath := path[..|path| - 1];
      if childIndex > 0 {
        PairLeft(Now(), node, ctx, kids, h, path, ls, caps);
        var left := ReadNode(parent.children[childIndex - 1]);
        MergeInternalPair(left, node, parent, childIndex, parentPath, WithLeft(ctx, id, kids, [], h), up, ls);
        return;
      }
      PairRight(Now(), node, ctx, kids, h, path, ls, caps);
      var right := ReadNode(parent.children[childIndex + 1]);
      MergeInternalPair(node, right, parent, childIndex + 1, parentPath, WithRight(ctx, id, kids, [], h), up, ls);
    }

    /** The left sibling gives its last child, if it has more than the least. */
    method BorrowFromLeftInternal(node: Node, parent: Node, childIndex: nat, path: seq<PageId>, ghost ctx: Ctx,
                                  ghost kids: seq<Tree>,
                                  ghost h: int, ghost m: IndexKey, ghost ls: seq<LeafPage>) returns (done: bool)
      requires Backed()
      requires Shrinking(node, path, ctx, kids, h, m, ls) && |kids| - 1 < MinInternalKeys() && ctx.Under?
               && ctx.left != []
      requires parent == nodes[ctx.pid] && childIndex == |ctx.left|
      modifies this`nodes, disk, this`tree
      ensures Backed()
      ensures done ==> Holds(ls) && |nodes| == old(|nodes|)
      ensures !done ==>
                unchanged(this) && unchanged(disk) && |KidsOf(ctx.left[|ctx.left| - 1])| <= MinInternalKeys() + 1
    {
      hide Backed, KeysFit, WellShaped, Steady, Focus, Exact, Row, Stored, Shape, RootShape, Rooted, MinKey, Seps,
           FrameNode, AllLeaves, HeadKey, Wrote, Around, Holds, InWorld, FrameKeys, IsPair, Image, IdSeq, UpKey,
           IsParent, CtxIds, PathOf;
      ghost var f := WithLeft(ctx, node.pageId, kids, [], h);
      ExactUp(ctx, m);
      PairLeft(Now(), node, ctx, kids, h, path, ls, caps);
      var left := ReadNode(parent.children[childIndex - 1]);
      if |left.keys| <= MinInternalKeys() {
        return false;
      }
      var last := |left.children| - 1;
      var l := left.(children := left.children[..last]);
      var n := node.(children := [left.children[last]] + node.children);
      MovedBack(left.children, node.children);
      PairShifted(f, left, node, parent, l, n, caps);
      WriteInternalPair(l, n, parent, path[..|path| - 1], f, UpKey(ctx, m), ls);
      done := true;
    }

    /** The right sibling gives its first child, if it has more than the least. */
    method BorrowFromRightInternal(node: Node, parent: Node, childIndex: nat, path: seq<PageId>, ghost ctx: Ctx,
                                   ghost kids: seq<Tree>,
                                   ghost h: int, ghost m: IndexKey, ghost ls: seq<LeafPage>) returns (done: bool)
      requires Backed()
      requires Shrinking(node, path, ctx, kids, h, m, ls) && |kids| - 1 < MinInternalKeys() && ctx.Under?
               && ctx.right != []
      requires parent == nodes[ctx.pid] && childIndex == |ctx.left|
      modifies this`nodes, disk, this`tree
      ensures Backed()
      ensures done ==> Holds(ls) && |nodes| == old(|nodes|)
      ensures !done ==> unchanged(this) && unchanged(disk) && |KidsOf(ctx.right[0])| <= MinInternalKeys() + 1
    {
      hide Backed, KeysFit, WellShaped, Steady, Focus, Exact, Row, Stored, Shape, RootShape, Rooted, MinKey, Seps,
           FrameNode, AllLeaves, HeadKey, Wrote, Around, Holds, InWorld, FrameKeys, IsPair, Image, IdSeq, UpKey,
           IsParent, CtxIds, PathOf;
      ghost var f := WithRight(ctx, node.pageId, kids, [], h);
      ExactUp(ctx, m);
      PairRight(Now(), node, ctx, kids, h, path, ls, caps);
      var right := ReadNode(parent.children[childIndex + 1]);
      if |right.keys| <= MinInternalKeys() {
        return false;
      }
      var n := node.(children := node.children + [right.children[0]]);
      var r := right.(children := right.children[1..]);
      MovedFront(node.children, right.children);
      PairShifted(f, node, right, parent, n, r, caps);
      WriteInternalPair(n, r, parent, path[..|path| - 1], f, UpKey(ctx, m), ls);
      done := true;
    }

    /** The root gives way to its only child, or is written with fewer of them. */
    method FixRoot(root: Node, ghost path: seq<PageId>, ghost ctx: Ctx, ghost kids: seq<Tree>, ghost h: int,
                   ghost ls: seq<LeafPage>)
      requires Backed() && ctx.Top? && h >= 1 && kids != [] && |kids| <= caps.inner
               && IsBranch(root, root.pageId, IdSeq(kids))
      requires Steady(Now(), Gathered(ctx, root.pageId, kids, [], h), path, ls, caps)
      modifies this`nodes, disk, this`rootPageId, this`height, this`firstLeafPageId, this`tree
      ensures Backed()
      ensures Holds(ls) && |nodes| == old(|nodes|)
    {
      hide Backed, KeysFit, WellShaped, Steady, Focus, Exact, Row, Stored, Shape, RootShape, Rooted, MinKey, Seps,
           Image, FrameNode, AllLeaves, HeadKey, IdSeq, Around, Holds;
      ghost var f := Gathered(ctx, root.pageId, kids, [], h);
      SteadyRows(Now(), f, path, ls, caps);
      assert kids + [] == kids;
      if |root.children| == 1 {
        PromoteSingleChildRoot(root, kids, h, path, ls);
        return;
      }
      var n := RebuildInternalKeys(root, kids, h);
      BranchRebuilt(n, root.pageId, kids);
      SteadyParent(Now(), f, path, ls, caps);
      WriteNode(n);
      TopAlways(ctx, MinKey(Branch(n.pageId, kids)));
      Close(ctx, Branch(n.pageId, kids), h + 1, path, ls);
    }

    method FixInternalUnderflow(node: Node, path: seq<PageId>, ghost ctx: Ctx, ghost kids: seq<Tree>,
                                ghost h: int, ghost m: IndexKey, ghost ls: seq<LeafPage>)
      requires Backed()
      requires Shrinking(node, path, ctx, kids, h, m, ls) && (ctx.Under? ==> |kids| - 1 < MinInternalKeys())
      modifies this`nodes, disk, this`rootPageId, this`height, this`firstLeafPageId, this`tree
      ensures Backed()
      ensures Holds(ls) && |nodes| == old(|nodes|)
      decreases |path|, 0
    {
      hide Backed, KeysFit, WellShaped, Steady, Focus, Exact, Row, Stored, Shape, RootShape, Rooted, MinKey, Seps,
           FrameNode, AllLeaves, HeadKey, Wrote, Around, Holds, InWorld, FrameKeys, IsPair, Image, IdSeq, UpKey,
           IsParent, CtxIds, PathOf;
      ghost var id := node.pageId;
      SteadyRows(Now(), Gathered(ctx, id, kids, [], h), path, ls, caps);
      if node.pageId == rootPageId {
        FixRoot(node, path, ctx, kids, h, ls);
        return;
      }
      Siblings(Now(), ctx, id, kids, [], h, path, ls, caps);
      ParentChildren(ctx, id, ctx.sep);
      var parent := ReadNode(path[|path| - 2]);
      var childIndex := IndexOf(parent.children, node.pageId);
      if childIndex > 0 {
        var done := BorrowFromLeftInternal(node, parent, childIndex, path, ctx, kids, h, m, ls);
        if done {
          return;
        }
      }
      if childIndex + 1 < |parent.children| {
        var done := BorrowFromRightInternal(node, parent, childIndex, path, ctx, kids, h, m, ls);
        if done {
          return;
        }
      }
      MergeInternalBeside(node, parent, childIndex, path, ctx, kids, h, m, ls);
    }

    // ----- after a removal: leaves -----

    /** As WriteTwoLeaves; then the separators above are corrected. */
    method WriteLeafPair(left: Node, right: Node, parent: Node, parentPath: seq<PageId>, ghost f: Family,
                         ghost lp: LeafPage, ghost rp: LeafPage, ghost m: IndexKey, ghost ls: seq<LeafPage>)
      requires Backed()
      requires KeysFit(left.keys, kind) && KeysFit(right.keys, kind)
      requires Steady(Now(), f, parentPath, ls, caps) && Exact(f.up, m)
      requires Reshared(f, lp, rp, caps) && left == LeafNode(lp) && right == LeafNode(rp)
      requires IsParent(parent, f, [lp.id, rp.id])
      requires (if f.up.Top? then 2 else caps.HalfKids()) <= |f.before| + 2 + |f.after| <= caps.inner + 1
      modifies this`nodes, disk, this`tree
      ensures Backed()
      ensures HoldsLike(ls) && |nodes| == old(|nodes|)
    {
      hide Backed, KeysFit, Steady, Focus, Exact, MinKey, HeadKey, AllLeaves, Similar, Rooted, Reshared;
      WriteTwoLeaves(left, right, parent, parentPath, f, lp, rp, ls);
      PropagateSubtreeMinChange(parent.pageId, parentPath, f.up, Joined(f, lp, rp), f.h + 1, m,
                                AllLeaves(f.(pend := [lp, rp])));
    }

    method RedistributeLeafPair(left: Node, right: Node, parent: Node, parentPath: seq<PageId>, ghost f: Family,
                                ghost lp: LeafPage, ghost rp: LeafPage, ghost m: IndexKey, ghost ls: seq<LeafPage>)
      requires Backed()
      requires KeysFit(left.keys, kind) && KeysFit(right.keys, kind)
      requires Steady(Now(), f, parentPath, ls, caps) && Exact(f.up, m)
               && IsLeafPair(f, left, right, parent, lp, rp, caps)
      requires caps.leaf + 1 <= |lp.entries| + |rp.entries| <= 2 * caps.leaf && Ordered(Flat(ls), kind)
      modifies this`nodes, disk, this`tree
      ensures Backed()
      ensures HoldsLike(ls) && |nodes| == old(|nodes|)
    {
      hide Backed, KeysFit, KeyEncodable, Steady, Exact, Ordered, Flat, SortByKey, IdSeq, HoldsLike;
      SteadyOk(Now(), f, parentPath, ls, caps);
      ItemsSorted(Now(), f, lp, rp, parentPath, ls, caps, kind);
      var items := Zip(left.keys + right.keys, left.records + right.records);
      items := SortByKey(items);
      var leftCount := (|items| + 1) / 2;
      var leftKeys, leftRecords := Deal(items, 0, leftCount);
      var rightKeys, rightRecords := Deal(items, leftCount, |items|);
      Ends(items, leftCount, leftCount);
      var l := left.(keys := leftKeys, records := leftRecords, nextLeaf := right.pageId);
      var r := right.(keys := rightKeys, records := rightRecords);
      ghost var lp', rp' := LeafPage(lp.id, items[..leftCount], rp.id), rp.(entries := items[leftCount..]);
      SortedFit(left, right, items, kind);
      DealtFit(items, 0, leftCount, kind);
      DealtFit(items, leftCount, |items|, kind);
      SharedAnew(f, parent, lp, rp, items, leftCount, caps);
      hide Reshared, IsLeafPair, IsParent;
      WriteLeafPair(l, r, parent, parentPath, f, lp', rp', m, ls);
    }

    /** The last resort for an underfull leaf and its neighbour: one leaf takes all entries if they fit,
        and the parent loses the other; else the two share out the entries evenly. */
    method MergeLeafPair(left: Node, right: Node, parent: Node, gone: nat, parentPath: seq<PageId>, ghost f: Family,
                         ghost lp: LeafPage, ghost rp: LeafPage, ghost m: IndexKey, ghost ls: seq<LeafPage>)
      requires Backed()
      requires KeysFit(left.keys, kind) && KeysFit(right.keys, kind)
      requires Steady(Now(), f, parentPath, ls, caps) && Exact(f.up, m)
               && IsLeafPair(f, left, right, parent, lp, rp, caps)
      requires caps.HalfLeaf() <= |lp.entries| + |rp.entries| <= 2 * caps.leaf && Ordered(Flat(ls), kind)
      requires |parent.keys| + 1 == |parent.children| && gone == |f.before| + 1
      modifies this`nodes, disk, this`rootPageId, this`height, this`firstLeafPageId, this`tree
      ensures Backed()
      ensures HoldsLike(ls) && |nodes| == old(|nodes|)
    {
      hide Backed, KeysFit, KeyEncodable, Steady, Exact, Ordered, Flat, IdSeq, AllLeaves, Similar;
      var merged := left.(keys := left.keys + right.keys, records := left.records + right.records,
                          nextLeaf := right.nextLeaf);
      if !FitsPage(merged) {
        RedistributeLeafPair(left, right, parent, parentPath, f, lp, rp, m, ls);
        return;
      }
      ghost var mp := LeafPage(lp.id, lp.entries + rp.entries, rp.next);
      LeafNodeJoin(lp, rp);
      NotFirst(Now(), f, lp, rp, parentPath, ls, caps);
      assert firstLeafPageId != right.pageId;  // the C++ code would move first_leaf_page_id to the left page
      ChildRemoved(parent, f, rp.id, Leaf(mp));
      var p := parent.(children := parent.children[..gone] + parent.children[gone + 1..],
                       keys := parent.keys[..gone - 1] + parent.keys[gone..]);
      MergeReflowed(Now(), f, lp, rp, parentPath, ls, caps);
      FitJoin(left.keys, right.keys, kind);
      WriteNode(merged);
      ghost var ks := (f.before + [Leaf(mp)]) + f.after;
      HandleInternalAfterChildRemoved(p, parentPath, f.up, ks, 1, m, AllLeaves(f.(pend := [mp])));
    }

    method BorrowFromLeftLeaf(left: Node, leaf: Node, parent: Node, parentPath: seq<PageId>, ghost f: Family,
                              ghost lp: LeafPage, ghost p: LeafPage, ghost m: IndexKey, ghost ls: seq<LeafPage>)
      requires Backed()
      requires KeysFit(left.keys, kind) && KeysFit(leaf.keys, kind)
      requires Steady(Now(), f, parentPath, ls, caps) && Exact(f.up, m)
               && IsLeafPair(f, left, leaf, parent, lp, p, caps)
      requires caps.HalfLeaf() < |lp.entries| <= caps.leaf && caps.HalfLeaf() - 1 <= |p.entries| < caps.leaf
      modifies this`nodes, disk, this`tree
      ensures Backed()
      ensures HoldsLike(ls) && |nodes| == old(|nodes|)
    {
      hide Backed, KeysFit, KeyEncodable, Steady, Exact, HoldsLike, Reshared, IsParent, Keys, Records;
      SharedLast(f, parent, lp, p, caps);
      var last := |left.keys| - 1;
      FitParts(left.keys, last, |left.keys|, kind);
      FitParts(left.keys, 0, last, kind);
      assert left.keys[0..last] == left.keys[..last] && left.keys[last..] == [left.keys[last]];
      FitJoin([left.keys[last]], leaf.keys, kind);
      WriteLeafPair(left.(keys := left.keys[..last], records := left.records[..last]),
                    leaf.(keys := [left.keys[last]] + leaf.keys, records := [left.records[last]] + leaf.records),
                    parent, parentPath, f, lp.(entries := lp.entries[..last]),
                      p.(entries := [lp.entries[last]] + p.entries), m, ls);
    }

    method BorrowFromRightLeaf(leaf: Node, right: Node, parent: Node, parentPath: seq<PageId>, ghost f: Family,
                               ghost p: LeafPage, ghost rp: LeafPage, ghost m: IndexKey, ghost ls: seq<LeafPage>)
      requires Backed()
      requires KeysFit(leaf.keys, kind) && KeysFit(right.keys, kind)
      requires Steady(Now(), f, parentPath, ls, caps) && Exact(f.up, m)
               && IsLeafPair(f, leaf, right, parent, p, rp, caps)
      requires caps.HalfLeaf() < |rp.entries| <= caps.leaf && caps.HalfLeaf() - 1 <= |p.entries| < caps.leaf
      modifies this`nodes, disk, this`tree
      ensures Backed()
      ensures HoldsLike(ls) && |nodes| == old(|nodes|)
    {
      hide Backed, KeysFit, KeyEncodable, Steady, Exact, HoldsLike, Reshared, IsParent, Keys, Records;
      SharedFirst(f, parent, p, rp, caps);
      FitParts(right.keys, 1, 1, kind);
      assert right.keys[..1] == [right.keys[0]];
      FitJoin(leaf.keys, [right.keys[0]], kind);
      WriteLeafPair(leaf.(keys := leaf.keys + [right.keys[0]], records := leaf.records + [right.records[0]]),
                    right.(keys := right.keys[1..], records := right.records[1..]),
                    parent, parentPath, f, p.(entries := p.entries + [rp.entries[0]]),
                      rp.(entries := rp.entries[1..]), m, ls);
    }

    /** A leaf that is the root may be as empty as it likes. */
    method WriteRootLeaf(leaf: Node, ghost path: seq<PageId>, ghost ctx: Ctx, ghost p: LeafPage,
                         ghost ls: seq<LeafPage>)
      requires Backed() && ctx.Top? && leaf == LeafNode(p) && p.entries != [] && FitsPage(leaf)
               && KeysFit(leaf.keys, kind)
      requires Steady(Now(), Gathered(ctx, p.id, [], [p], 0), path, ls, caps)
      modifies this`nodes, disk, this`tree
      ensures Backed()
      ensures HoldsLike(ls) && |nodes| == old(|nodes|)
    {
      hide Backed, KeysFit, Flat, Rooted, Steady, Exact, Similar, Plug, MinKey, Focus, HoldsLike;
      SteadyRows(Now(), Gathered(ctx, p.id, [], [p], 0), path, ls, caps);
      LeafWritten(Now(), ctx, p, path, ls, caps);
      WriteNode(leaf);
      TopAlways(ctx, MinKey(Leaf(p)));
      Close(ctx, Leaf(p), 1, path, ls);
      HoldsSame(ls);
    }

    method FixLeafUnderflow(leaf: Node, path: seq<PageId>, ghost ctx: Ctx, ghost p: LeafPage, ghost m: IndexKey,
                            ghost ls: seq<LeafPage>)
      requires Backed()
      requires KeysFit(leaf.keys, kind)
      requires leaf == LeafNode(p)
      requires if ctx.Top? then p.entries != [] && FitsPage(leaf)
               else caps.HalfLeaf() - 1 <= |p.entries| < MinLeafKeys()
      requires Steady(Now(), Gathered(ctx, p.id, [], [p], 0), path, ls, caps) && Exact(ctx, m)
               && Ordered(Flat(ls), kind)
      modifies this`nodes, disk, this`rootPageId, this`height, this`firstLeafPageId, this`tree
      ensures Backed()
      ensures HoldsLike(ls) && |nodes| == old(|nodes|)
    {
      hide Backed, KeysFit, WellShaped, Steady, Focus, Exact, Row, Stored, Shape, RootShape, Rooted, MinKey, Seps,
           FrameNode, AllLeaves, HeadKey, IdSeq, Around, Similar, Ordered, Flat, HoldsLike, UpKey, InWorld, FrameKeys,
           IsLeafPair, IsParent, Reshared, WithLeft, WithRight;
      ghost var id := leaf.pageId;
      SteadyRows(Now(), Gathered(ctx, id, [], [p], 0), path, ls, caps);
      if leaf.pageId == rootPageId {
        WriteRootLeaf(leaf, path, ctx, p, ls);
        return;
      }
      Siblings(Now(), ctx, id, [], [p], 0, path, ls, caps);
      ParentChildren(ctx, id, ctx.sep);
      ExactUp(ctx, m);
      ghost var up := UpKey(ctx, m);
      var parent := ReadNode(path[|path| - 2]);
      var childIndex := IndexOf(parent.children, leaf.pageId);
      var minKeys := MinLeafKeys();
      var parentPath := path[..|path| - 1];
      if childIndex > 0 {
        LeafLeft(Now(), p, ctx, path, ls, caps);
        var left := ReadNode(parent.children[childIndex - 1]);
        if |left.keys| > minKeys {
          BorrowFromLeftLeaf(left, leaf, parent, parentPath, WithLeft(ctx, id, [], [p], 0),
                             ctx.left[|ctx.left| - 1].page, p, up, ls);
          return;
        }
      }
      if childIndex + 1 < |parent.children| {
        LeafRight(Now(), p, ctx, path, ls, caps);
        var right := ReadNode(parent.children[childIndex + 1]);
        if |right.keys| > minKeys {
          BorrowFromRightLeaf(leaf, right, parent, parentPath, WithRight(ctx, id, [], [p], 0), p, ctx.right[0].page,
                              up, ls);
          return;
        }
      }
      if childIndex > 0 {
        var left := ReadNode(parent.children[childIndex - 1]);
        MergeLeafPair(left, leaf, parent, childIndex, parentPath, WithLeft(ctx, id, [], [p], 0),
                      ctx.left[|ctx.left| - 1].page, p, up, ls);
        return;
      }
      var right := ReadNode(parent.children[childIndex + 1]);
      MergeLeafPair(leaf, right, parent, childIndex + 1, parentPath, WithRight(ctx, id, [], [p], 0),
                    p, ctx.right[0].page, up, ls);
    }

    // ----- lookup -----

    lemma ValidCases()
      requires Valid()
      ensures Empty() <==> height == 0
      ensures Empty() ==> Model() == map[]
      ensures caps.Ok() && |nodes| <= MAX_PAGES && caps == CapsFor(kind) && Backed()
    {
      hide Leaves, Flat, Ids, RootShape, Chain, Ordered, Keeps;
    }

    lemma ValidGrounded()
      requires Valid() && height > 0
      ensures Grounded(Now(), tree, caps, kind)
      ensures Model() == AsMap(Flat(Leaves(tree))) && !Empty() && Chain(Leaves(tree)) && size == |Flat(Leaves(tree))|
      ensures Backed()
    {
      hide Leaves, Flat, Ids, RootShape, Chain, Ordered, Keeps;
    }

    /** The leaf that holds a key if any does, and the pages on the way to it: as many as the height. */
    method FindLeaf(key: IndexKey) returns (leaf: Node, path: seq<PageId>, ghost ctx: Ctx, ghost p: LeafPage)
      requires Valid() && height > 0 && KeyMatchesKind(key, kind)
      ensures leaf == LeafNode(p) && |path| == height && KeysFit(leaf.keys, kind)
      ensures p == LeafFor(tree, key) && ctx == ContextFor(tree, Top, key)
      ensures Reached(key, path, ctx, p)
    {
      hide Backed, KeysFit, WellShaped, LeafFor, ContextFor, DiskPageManager.Valid, Contents, Model, Empty, Searching,
           Steady, Flat, Leaves, Plug, Ordered, Chain, Narrowed, Ids, MinKey, Exact, PathOf, LeavesBefore,
           LeavesAfter, UpperBound, Depth, Stored, RootShape, Shape, Image, CapsFor, KeyMatchesKind, LeafNode, Rooted,
           Grounded, Valid, Holds;
      ValidGrounded();
      SearchStart(Now(), tree, key, caps, kind);
      var currentPageId := rootPageId;
      path := [];
      ghost var t, h := tree, height as int;
      ctx := Top;
      assert [] + [Id(tree)] == [Id(tree)];
      while currentPageId != INVALID_PAGE_ID
        invariant currentPageId == Id(t) < |nodes| && LeafFor(t, key) == LeafFor(tree, key)
        invariant ContextFor(t, ctx, key) == ContextFor(tree, Top, key)
        invariant Searching(nodes, tree, height, ctx, t, h, path + [Id(t)], key, caps, kind)
        decreases t
      {
        SearchStep(nodes, tree, height, ctx, t, h, path + [Id(t)], key, caps, kind);
        path := path + [currentPageId];
        var node := ReadNode(currentPageId);
        if node.isLeaf {
          leaf := node;
          p := t.page;
          LeafForLeaf(p, key);
          SearchEnd(Now(), tree, ctx, p, h, path, key, caps, kind);
          return;
        }
        var childIndex := UpperBound(node.keys, key);
        currentPageId := node.children[childIndex];
        ctx, t, h := Below(ctx, t, childIndex), t.kids[childIndex], h - 1;
      }
      assert false;
    }

    /** What a search for key ends with. */
    ghost predicate Reached(key: IndexKey, path: seq<PageId>, ctx: Ctx, p: LeafPage)
      reads this`nodes, this`tree, this`height, this`rootPageId, this`firstLeafPageId
    {
      && Steady(Now(), Gathered(ctx, p.id, [], [p], 0), path, Leaves(tree), caps)
      && Leaves(tree) == LeavesBefore(ctx) + [p] + LeavesAfter(ctx) && Ordered(Flat(Leaves(tree)), kind)
      && p.entries != [] && |p.entries| <= caps.leaf && (ctx.Under? ==> caps.HalfLeaf() <= |p.entries|)
      && Exact(ctx, p.entries[0].key) && Narrowed(ctx, Leaf(p), key)
      && tree == Plug(ctx, Leaf(p))
    }

    /** The pages on path are those that are read, one after the other: as many as the height; the last
        one is that of the leaf at which FindLeaf would arrive. */
    method Find(key: IndexKey) returns (r: Checked<Option<Record>>, ghost path: seq<PageId>)
      requires Valid()
      ensures r == if !KeyMatchesKind(key, kind) then WrongKeyKind
                   else if key in Model() then Ok(Some(Model()[key])) else Ok(None)
      ensures r.Ok? && height > 0 ==> |path| == height && path[|path| - 1] == LeafFor(tree, key).id
    {
      hide Backed, KeysFit, WellShaped, LeafFor, ContextFor, Searching, Steady, Flat, Leaves, Plug, Ordered, Chain,
           Narrowed, Ids, MinKey, Exact, PathOf, LeavesBefore, LeavesAfter, UpperBound, LowerBound, AsMap, Depth,
           Stored, RootShape, Shape, Image, CapsFor, KeyMatchesKind, LeafNode, Rooted, Grounded, Valid, Holds, Below,
           AllBelow, AllAbove, Contents, Model, Empty;
      if !KeyMatchesKind(key, kind) {
        return WrongKeyKind, [];
      }
      ValidCases();
      if Empty() {
        return Ok(None), [];
      }
      ValidGrounded();
      SearchStart(Now(), tree, key, caps, kind);
      var currentPageId := rootPageId;
      ghost var ctx, t, h := Top, tree, height as int;
      path := [rootPageId];
      while currentPageId != INVALID_PAGE_ID
        invariant currentPageId == Id(t) < |nodes| && LeafFor(t, key) == LeafFor(tree, key)
        invariant path != [] && path[|path| - 1] == Id(t)
        invariant Searching(nodes, tree, height, ctx, t, h, path, key, caps, kind)
        decreases t
      {
        SearchStep(nodes, tree, height, ctx, t, h, path, key, caps, kind);
        var node := ReadNode(currentPageId);
        if node.isLeaf {
          SearchEnd(Now(), tree, ctx, t.page, h, path, key, caps, kind);
          LeafForLeaf(t.page, key);
          SearchFound(Now(), tree, ctx, t.page, h, path, key, caps, kind);
          var i := LowerBound(node.keys, key);
          if i < |node.keys| && node.keys[i] == key {
            return Ok(Some(node.records[i])), path;
          }
          return Ok(None), path;
        }
        var childIndex := UpperBound(node.keys, key);
        currentPageId := node.children[childIndex];
        path := path + [currentPageId];
        ctx, t, h := Below(ctx, t, childIndex), t.kids[childIndex], h - 1;
      }
      assert false;
    }

    method RangeSearch(beg: IndexKey, end: IndexKey) returns (r: Checked<seq<Record>>)
      requires Valid()
      ensures r.WrongKeyKind? <==> !KeyMatchesKind(beg, kind) || !KeyMatchesKind(end, kind)
      ensures r.Ok? ==> r.value == Records(InRange(Contents(), beg, end))
    {
      hide Backed, KeysFit, WellShaped, LeafFor, Valid, Holds, Empty, KeyMatchesKind, Leaves, Flat, Rooted, Ordered,
           Chain, Narrowed, AsMap, Steady, Exact, LeavesBefore, LeavesAfter, HeadKey, MinKey, Focus, Grounded,
           CapsFor, InRange, KeyLess, Rank;
      if !KeyMatchesKind(beg, kind) || !KeyMatchesKind(end, kind) {
        return WrongKeyKind;
      }
      ValidCases();
      SameKind(beg, end, kind);
      if Empty() || KeyLess(end, beg) {
        NothingInRange(Contents(), beg, end);
        return Ok([]);
      }
      ValidGrounded();
      ghost var ls := Leaves(tree);
      var leaf, path, ctx, p := FindLeaf(beg);
      ghost var i := |LeavesBefore(ctx)|;
      var res := [];
      PagesCounted();
      RangeStart(Now(), tree, ctx, p, beg, end, caps, kind);
      while leaf.pageId != INVALID_PAGE_ID && leaf.pageId < disk.pageCount
        invariant i < |ls| && leaf == LeafNode(ls[i]) && leaf.pageId < |nodes| <= MAX_PAGES
        invariant res == Records(InRange(Flat(ls[..i]), beg, end))
        decreases |ls| - i
      {
        var j := 0;
        assert Flat(ls[..i]) + ls[i].entries[..0] == Flat(ls[..i]);
        while j < |leaf.keys|
          invariant j <= |leaf.keys| == |ls[i].entries|
          invariant res == Records(InRange(Flat(ls[..i]) + ls[i].entries[..j], beg, end))
        {
          CursorStep(ls, i, j, beg, end, kind);
          if KeyLess(leaf.keys[j], beg) {
            j := j + 1;
            continue;
          }
          if KeyLess(end, leaf.keys[j]) {
            return Ok(res);
          }
          res := res + [leaf.records[j]];
          j := j + 1;
        }
        Cursor(ls, i, j);
        ChainNext(Now(), tree, i, caps, kind);
        if leaf.nextLeaf == INVALID_PAGE_ID {
          break;
        }
        leaf := ReadNode(leaf.nextLeaf);
        i := i + 1;
      }
      r := Ok(res);
    }

    lemma PagesCounted()
      requires Backed()
      ensures disk.pageCount == |nodes| <= MAX_PAGES
    {
    }

    /** What Holds says of the contents, once the metadata has been written. */
    lemma HoldsContents(ls: seq<LeafPage>)
      requires HoldsLike(ls) && Chain(ls) && Ordered(Flat(ls), kind) && size == |Flat(ls)|
      requires Backed() && disk.Meta() == Metadata(rootPageId, firstLeafPageId, height, size, KindCode(kind))
      ensures Valid() && Contents() == Flat(ls) && Model() == AsMap(Flat(ls))
    {
      hide Keeps, Ids, Stored, Leaves, Flat, Distinct, Shape;
      HeightPositive(tree, height, caps);
    }

    /** The metadata fits its fields. */
    lemma MetadataFits(ls: seq<LeafPage>)
      requires HoldsLike(ls) && size == |Flat(ls)| && Backed()
      ensures height < TWO_32 && size < TWO_64
    {
      hide Keeps, Ids, Stored, Leaves, Flat, Distinct, Shape;
      TreeSize.HeightSmall(tree, height, caps, |nodes|);
      TreeSize.EntriesSmall(tree, height, caps, |nodes|);
    }

    // ----- insertion -----

    /** Insertion into an empty index: the leaf becomes the root. */
    method InsertFirst(key: IndexKey, record: Record) returns (ok: bool)
      requires Valid() && height == 0 && |nodes| < MAX_PAGES && KeyMatchesKind(key, kind)
      modifies this, disk
      ensures Valid() && ok == KeyEncodable(key, kind) && |nodes| == old(|nodes|) + 1
      ensures Model() == if ok then map[key := record] else map[]
      ensures !ok ==> size == old(size) && height == 0
    {
      hide Focus, Ordered, Rooted, Chain, Backed, KeysFit, KeyEncodable, KeyMatchesKind;
      ValidCases();
      var rootId := AllocatePage();
      var root := Node(true, rootId, INVALID_PAGE_ID, [key], [], [record]);
      FitOne(key, kind);
      ok := TryWriteNode(root);
      if !ok {
        return;
      }
      Replaced(old(nodes), root);
      PlantRoot(key, record, rootId, old(nodes), nodes[rootId]);
    }

    /** The page of the first leaf has been written after those that are there already. */
    method PlantRoot(key: IndexKey, record: Record, rootId: PageId, ghost pages: seq<Node>, ghost root: Node)
      requires Backed() && nodes == pages + [root] && rootId == |pages| && |nodes| <= MAX_PAGES
      requires root == Node(true, rootId, INVALID_PAGE_ID, [key], [], [record])
      requires caps.Ok() && KeyMatchesKind(key, kind)
      modifies this`rootPageId, this`firstLeafPageId, this`height, this`size, this`tree, disk
      ensures Valid() && Model() == map[key := record]
    {
      hide Focus, Ordered, Rooted, Chain, Backed, Similar, KeyMatchesKind;
      ghost var p := LeafPage(rootId, [Entry(key, record)], INVALID_PAGE_ID);
      FirstLeaf(nodes, rootId, Entry(key, record), caps, kind);
      assert nodes[rootId := LeafNode(p)] == nodes;
      rootPageId := rootId;
      firstLeafPageId := rootId;
      height := 1;
      size := 1;
      Close(Top, Leaf(p), 1, [rootId], [p]);
      SimilarSelf([p]);
      SaveMetadata();
      HoldsContents([p]);
    }

    /** The leaf with its new entry is written, or split if it has become too full. */
    method PutLeaf(leaf: Node, path: seq<PageId>, ghost ctx: Ctx, ghost p: LeafPage, ghost ls: seq<LeafPage>)
      requires Backed()
      requires KeysFit(leaf.keys, kind)
      requires leaf == LeafNode(p) && |p.entries| <= caps.leaf + 1
      requires if ctx.Top? then 1 <= |p.entries| else caps.HalfLeaf() <= |p.entries|
      requires Steady(Now(), Gathered(ctx, p.id, [], [p], 0), path, ls, caps) && Ordered(Flat(ls), kind)
      requires Exact(ctx, MinKey(Leaf(p))) && HeadKey(Gathered(ctx, p.id, [], [p], 0)) == MinKey(Leaf(p))
      requires |nodes| + |path| + 1 <= MAX_PAGES
      modifies this`nodes, disk, this`rootPageId, this`height, this`tree
      ensures Backed()
      ensures HoldsLike(ls) && |nodes| <= old(|nodes|) + |path| + 1
    {
      hide Backed, KeysFit, Flat, Rooted, Ordered, Steady, Exact, Similar, Plug, HeadKey, MinKey, Focus;
      if FitsPage(leaf) {
        LeafWritten(Now(), ctx, p, path, ls, caps);
        WriteNode(leaf);
        Close(ctx, Leaf(p), 1, path, ls);
        SimilarSelf(ls);
      } else {
        SplitLeaf(leaf, path, ctx, p, ls);
      }
    }

    /** Inserts a new key, or reports a duplicate, a key of the other kind, or a string that cannot be
        written. After that last exception the index is as it was, but for pages that have been allocated
        in vain, exactly if the key is short or would have gone to the page that a split writes first: the
        first half of a root leaf, or the first third of two neighbouring leaves. */
    method Insert(key: IndexKey, record: Record) returns (r: InsertResult)
      requires Valid() && |nodes| + height + 1 <= MAX_PAGES
      modifies this, disk
      ensures !r.KeyRejected? ==> Valid()
      ensures r.WrongKind? <==> !KeyMatchesKind(key, kind)
      ensures r.DuplicateKey? <==> KeyMatchesKind(key, kind) && key in old(Model())
      ensures r.KeyRejected? <==> KeyMatchesKind(key, kind) && !KeyEncodable(key, kind) && key !in old(Model())
      ensures r.Inserted? ==> Model() == old(Model())[key := record]
      ensures !r.Inserted? ==> size == old(size) && height == old(height)
      ensures r.WrongKind? || r.DuplicateKey? ==> unchanged(this) && unchanged(disk)
      ensures r.KeyRejected? && (|key.s| <= INDEX_STRING_KEY_SIZE || height == 0) ==>
                Valid() && Contents() == old(Contents())
      ensures r.KeyRejected? && |key.s| > INDEX_STRING_KEY_SIZE && height == 1 ==>
                (Valid() <==> CountBelow(old(Contents()), key) < (size + 1) / 2)
      ensures r.KeyRejected? && |key.s| > INDEX_STRING_KEY_SIZE && height >= 2 ==>
                (Valid() <==> CountBelow(old(PairFor(key)), key) < (|old(PairFor(key))| + 3) / 3)
      ensures r.KeyRejected? && Valid() ==> Contents() == old(Contents())
      ensures |nodes| <= old(|nodes| + height) + 1
    {
      hide Backed, KeysFit, KeyEncodable, Valid, Holds, Contents, Model, Empty, KeyMatchesKind, Leaves, Flat, Rooted,
           Ordered, Chain, Narrowed, AsMap, Steady, Exact, LowerBound, AllBelow, AllAbove, Similar, Plug,
           LeavesBefore, LeavesAfter, HeadKey, MinKey, Focus, Grounded, CapsFor, HoldsLike, LeafFor, ContextFor,
           PairAround, CountBelow;
      if !KeyMatchesKind(key, kind) {
        return WrongKind;
      }
      ValidCases();
      OnlyStrings(key, kind);
      if Empty() {
        NothingContained();
        var ok := InsertFirst(key, record);
        if ok {
          return Inserted;
        }
        NothingContained();
        return KeyRejected;
      }
      ValidGrounded();
      ghost var ls := Leaves(tree);
      var leaf, path, ctx, p := FindLeaf(key);
      LookupInLeaf(ctx, p, key, kind);
      var index := LowerBound(leaf.keys, key);
      if index < |leaf.keys| && leaf.keys[index] == key {
        return DuplicateKey;
      }
      ghost var before := leaf.keys;
      leaf := leaf.(keys := leaf.keys[..index] + [key] + leaf.keys[index..],
                    records := leaf.records[..index] + [record] + leaf.records[index..]);
      ghost var e := Entry(key, record);
      ghost var p' := p.(entries := p.entries[..index] + [e] + p.entries[index..]);
      ghost var ls' := LeavesBefore(ctx) + [p'] + LeavesAfter(ctx);
      KeysGained(before, index, key, kind);
      InsertPrepared(Now(), ctx, p, index, e, path, caps, kind);
      if !KeyEncodable(key, kind) {
        RejectKey(leaf, index, key, path, ctx, p, e, p', ls');
        return KeyRejected;
      }
      PutLeaf(leaf, path, ctx, p', ls');
      size := size + 1;
      MetadataFits(ls');
      SaveMetadata();
      HoldsContents(ls');
      r := Inserted;
    }

    // ----- a string that cannot be written -----

    lemma BackedOk()
      requires Valid()
      ensures Backed() && disk.Meta() == Metadata(rootPageId, firstLeafPageId, height, size, KindCode(kind))
    {
    }

    lemma NothingContained()
      requires Valid() && height == 0
      ensures Contents() == []
    {
    }

    /** Pages allocated in vain do not matter. */
    lemma ValidWithMore(before: seq<Node>)
      requires Backed() && disk.Meta() == Metadata(rootPageId, firstLeafPageId, height, size, KindCode(kind))
      requires Grounded(Store(before, rootPageId, firstLeafPageId, height), tree, caps, kind) && Chain(Leaves(tree))
      requires height > 0 && size == |Flat(Leaves(tree))| && before <= nodes
      ensures Valid()
    {
      hide Leaves, Flat, Keeps, RootShape, Stored, Ordered, Chain, Ids;
      StoredFrame(before, nodes, tree);
    }

    /** A root leaf that points to another page is not the leaf of a valid index. */
    lemma HalfWritten(p: LeafPage)
      requires height == 1 && tree == Leaf(p) && p.id < |nodes| && nodes[p.id].nextLeaf != INVALID_PAGE_ID
      ensures !Valid()
    {
      hide Keeps, Ordered, Flat;
      assert Leaves(tree) == [p];
    }

    /** A leaf that links to a page that is new is not the leaf of a valid index. */
    lemma LinkBroken(before: Store, i: nat)
      requires Grounded(before, tree, caps, kind) && Chain(Leaves(tree)) && i < |Leaves(tree)| && height > 0
      requires Leaves(tree)[i].id < |nodes| && nodes[Leaves(tree)[i].id].nextLeaf == |before.nodes|
      ensures !Valid()
    {
      hide Leaves, Flat, Keeps, Ordered, Chain, Ids, Shape;
      ChainNext(before, tree, i, caps, kind);
      if Stored(nodes, tree) {
        LeafStored(nodes, tree, i);
      }
    }

    /** The index is in order again exactly if no page but a new one has been written. */
    lemma RejectedOutcome(before: Store, i: nat, untouched: bool)
      requires Grounded(before, tree, caps, kind) && Chain(Leaves(tree)) && i < |Leaves(tree)| && height > 0
      requires before == Store(before.nodes, rootPageId, firstLeafPageId, height)
      requires Backed() && disk.Meta() == Metadata(rootPageId, firstLeafPageId, height, size, KindCode(kind))
      requires size == |Flat(Leaves(tree))| && Leaves(tree)[i].id < |nodes|
      requires if untouched then before.nodes <= nodes else nodes[Leaves(tree)[i].id].nextLeaf == |before.nodes|
      ensures Valid() <==> untouched
    {
      hide Backed, Valid, Grounded, Leaves, Flat, Chain;
      if untouched {
        ValidWithMore(before.nodes);
      } else {
        LinkBroken(before, i);
      }
    }

    /** Two leaves whose entries would be spread over three, up to the page with the key that cannot be
        written. */
    method SplitRejected(left: Node, right: Node, ghost lp: LeafPage, ghost rp: LeafPage, ghost pos: nat)
      requires Backed() && left == LeafNode(lp) && right == LeafNode(rp) && left.pageId < |nodes|
               && right.pageId < |nodes|
      requires |lp.entries| + |rp.entries| <= 2 * caps.leaf + 1 && |nodes| < MAX_PAGES && caps.Ok()
      requires Ordered(lp.entries + rp.entries, kind) && OnlyBad(lp.entries + rp.entries, pos, kind)
               && left.pageId != right.pageId
      modifies this`nodes, disk
      ensures Backed() && disk.Meta() == old(disk.Meta()) && |nodes| == old(|nodes|) + 1
      ensures var first := (|lp.entries| + |rp.entries| + 2) / 3;
              if pos < first then old(nodes) <= nodes else nodes[left.pageId].nextLeaf == old(|nodes|)
    {
      hide Backed, KeysFit, KeyEncodable, Ordered, SortByKey, OnlyBad, DiskPageManager.Meta;
      OrderedSortable(lp.entries + rp.entries, kind);
      SortedStays(lp.entries + rp.entries, kind);
      assert Zip(left.keys + right.keys, left.records + right.records) == lp.entries + rp.entries;
      var items := Zip(left.keys + right.keys, left.records + right.records);
      items := SortByKey(items);
      var middlePageId := AllocatePage();
      var counts := ThreeWayCounts(|items|);
      var a, b := counts.0, counts.0 + counts.1;
      var leftKeys, leftRecords := Deal(items, 0, a);
      var middleKeys, middleRecords := Deal(items, a, b);
      var rightKeys, rightRecords := Deal(items, b, |items|);
      FirstOnes(items, pos, a, kind);
      SomeBad(items, pos, kind);
      DealtAll(items, a, b, kind);
      WriteUpToBad(left.(keys := leftKeys, records := leftRecords, nextLeaf := middlePageId),
                   Node(true, middlePageId, right.pageId, middleKeys, [], middleRecords),
                   right.(keys := rightKeys, records := rightRecords));
    }

    /** Three pages are written, up to the one with a key that cannot be. */
    method WriteUpToBad(l: Node, m: Node, r: Node)
      requires Backed() && WellShaped(l) && WellShaped(m) && WellShaped(r) && FitsPage(l) && FitsPage(m) && FitsPage(r)
      requires l.pageId < |nodes| && m.pageId < |nodes| && r.pageId < |nodes|
      requires l.pageId != m.pageId && l.pageId != r.pageId
      requires !(KeysFit(l.keys, kind) && KeysFit(m.keys, kind) && KeysFit(r.keys, kind))
      modifies this`nodes, disk
      ensures Backed() && disk.Meta() == old(disk.Meta()) && |nodes| == old(|nodes|)
      ensures if KeysFit(l.keys, kind) then nodes[l.pageId] == l else nodes == old(nodes)
    {
      hide Backed, KeysFit, WellShaped, DiskPageManager.Meta;
      var ok := TryWriteNode(l);
      if !ok {
        return;
      }
      ok := TryWriteNode(m);
      if !ok {
        return;
      }
      ok := TryWriteNode(r);
      assert !ok;
    }

    /** A leaf with a new key that cannot be written: the exceptions of the code, and what it has written
        before they are raised. */
    method RejectKey(leaf: Node, index: nat, key: IndexKey, path: seq<PageId>,
                     ghost ctx: Ctx, ghost p: LeafPage, ghost e: Entry, ghost p': LeafPage, ghost ls: seq<LeafPage>)
      requires Valid() && height > 0 && |nodes| + 2 <= MAX_PAGES && KeyMatchesKind(key, kind)
               && !KeyEncodable(key, kind)
      requires Reached(key, path, ctx, p) && |path| == height && leaf == LeafNode(p') && e.key == key
      requires index <= |p.entries| && p' == p.(entries := p.entries[..index] + [e] + p.entries[index..])
      requires KeysFit(LeafNode(p).keys, kind)
      requires AllBelow(p.entries[..index], key) && AllAbove(p.entries[index..], key)
      requires Steady(Now(), Gathered(ctx, p.id, [], [p'], 0), path, ls, caps) && Ordered(Flat(ls), kind)
      modifies this`nodes, disk
      ensures |key.s| <= INDEX_STRING_KEY_SIZE ==> unchanged(this) && unchanged(disk)
      ensures |key.s| > INDEX_STRING_KEY_SIZE && height == 1 ==>
                (Valid() <==> CountBelow(Contents(), key) < (size + 1) / 2)
      ensures |key.s| > INDEX_STRING_KEY_SIZE && height >= 2 ==>
                (Valid() <==> CountBelow(PairAround(ctx, p), key) < (|PairAround(ctx, p)| + 3) / 3)
      ensures |nodes| <= old(|nodes|) + 2
    {
      hide Backed, KeysFit, KeyEncodable, Valid, Ordered, Steady, Flat, Leaves, Exact, Narrowed, Plug, Similar,
           AllBelow, AllAbove, CountBelow, LeavesBefore, LeavesAfter, DiskPageManager.Meta, Grounded, Chain,
           IsLeafPair, IsParent, WithRight, WithLeft, PairAround, OnlyBad;
      OnlyStrings(key, kind);
      if |key.s| <= INDEX_STRING_KEY_SIZE {
        return;
      }
      SteadyRows(Now(), Gathered(ctx, p.id, [], [p'], 0), path, ls, caps);
      assert leaf.keys == LeafNode(p).keys[..index] + [key] + LeafNode(p).keys[index..];
      BackedOk();
      if |path| > 1 {
        BadJoins(p.entries, index, e, kind);
        RejectBeside(leaf, index, e, path, ctx, p, p', ls);
        return;
      }
      RejectInRoot(leaf, index, key, ctx, p, p');
    }

    /** Below the root neither neighbour takes an entry, because one of the two pages would hold the key;
        so a pair is split. */
    method RejectBeside(leaf: Node, ghost index: nat, ghost e: Entry, path: seq<PageId>, ghost ctx: Ctx,
                        ghost p: LeafPage, ghost p': LeafPage, ghost ls: seq<LeafPage>)
      requires Valid() && height > 0 && |nodes| < MAX_PAGES && |path| > 1
      requires Reached(e.key, path, ctx, p) && leaf == LeafNode(p') && OnlyBad(p'.entries, index, kind)
      requires index <= |p.entries| && p' == p.(entries := p.entries[..index] + [e] + p.entries[index..])
      requires Steady(Now(), Gathered(ctx, p.id, [], [p'], 0), path, ls, caps) && Ordered(Flat(ls), kind)
      modifies this`nodes, disk
      ensures Valid() <==> CountBelow(PairAround(ctx, p), e.key) < (|PairAround(ctx, p)| + 3) / 3
      ensures |nodes| == old(|nodes|) + 1
    {
      hide Backed, KeysFit, KeyEncodable, Valid, Steady, Ordered, Flat, Leaves, LeavesBefore, LeavesAfter, Focus,
           Exact, Row, Stored, Shape, RootShape, MinKey, Seps, FrameNode, AllLeaves, HeadKey, IdSeq, Around,
           FrameKeys, InWorld, IsParent, IsBranch, IsLeafPair, DiskPageManager.Meta, Grounded, Chain, Plug, Narrowed,
           OnlyBad, CountBelow;
      BackedOk();
      ValidGrounded();
      ghost var before := Now();
      SteadyRows(Now(), Gathered(ctx, p.id, [], [p'], 0), path, ls, caps);
      Siblings(Now(), ctx, p.id, [], [p'], 0, path, ls, caps);
      ParentChildren(ctx, p.id, ctx.sep);
      var parent := ReadNode(path[|path| - 2]);
      var childIndex := IndexOf(parent.children, leaf.pageId);
      if childIndex + 1 < |parent.children| {
        RejectWithRight(leaf, index, e, parent, childIndex, path, ctx, p, p', ls);
      } else {
        RejectWithLeft(leaf, index, e, parent, childIndex, path, ctx, p, p', ls);
      }
    }

    method RejectWithRight(leaf: Node, ghost index: nat, ghost e: Entry, parent: Node, childIndex: nat,
                           ghost path: seq<PageId>,
                           ghost ctx: Ctx, ghost p: LeafPage, ghost p': LeafPage, ghost ls: seq<LeafPage>)
      requires Valid() && height > 0 && |nodes| < MAX_PAGES && path != []
      requires Reached(e.key, path, ctx, p) && leaf == LeafNode(p') && OnlyBad(p'.entries, index, kind)
      requires index <= |p.entries| && p' == p.(entries := p.entries[..index] + [e] + p.entries[index..])
      requires Steady(Now(), Gathered(ctx, p.id, [], [p'], 0), path, ls, caps) && Ordered(Flat(ls), kind)
      requires ctx.Under? && ctx.right != [] && ctx.pid < |nodes| && parent == nodes[ctx.pid]
               && childIndex == |ctx.left|
      modifies this`nodes, disk
      ensures Valid() <==> CountBelow(PairAround(ctx, p), e.key) < (|PairAround(ctx, p)| + 3) / 3
      ensures |nodes| == old(|nodes|) + 1
    {
      hide Backed, KeysFit, KeyEncodable, Valid, Steady, Ordered, Flat, Leaves, LeavesBefore, LeavesAfter, Exact,
           AllLeaves, HeadKey, IsParent, IsLeafPair, DiskPageManager.Meta, Grounded, Chain, Plug, Narrowed, OnlyBad,
           CountBelow;
      BackedOk();
      ValidGrounded();
      ghost var before := Now();
      SteadyRows(Now(), Gathered(ctx, p.id, [], [p'], 0), path, ls, caps);
      LeafRight(Now(), p', ctx, path, ls, caps);
      ghost var rp := ctx.right[0].page;
      var right := ReadNode(parent.children[childIndex + 1]);
      PairOrdered(Now(), WithRight(ctx, p.id, [], [p'], 0), p', rp, path[..|path| - 1], ls, caps, kind);
      BadBeside(p'.entries, rp.entries, index, kind);
      RightPosition(ctx, p, index, e, rp);
      TwoIds(Now(), WithRight(ctx, p.id, [], [p'], 0), p.id, rp.id, path[..|path| - 1], ls, caps);
      SplitRejected(leaf, right, p', rp, index);
      RejectedOutcome(before, |LeavesBefore(ctx)|, index < (|p'.entries| + |rp.entries| + 2) / 3);
    }

    method RejectWithLeft(leaf: Node, ghost index: nat, ghost e: Entry, parent: Node, childIndex: nat,
                          ghost path: seq<PageId>,
                          ghost ctx: Ctx, ghost p: LeafPage, ghost p': LeafPage, ghost ls: seq<LeafPage>)
      requires Valid() && height > 0 && |nodes| < MAX_PAGES && path != []
      requires Reached(e.key, path, ctx, p) && leaf == LeafNode(p') && OnlyBad(p'.entries, index, kind)
      requires index <= |p.entries| && p' == p.(entries := p.entries[..index] + [e] + p.entries[index..])
      requires Steady(Now(), Gathered(ctx, p.id, [], [p'], 0), path, ls, caps) && Ordered(Flat(ls), kind)
      requires ctx.Under? && ctx.right == [] && ctx.left != [] && ctx.pid < |nodes| && parent == nodes[ctx.pid]
               && childIndex == |ctx.left|
      modifies this`nodes, disk
      ensures Valid() <==> CountBelow(PairAround(ctx, p), e.key) < (|PairAround(ctx, p)| + 3) / 3
      ensures |nodes| == old(|nodes|) + 1
    {
      hide Backed, KeysFit, KeyEncodable, Valid, Steady, Ordered, Flat, Leaves, LeavesBefore, LeavesAfter, Exact,
           AllLeaves, HeadKey, IsParent, IsLeafPair, DiskPageManager.Meta, Grounded, Chain, Plug, Narrowed, OnlyBad,
           CountBelow;
      BackedOk();
      ValidGrounded();
      ghost var before := Now();
      SteadyRows(Now(), Gathered(ctx, p.id, [], [p'], 0), path, ls, caps);
      LeafLeft(Now(), p', ctx, path, ls, caps);
      ghost var lp := ctx.left[|ctx.left| - 1].page;
      var left := ReadNode(parent.children[childIndex - 1]);
      PairOrdered(Now(), WithLeft(ctx, p.id, [], [p'], 0), lp, p', path[..|path| - 1], ls, caps, kind);
      BadBeside(lp.entries, p'.entries, index, kind);
      LeftPosition(ctx, p, index, e, lp);
      LastBefore(ctx);
      TwoIds(Now(), WithLeft(ctx, p.id, [], [p'], 0), lp.id, p.id, path[..|path| - 1], ls, caps);
      SplitRejected(left, leaf, lp, p', |lp.entries| + index);
      RejectedOutcome(before, |LeavesBefore(ctx)| - 1, |lp.entries| + index < (|lp.entries| + |p'.entries| + 2) / 3);
    }

    /** The place of a new key among the entries of its leaf and the next one. */
    lemma RightPosition(ctx: Ctx, p: LeafPage, index: nat, e: Entry, rp: LeafPage)
      requires ctx.Under? && ctx.right != [] && ctx.right[0] == Leaf(rp) && index <= |p.entries|
      requires Ordered(p.entries[..index] + [e] + p.entries[index..] + rp.entries, kind)
      ensures CountBelow(PairAround(ctx, p), e.key) == index && |PairAround(ctx, p)| == |p.entries| + |rp.entries|
    {
      hide Ordered, CountBelow;
      var a, b := p.entries[..index], p.entries[index..];
      assert a + [e] + b + rp.entries == a + [e] + (b + rp.entries);
      PairCount(a, e, b + rp.entries, kind);
      assert p.entries + rp.entries == a + (b + rp.entries);
    }

    lemma LeftPosition(ctx: Ctx, p: LeafPage, index: nat, e: Entry, lp: LeafPage)
      requires ctx.Under? && ctx.right == [] && ctx.left != [] && ctx.left[|ctx.left| - 1] == Leaf(lp)
               && index <= |p.entries|
      requires Ordered(lp.entries + (p.entries[..index] + [e] + p.entries[index..]), kind)
      ensures CountBelow(PairAround(ctx, p), e.key) == |lp.entries| + index
              && |PairAround(ctx, p)| == |lp.entries| + |p.entries|
    {
      hide Ordered, CountBelow;
      var a, b := p.entries[..index], p.entries[index..];
      assert lp.entries + (a + [e] + b) == (lp.entries + a) + [e] + b;
      PairCount(lp.entries + a, e, b, kind);
      assert lp.entries + p.entries == (lp.entries + a) + b;
    }

    /** At the root two pages are allocated; then the left half is written, unless it holds the key. */
    method RejectInRoot(leaf: Node, index: nat, key: IndexKey, ghost ctx: Ctx, ghost p: LeafPage, ghost p': LeafPage)
      requires Valid() && Backed() && height == 1 && |nodes| + 2 <= MAX_PAGES && !KeyEncodable(key, kind)
      requires leaf == LeafNode(p') && p'.id == p.id && p.id < |nodes|
               && |p'.entries| == |p.entries| + 1 <= caps.leaf + 1
      requires ctx.Top? && tree == Plug(ctx, Leaf(p)) && index <= |p.entries| && KeysFit(LeafNode(p).keys, kind)
      requires leaf.keys == LeafNode(p).keys[..index] + [key] + LeafNode(p).keys[index..]
      requires AllBelow(p.entries[..index], key) && AllAbove(p.entries[index..], key)
      modifies this`nodes, disk
      ensures Valid() <==> CountBelow(Contents(), key) < (size + 1) / 2
      ensures |nodes| == old(|nodes|) + 2
    {
      hide Backed, KeysFit, KeyEncodable, Valid, Ordered, Leaves, Flat, CountBelow, Grounded, Chain,
           DiskPageManager.Meta, Keys, Records, AllBelow, AllAbove, Contents, Plug, Stored, Rooted, Holds;
      PlugTop(ctx, Leaf(p));
      ValidCases();
      ValidGrounded();
      BackedOk();
      RootEntries(p, index, key);
      ghost var before := nodes;
      var rightPageId := AllocatePage();
      var splitIndex := |leaf.keys| / 2;
      var right := Node(true, rightPageId, leaf.nextLeaf, leaf.keys[splitIndex..], [], leaf.records[splitIndex..]);
      var left := leaf.(keys := leaf.keys[..splitIndex], records := leaf.records[..splitIndex],
                        nextLeaf := rightPageId);
      var newRootPageId := AllocatePage();
      KeyInHalf(LeafNode(p).keys, index, key, splitIndex, kind);
      var ok := TryWriteNode(left);
      if !ok {
        ValidWithMore(before);
        return;
      }
      ok := TryWriteNode(right);
      assert !ok;
      HalfWritten(p);
    }

    lemma RootEntries(p: LeafPage, index: nat, key: IndexKey)
      requires Valid() && height == 1 && tree == Leaf(p) && index <= |p.entries|
      requires AllBelow(p.entries[..index], key) && AllAbove(p.entries[index..], key)
      ensures size == |p.entries| && CountBelow(Contents(), key) == index && tree == Leaf(p)
    {
      FlatOne(p);
      CountIsPosition(p.entries, index, key);
    }

    // ----- removal -----

    /** The leaf without its entry is written, or filled up again if it has become too empty. */
    method TakeFromLeaf(leaf: Node, path: seq<PageId>, erasedIndex: nat, ghost ctx: Ctx, ghost p: LeafPage,
                        ghost m: IndexKey, ghost ls: seq<LeafPage>)
      requires Backed()
      requires KeysFit(leaf.keys, kind)
      requires leaf == LeafNode(p) && |p.entries| < caps.leaf
      requires if ctx.Top? then p.entries != [] else caps.HalfLeaf() - 1 <= |p.entries|
      requires Steady(Now(), Gathered(ctx, p.id, [], [p], 0), path, ls, caps) && Ordered(Flat(ls), kind)
      requires Exact(ctx, m) && (erasedIndex > 0 && p.entries != [] ==> p.entries[0].key == m)
      modifies this`nodes, disk, this`rootPageId, this`height, this`firstLeafPageId, this`tree
      ensures Backed()
      ensures HoldsLike(ls) && |nodes| == old(|nodes|)
    {
      hide Backed, KeysFit, Flat, Rooted, Ordered, Steady, Exact, Similar, Plug, MinKey, Focus, HoldsLike;
      SteadyRows(Now(), Gathered(ctx, p.id, [], [p], 0), path, ls, caps);
      if leaf.pageId == rootPageId || |leaf.keys| >= MinLeafKeys() {
        LeafWritten(Now(), ctx, p, path, ls, caps);
        WriteNode(leaf);
        if erasedIndex == 0 && leaf.keys != [] {
          PropagateSubtreeMinChange(leaf.pageId, path, ctx, Leaf(p), 1, m, ls);
        } else {
          LeafMin(p);
          Close(ctx, Leaf(p), 1, path, ls);
        }
        HoldsSame(ls);
        return;
      }
      FixLeafUnderflow(leaf, path, ctx, p, m, ls);
    }

    lemma HoldsSame(ls: seq<LeafPage>)
      requires Holds(ls)
      ensures HoldsLike(ls)
    {
    }

    method Erase(key: IndexKey) returns (r: Checked<bool>)
      requires Valid()
      modifies this, disk
      ensures Valid()
      ensures r.WrongKeyKind? <==> !KeyMatchesKind(key, kind)
      ensures r.Ok? ==> r.value == (key in old(Model())) && Model() == old(Model()) - {key}
      ensures r != Ok(true) ==> unchanged(this) && unchanged(disk)
      ensures |nodes| == old(|nodes|)
    {
      hide Backed, KeysFit, KeyEncodable, Valid, Holds, Contents, Model, Empty, KeyMatchesKind, Leaves, Flat, Rooted,
           Ordered, Chain, Narrowed, AsMap, Steady, Exact, LowerBound, AllBelow, AllAbove, Similar, Plug,
           LeavesBefore, LeavesAfter, HeadKey, MinKey, Focus, Grounded, CapsFor, HoldsLike, LeafFor;
      if !KeyMatchesKind(key, kind) {
        return WrongKeyKind;
      }
      ValidCases();
      if Empty() {
        return Ok(false);
      }
      ValidGrounded();
      ghost var ls := Leaves(tree);
      var leaf, path, ctx, p := FindLeaf(key);
      ErasePrepared(Now(), ctx, p, key, path, caps, kind);
      var index := LowerBound(leaf.keys, key);
      if index == |leaf.keys| || leaf.keys[index] != key {
        return Ok(false);
      }
      KeysLess(leaf.keys, index, kind);
      leaf := leaf.(keys := leaf.keys[..index] + leaf.keys[index + 1..],
                    records := leaf.records[..index] + leaf.records[index + 1..]);
      ghost var p' := p.(entries := p.entries[..index] + p.entries[index + 1..]);
      ghost var ls' := LeavesBefore(ctx) + [p'] + LeavesAfter(ctx);
      size := size - 1;
      if size == 0 {
        EraseLast(leaf, path, ctx, p', ls');
        return Ok(true);
      }
      EraseFromLeaf(leaf, path, index, ctx, p', p.entries[0].key, ls');
      r := Ok(true);
    }

    /** The leaf has lost an entry, in memory, and is not empty if it is the root. */
    method EraseFromLeaf(leaf: Node, path: seq<PageId>, erasedIndex: nat, ghost ctx: Ctx, ghost p: LeafPage,
                         ghost m: IndexKey, ghost ls: seq<LeafPage>)
      requires Backed()
      requires KeysFit(leaf.keys, kind)
      requires leaf == LeafNode(p) && |p.entries| < caps.leaf
      requires if ctx.Top? then p.entries != [] else caps.HalfLeaf() - 1 <= |p.entries|
      requires Steady(Now(), Gathered(ctx, p.id, [], [p], 0), path, ls, caps) && Ordered(Flat(ls), kind)
      requires Exact(ctx, m) && (erasedIndex > 0 && p.entries != [] ==> p.entries[0].key == m)
      requires Chain(ls) && size == |Flat(ls)|
      modifies this`nodes, disk, this`rootPageId, this`height, this`firstLeafPageId, this`tree
      ensures Valid() && Model() == AsMap(Flat(ls)) && |nodes| == old(|nodes|)
    {
      hide Backed, KeysFit, Valid, Flat, Rooted, Ordered, Chain, Steady, Exact, AsMap, Model, Contents, HoldsLike;
      TakeFromLeaf(leaf, path, erasedIndex, ctx, p, m, ls);
      MetadataFits(ls);
      SaveMetadata();
      HoldsContents(ls);
    }

    /** The last entry is gone, and with it the tree. */
    method EraseLast(leaf: Node, ghost path: seq<PageId>, ghost ctx: Ctx, ghost p: LeafPage, ghost ls: seq<LeafPage>)
      requires Backed() && size == 0 && Flat(ls) == [] && leaf.isLeaf && leaf.children == [] && leaf.pageId == p.id
      requires Steady(Now(), Gathered(ctx, p.id, [], [p], 0), path, ls, caps)
      modifies this`nodes, this`rootPageId, this`firstLeafPageId, this`height, disk
      ensures Valid() && Model() == map[] == AsMap(Flat(ls)) && |nodes| == old(|nodes|)
    {
      hide Backed, KeysFit, Steady, Flat;
      SteadyRows(Now(), Gathered(ctx, p.id, [], [p], 0), path, ls, caps);
      WriteNode(leaf.(keys := [], records := []));
      rootPageId := INVALID_PAGE_ID;
      firstLeafPageId := INVALID_PAGE_ID;
      height := 0;
      SaveMetadata();
      NowEmpty(Flat(ls));
    }

    lemma NowEmpty(es: seq<Entry>)
      requires height == 0 && size == 0 && rootPageId == INVALID_PAGE_ID && firstLeafPageId == INVALID_PAGE_ID
               && es == []
      requires Backed() && disk.Meta() == Metadata(rootPageId, firstLeafPageId, height, size, KindCode(kind))
      ensures Valid() && Model() == map[] == AsMap(es)
    {
      hide Keeps;
    }
  }
}
