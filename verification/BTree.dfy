/** The B+tree over the pager: every operation does to the stored tree what the model does. */
module BTrees {
  import opened Ascents
  import opened Bytes
  import opened Entries
  import opened Layout
  import opened MetaPages
  import opened TreeModel
  import opened TreeInsert
  import opened TreeLaws
  import opened Pages
  import opened NodePages
  import opened Pagers
  import opened Results
  import opened Seqs
  import opened TreeStore

  /** A tree that lies whole and well formed in pages the pager has handed out. */
  ghost predicate TreeOk(pager: Pager, t: Tree)
    reads pager`file, pager`live
  {
    TreeIn(pager.file, pager.live, t)
  }

  /** Page numbers stay below 2^32. */
  lemma LiveSmall(pager: Pager, t: Tree)
    requires pager.Valid() && Ids(t) <= pager.live
    ensures SmallIds(t) && forall x :: x in Ids(t) ==> x >= 2
  {
    forall x | x in Ids(t) ensures 2 <= x < pager.meta.nextPageId {
      assert x in pager.live;
    }
  }

  lemma FreshNext(pager: Pager)
    requires pager.Valid()
    ensures NthFree(pager.freelist, pager.meta.nextPageId, 0) !in pager.live
  {
    UpcomingFresh(pager.freelist, pager.meta.nextPageId, pager.live, pager.chain, 1);
  }

  class BTree {
    const pager: Pager
    var root: nat
    ghost var tree: Tree

    ghost predicate Valid()
      reads this, pager
    {
      pager.Valid() && root == tree.id && TreeOk(pager, tree)
    }

    constructor Open(pager: Pager, root: nat, ghost t: Tree)
      requires pager.Valid() && root == t.id && TreeOk(pager, t)
      ensures Valid() && this.pager == pager && tree == t
    {
      this.pager, this.root, tree := pager, root, t;
    }

    /** A new tree is one empty leaf on a fresh page. */
    constructor New(pager: Pager)
      requires pager.Valid() && pager.meta.nextPageId + 1 < U32
      modifies pager`file, pager`cache, pager`lruOrder, pager`meta, pager`freelist, pager`live
      ensures Valid() && this.pager == pager && tree == Leaf(root, []) && root !in old(pager.live)
      ensures pager.live == old(pager.live) + {root} && SameExcept(old(pager.file), pager.file, {root})
      ensures Spent(old(pager.freelist), old(pager.meta), pager.freelist, pager.meta, 1)
    {
      hide Pager.Valid, DecodeLeaf, FileWrite, NthFree;
      var rootId := pager.AllocPage();
      var node := new LeafNode(rootId, []);
      var buf := node.ToPage();
      pager.WritePage(rootId, buf);
      this.pager, root, tree := pager, rootId, Leaf(rootId, []);
    }

    /** Walks down to the leaf for `key`. */
    method FindLeaf(key: Key) returns (r: Result<LeafNode>)
      requires Valid()
      modifies pager`cache, pager`lruOrder
      ensures Valid() && r.Ok? && fresh(r.value)
      ensures Leaf(r.value.pageId, r.value.entries) == LeafOf(tree, key)
    {
      hide Pager.Valid, DecodeLeaf, DecodeInternal;
      var pageId := root;
      ghost var t := tree;
      while true
        invariant pager.Valid() && Stored(pager.file, t) && Balanced(t) && pageId == t.id
        invariant Ids(t) <= pager.live && LeafOf(t, key) == LeafOf(tree, key)
        decreases t
      {
        hide WellFormed;
        LiveSmall(pager, t);
        assert t.id in Ids(t);
        var page := pager.ReadPage(pageId);
        HeaderOf(pager.file, t);
        if HeaderType(page.value) == LeafPage {
          r := LeafNode.FromPage(page.value);
          return;
        }
        var node := InternalNode.FromPage(page.value);
        var child, index := node.value.FindChild(key);
        FollowsChild(node.value.entries, node.value.rightChild, t, key, index);
        KidBelow(t, index);
        pageId, t := child, t.kids[index];
      }
      assert false;
    }

    /** Point lookup. */
    method Get(key: Key) returns (r: Result<Option<Value>>)
      requires Valid()
      modifies pager`cache, pager`lruOrder
      ensures Valid()
      ensures r == if |key| > MAX_KEY_SIZE then Err(KeyTooLarge(|key|)) else Ok(Lookup(Flatten(tree), key))
    {
      if |key| > MAX_KEY_SIZE {
        return Err(KeyTooLarge(|key|));
      }
      var leaf := FindLeaf(key);
      LookupCorrect(tree, key, None, None);
      var i := LowerBound(leaf.value.entries, key);
      if i < |leaf.value.entries| && leaf.value.entries[i].key == key {
        return Ok(Some(leaf.value.entries[i].value));
      }
      return Ok(None);
    }

    /** Serializes a leaf onto its own page. */
    method StoreLeaf(leaf: LeafNode)
      requires pager.Valid() && LeafFits(leaf.entries) && leaf.pageId in pager.live
      modifies pager`file, pager`cache, pager`lruOrder
      ensures pager.Valid() && SameExcept(old(pager.file), pager.file, {leaf.pageId})
      ensures Stored(pager.file, Leaf(leaf.pageId, leaf.entries))
    {
      hide Pager.Valid, DecodeLeaf, FileWrite;
      LiveSmall(pager, Leaf(leaf.pageId, []));
      var buf := leaf.ToPage();
      pager.WritePage(leaf.pageId, buf);
    }

    /** Serializes an internal node onto its own page. */
    method StoreInternal(node: InternalNode, ghost t: Tree)
      requires pager.Valid() && t.Node? && InternalFits(t.keys) && Ids(t) <= pager.live
      requires node.pageId == t.id && Mirrors(node.entries, node.rightChild, t)
      modifies pager`file, pager`cache, pager`lruOrder
      ensures pager.Valid() && SameExcept(old(pager.file), pager.file, {t.id}) && NodeAt(pager.file, t)
    {
      hide Pager.Valid, DecodeInternal, FileWrite;
      LiveSmall(pager, t);
      KidIdsSmall(t);
      MirrorsKeys(node.entries, node.rightChild, t);
      assert t.id in Ids(t);
      var buf := node.ToPage();
      pager.WritePage(node.pageId, buf);
    }

    /** Removes `key`; an absent key changes nothing. */
    method Delete(key: Key) returns (r: Result<bool>)
      requires Valid()
      modifies this`tree, pager`file, pager`cache, pager`lruOrder
      ensures Valid()
      ensures |key| > MAX_KEY_SIZE ==>
          r == Err(KeyTooLarge(|key|)) && tree == old(tree) && pager.file == old(pager.file)
      ensures |key| <= MAX_KEY_SIZE ==>
                r == Ok(Found(Flatten(old(tree)), key)) && tree == TreeModel.Delete(old(tree), key)
      ensures Placed(old(tree), tree, old(pager.file), pager.live, pager.file, pager.live)
    {
      hide Pager.Valid, Stored, Flatten, Ids, Removed, Found, Sorted, TreeModel.Delete, Balanced, PagesFit;
      assert Ids(tree) + (pager.live - pager.live) == Ids(tree);
      if |key| > MAX_KEY_SIZE {
        return Err(KeyTooLarge(|key|));
      }
      var leaf := FindLeaf(key);
      DeletionFacts(tree, key);
      var existed := leaf.value.Delete(key);
      if existed {
        StoreLeaf(leaf.value);
        StoredHere(pager.file, Leaf(leaf.value.pageId, leaf.value.entries));
        DeleteStored(tree, key, old(pager.file), pager.file);
      } else {
        DeleteNothing(tree, key);
      }
      tree := TreeModel.Delete(tree, key);
      return Ok(existed);
    }

    /** All entries with `start <= key <= end`, in key order. */
    method Range(start: Key, end: Key) returns (r: Result<seq<Entry>>)
      requires Valid()
      modifies pager`cache, pager`lruOrder
      ensures Valid() && r == Ok(Within(Flatten(tree), start, end))
    {
      hide Pager.Valid, Stored, Scan, Less, Within, Flatten;
      ScanCorrect(tree, start, end, None, None);
      assert [] + Scan(tree, start, end) == Scan(tree, start, end);
      r := CollectRange(root, start, end, [], tree);
    }

    /** Appends the entries of the subtree at `pageId` that are in range. */
    method CollectRange(pageId: nat, start: Key, end: Key, results: seq<Entry>, ghost t: Tree)
      returns (r: Result<seq<Entry>>)
      requires pager.Valid() && pageId == t.id && Balanced(t) && Stored(pager.file, t) && Ids(t) <= pager.live
      modifies pager`cache, pager`lruOrder
      ensures pager.Valid() && r == Ok(results + Scan(t, start, end))
      decreases t
    {
      hide Pager.Valid, DecodeLeaf, DecodeInternal;
      LiveSmall(pager, t);
      assert t.id in Ids(t);
      var page := pager.ReadPage(pageId);
      HeaderOf(pager.file, t);
      if HeaderType(page.value) == LeafPage {
        var leaf := LeafNode.FromPage(page.value);
        var out := Filter(leaf.value.entries, start, end, results);
        return Ok(out);
      }
      var node := InternalNode.FromPage(page.value);
      r := CollectKids(node.value, start, end, results, t);
    }

    /** The loop over the leaf's entries. */
    static method Filter(es: seq<Entry>, start: Key, end: Key, results: seq<Entry>) returns (out: seq<Entry>)
      ensures out == results + Within(es, start, end)
    {
      hide Less;
      out := results;
      for i := 0 to |es|
        invariant out + Within(es[i..], start, end) == results + Within(es, start, end)
      {
        assert es[i..][0] == es[i] && es[i..][1..] == es[i + 1..];
        if AtMost(start, es[i].key) && AtMost(es[i].key, end) {
          assert (out + [es[i]]) + Within(es[i + 1..], start, end) == out + ([es[i]] + Within(es[i + 1..], start, end));
          out := out + [es[i]];
        }
      }
    }

    /** The loop over the children, skipping those below `start` and stopping past `end`. */
    method CollectKids(node: InternalNode, start: Key, end: Key, results: seq<Entry>, ghost t: Tree)
      returns (r: Result<seq<Entry>>)
      requires pager.Valid() && t.Node? && Balanced(t) && Stored(pager.file, t) && Ids(t) <= pager.live
      requires Mirrors(node.entries, node.rightChild, t)
      modifies pager`cache, pager`lruOrder
      ensures pager.Valid() && r == Ok(results + Scan(t, start, end))
      decreases t, 0
    {
      hide Pager.Valid, DecodeLeaf, DecodeInternal, Less, Scan, ScanKids;
      var out := results;
      ScanStarts(t, start, end);
      for i := 0 to |node.entries|
        invariant pager.Valid() && Stored(pager.file, t) && Mirrors(node.entries, node.rightChild, t)
        invariant out + ScanKids(t, i, start, end) == results + ScanKids(t, 0, start, end)
      {
        KidBelow(t, i);
        var entry := node.entries[i];
        ScanKidsStep(t, i, start, end, out);
        if Less(start, entry.key) {
          var sub := CollectRange(entry.child, start, end, out, t.kids[i]);
          out := sub.value;
        }
        if Less(end, entry.key) {
          return Ok(out);
        }
      }
      KidBelow(t, |node.entries|);
      ScanKidsLast(t, start, end);
      r := CollectRange(node.rightChild, start, end, out, t.kids[|node.entries|]);
    }

    /** The pages from the root down to the leaf for `key`, with the child index taken at each. */
    method FindPath(key: Key) returns (path: seq<(nat, nat)>)
      requires Valid()
      modifies pager`cache, pager`lruOrder
      ensures Valid() && path == PathOf(Trail(tree, key), key)
    {
      hide Pager.Valid, DecodeLeaf, DecodeInternal, PathOf, Trail;
      assert forall p: seq<(nat, nat)> :: [] + p == p;
      path := [];
      var pageId := root;
      ghost var t := tree;
      while true
        invariant pager.Valid() && Stored(pager.file, t) && Balanced(t) && pageId == t.id
        invariant Ids(t) <= pager.live && path + PathOf(Trail(t, key), key) == PathOf(Trail(tree, key), key)
        decreases t
      {
        hide WellFormed;
        LiveSmall(pager, t);
        assert t.id in Ids(t);
        var page := pager.ReadPage(pageId);
        HeaderOf(pager.file, t);
        PathUnfolds(t, key);
        if HeaderType(page.value) == LeafPage {
          path := path + [(pageId, 0)];
          return;
        }
        var node := InternalNode.FromPage(page.value);
        var child, index := node.value.FindChild(key);
        FollowsChild(node.value.entries, node.value.rightChild, t, key, index);
        KidBelow(t, index);
        AppendOne(path, (pageId, index), PathOf(Trail(t.kids[index], key), key));
        path := path + [(pageId, index)];
        pageId, t := child, t.kids[index];
      }
      assert false;
    }

    /** A parent takes in the two halves of the kid at the place of `sep`; if it has no room for the separator
        it is split in turn, and hands up its middle key and the page of its right half. */
    method GrowParent(pageId: nat, sep: Key, left: nat, right: nat, ghost t: Tree, ghost i: nat, ghost l: Tree,
                      ghost r: Tree)
      returns (pushed: Option<(Key, nat)>, ghost newId: nat)
      requires pager.Valid() && pageId == t.id && t.Node? && NodeAt(pager.file, t) && t.id in pager.live
      requires InternalFits(t.keys) && i < |t.kids| == |t.keys| + 1 && KeyPosition(t.keys, sep) == i
      requires left == l.id && right == r.id && NodeTakes(t.keys, i, Some(sep))
      requires KidsStored(pager.file, Splice(t, i, l, sep, r).kids, pager.live, t.id)
      requires pager.meta.nextPageId + 1 < U32
      modifies pager`file, pager`cache, pager`lruOrder, pager`meta, pager`freelist, pager`live
      ensures pager.Valid()
      ensures newId == NthFree(old(pager.freelist), old(pager.meta.nextPageId), 0) && newId !in old(pager.live)
      ensures var g := Absorb(t, i, l, sep, r, newId);
              && GrownStored(pager.file, g)
              && pushed == (if g.One? then None else Some((g.sep, g.right.id)))
              && (g.Two? ==> g.left.id == t.id)
      ensures pushed.None? ==>
          pager.live == old(pager.live) && pager.freelist == old(pager.freelist) && pager.meta == old(pager.meta)
      ensures pushed.Some? ==>
          pager.live == old(pager.live) + {newId}
              && Taken(old(pager.freelist), old(pager.meta), pager.freelist, pager.meta, 1)
      ensures SameExcept(old(pager.file), pager.file, {t.id} + (pager.live - old(pager.live)))
    {
      hide Pager.Valid, DecodeInternal, Stored, Absorb, Splice, Cut, KidsStored, Mirrors, InternalFits, InternalCanFit,
          NodeTakes, Taken;
      newId := NthFree(pager.freelist, pager.meta.nextPageId, 0);
      FreshNext(pager);
      ghost var whole := Splice(t, i, l, sep, r);
      var node := LoadInternal(pageId, t);
      MirrorsKeys(node.entries, node.rightChild, t);
      InternalFitsData(t.keys);
      var fits := node.CanFit(|sep|);
      SpliceMirrors(node.entries, node.rightChild, t, i, l, sep, r);
      AbsorbShape(t, i, l, sep, r, newId);
      node.InsertKey(sep, left, right);
      if fits {
        KidsIds(pager.file, whole, pager.live, t.id);
        StoreInternal(node, whole);
        KidsKept(old(pager.file), pager.file, whole.kids, pager.live, t.id, {t.id});
        WholeStored(pager.file, whole, pager.live, t.id);
        assert GrownStored(pager.file, One(whole));
        pushed := None;
      } else {
        pushed := StoreHalves(node, whole, newId);
      }
    }

    method LoadInternal(pageId: nat, ghost t: Tree) returns (node: InternalNode)
      requires pager.Valid() && pageId == t.id && t.Node? && NodeAt(pager.file, t) && t.id in pager.live
      modifies pager`cache, pager`lruOrder
      ensures pager.Valid() && fresh(node) && node.pageId == t.id && Mirrors(node.entries, node.rightChild, t)
    {
      hide Pager.Valid, DecodeInternal;
      LiveSmall(pager, Leaf(t.id, []));
      var page := pager.ReadPage(pageId);
      var loaded := InternalNode.FromPage(page.value);
      node := loaded.value;
    }

    /** Splits an overfull node in memory and writes both halves, the right one on a fresh page. */
    method StoreHalves(node: InternalNode, ghost whole: Tree, ghost newId: nat) returns (pushed: Option<(Key, nat)>)
      requires pager.Valid() && whole.Node? && |whole.kids| == |whole.keys| + 1 && whole.keys != []
      requires node.pageId == whole.id && Mirrors(node.entries, node.rightChild, whole) && whole.id in pager.live
      requires InternalFits(Cut(whole, newId).left.keys) && InternalFits(Cut(whole, newId).right.keys)
      requires KidsStored(pager.file, whole.kids, pager.live, whole.id)
      requires newId == NthFree(pager.freelist, pager.meta.nextPageId, 0) && newId !in pager.live
      requires pager.meta.nextPageId + 1 < U32
      modifies node, pager`file, pager`cache, pager`lruOrder, pager`meta, pager`freelist, pager`live
      ensures pager.Valid() && GrownStored(pager.file, Cut(whole, newId))
      ensures pushed == Some((Cut(whole, newId).sep, newId))
      ensures pager.live == old(pager.live) + {newId}
          && Taken(old(pager.freelist), old(pager.meta), pager.freelist, pager.meta, 1)
      ensures SameExcept(old(pager.file), pager.file, {whole.id, newId})
    {
      hide Pager.Valid, Stored, Mirrors, InternalFits, KidsStored, NthFree;
      ghost var g := Cut(whole, newId);
      ghost var live := pager.live;
      CutMirrors(node.entries, node.rightChild, whole, newId);
      MirrorsKeys(node.entries, node.rightChild, whole);
      HalvesIds(pager.file, whole, newId, live);
      var rightId := pager.AllocPage();
      var right, sep := node.Split(rightId);
      StoreInternal(node, g.left);
      label Between:
      StoreInternal(right, g.right);
      HalvesStored(old(pager.file), old@Between(pager.file), pager.file, whole, newId, live);
      return Some((sep, rightId));
    }

    /** Sets `key` to `value`. A leaf without room for a new entry is split, and so is each node above it
        without room for the separator it gets; a split root gets a new root above it. */
    method Insert(key: Key, value: Value) returns (r: Result<()>)
      requires Valid()
      requires |key| <= MAX_KEY_SIZE && |value| <= MAX_VALUE_SIZE ==>
                 InsertFits(tree, key, value) && pager.meta.nextPageId + Height(tree) + 2 < U32
      modifies this, pager`file, pager`cache, pager`lruOrder, pager`meta, pager`freelist, pager`live
      ensures Valid()
      ensures r == if |key| > MAX_KEY_SIZE then Err(KeyTooLarge(|key|))
                   else if |value| > MAX_VALUE_SIZE then Err(ValueTooLarge(|value|)) else Ok(())
      ensures r.Err? ==> tree == old(tree) && pager.file == old(pager.file) && pager.live == old(pager.live)
                         && pager.meta == old(pager.meta) && pager.freelist == old(pager.freelist)
      ensures r.Ok? ==>
                Inserted(old(tree), key, value, tree,
                    Upcoming(old(pager.freelist), old(pager.meta.nextPageId), Height(old(tree)) + 2))
      ensures Placed(old(tree), tree, old(pager.file), old(pager.live), pager.file, pager.live)
      ensures Spent(old(pager.freelist), old(pager.meta), pager.freelist, pager.meta, Height(old(tree)) + 2)
    {
      hide Pager.Valid, Stored, WellFormed, Flatten, Ids, Balanced, PagesFit, InsertFits, Upserted, Lookup;
      PlacedSame(tree, pager.file, pager.live);
      if |key| > MAX_KEY_SIZE {
        return Err(KeyTooLarge(|key|));
      }
      if |value| > MAX_VALUE_SIZE {
        return Err(ValueTooLarge(|value|));
      }
      Shape(tree);
      hide NthFree, Placed, Start, TreeModel.Insert;
      ghost var t, ids := tree, Upcoming(pager.freelist, pager.meta.nextPageId, Height(tree) + 2);
      Outcome(pager, t, key, value);
      PutInLeaf(key, value, ids);
      tree := TreeModel.Insert(t, key, value, ids);
      StillOk(pager, t, tree, old(pager.file), old(pager.live));
      return Ok(());
    }

    /** Finds the leaf for `key` and puts the entry there, or splits it. */
    method PutInLeaf(key: Key, value: Value, ghost ids: seq<nat>)
      requires pager.Valid() && root == tree.id && Valid() && Start(tree, key, value, ids, pager.file, pager.live)
      requires Balanced(tree) && PagesFit(tree) && |ids| > Height(tree) + 1
      requires ids == Upcoming(pager.freelist, pager.meta.nextPageId, Height(tree) + 2)
      requires pager.meta.nextPageId + Height(tree) + 2 < U32
      modifies this`root, pager`file, pager`cache, pager`lruOrder, pager`meta, pager`freelist, pager`live
      ensures pager.Valid() && root == TreeModel.Insert(tree, key, value, ids).id
      ensures Placed(tree, TreeModel.Insert(tree, key, value, ids), old(pager.file), old(pager.live), pager.file,
          pager.live)
      ensures Spent(old(pager.freelist), old(pager.meta), pager.freelist, pager.meta, Height(tree) + 2)
    {
      hide Pager.Valid, DecodeLeaf, NthFree, Stored, Placed, LeafTakes, LeafCanFit, Upserted, Start, Climbed,
        PathOf, Trail, TreeModel.Insert, SameExcept, WellFormed, Sorted, Ids, Balanced, PagesFit, LeafData;
      ghost var lf := LeafFound(tree, key, value, ids, pager.file, pager.live);
      var path := FindPath(key);
      var leaf := LoadLeaf(path[|path| - 1].0, lf);
      var i := LowerBound(leaf.entries, key);
      if i < |leaf.entries| && leaf.entries[i].key == key {
        UpsertedInPlace(lf.entries, key, value);
        leaf.entries := leaf.entries[i := leaf.entries[i].(value := value)];
        RewriteLeaf(leaf, key, value, ids, lf);
      } else if leaf.CanFit(|key|, |value|) {
        UpsertedFits(lf.entries, key, value);
        leaf.Upsert(key, value);
        RewriteLeaf(leaf, key, value, ids, lf);
      } else {
        leaf.Upsert(key, value);
        SplitLeaf(path, leaf, key, value, ids, lf);
      }
    }

    /** Writes a changed leaf back to its page, which is all that the tree needs. */
    method RewriteLeaf(leaf: LeafNode, ghost k: Key, ghost v: Value, ghost ids: seq<nat>, ghost lf: Tree)
      requires pager.Valid() && root == tree.id && Start(tree, k, v, ids, pager.file, pager.live)
      requires Balanced(tree) && PagesFit(tree) && |ids| > Height(tree) + 1
      requires lf == Trail(tree, k)[Height(tree)] && lf.Leaf? && lf.id in pager.live && LeafFits(lf.entries)
      requires Found(lf.entries, k) || LeafCanFit(lf.entries, |k|, |v|)
      requires leaf.pageId == lf.id && leaf.entries == Upserted(lf.entries, k, v) && LeafFits(leaf.entries)
      modifies pager`file, pager`cache, pager`lruOrder
      ensures pager.Valid() && root == TreeModel.Insert(tree, k, v, ids).id
      ensures Placed(tree, TreeModel.Insert(tree, k, v, ids), old(pager.file), pager.live, pager.file, pager.live)
    {
      hide Pager.Valid, Stored, Placed, LeafFits, LeafCanFit, Upserted, Start, Trail, TreeModel.Insert, SameExcept,
          PagesFit, Found;
      StoreLeaf(leaf);
      LeafRewritten(tree, k, v, ids, lf, old(pager.file), pager.live, pager.file);
    }

    /** Splits the overfull leaf, writes both halves and passes their separator up. */
    method SplitLeaf(path: seq<(nat, nat)>, leaf: LeafNode, ghost k: Key, ghost v: Value, ghost ids: seq<nat>,
                     ghost lf: Tree)
      requires pager.Valid() && root == tree.id && Start(tree, k, v, ids, pager.file, pager.live)
      requires Balanced(tree) && PagesFit(tree) && |ids| > Height(tree) + 1
      requires path == PathOf(Trail(tree, k), k) && lf == Trail(tree, k)[Height(tree)] && lf.Leaf?
          && lf.id in pager.live
      requires LeafFits(lf.entries) && LeafTakes(lf.entries, k, v)
      requires !Found(lf.entries, k) && !LeafCanFit(lf.entries, |k|, |v|)
      requires leaf.pageId == lf.id && leaf.entries == Upserted(lf.entries, k, v)
      requires ids == Upcoming(pager.freelist, pager.meta.nextPageId, Height(tree) + 2)
      requires pager.meta.nextPageId + Height(tree) + 2 < U32
      modifies leaf, this`root, pager`file, pager`cache, pager`lruOrder, pager`meta, pager`freelist, pager`live
      ensures pager.Valid() && root == TreeModel.Insert(tree, k, v, ids).id
      ensures Placed(tree, TreeModel.Insert(tree, k, v, ids), old(pager.file), old(pager.live), pager.file, pager.live)
      ensures Spent(old(pager.freelist), old(pager.meta), pager.freelist, pager.meta, Height(tree) + 2)
    {
      hide Pager.Valid, DecodeLeaf, NthFree, Stored, Placed, LeafTakes, LeafFits, LeafCanFit, Upserted, Start, Climbed,
        PathOf, Trail, TreeModel.Insert, SameExcept, Ids, PagesFit, Found;
      UpsertedHalves(lf.entries, k, v);
      FreshNext(pager);
      var rightId := pager.AllocPage();
      var right, sep := leaf.Split(rightId);
      StoreLeaf(leaf);
      ghost var f1 := pager.file;
      StoreLeaf(right);
      ghost var g := LeafSplit(tree, k, v, ids, lf, rightId, old(pager.file), old(pager.live), f1, pager.file);
      InsertIntoParent(path, sep, leaf.pageId, right.pageId, k, v, ids, lf, g,
                       old(pager.file), old(pager.live), old(pager.freelist), old(pager.meta));
    }

    method LoadLeaf(pageId: nat, ghost t: Tree) returns (leaf: LeafNode)
      requires pager.Valid() && pageId == t.id && t.Leaf? && NodeAt(pager.file, t) && t.id in pager.live
      modifies pager`cache, pager`lruOrder
      ensures pager.Valid() && fresh(leaf) && leaf.pageId == t.id && leaf.entries == t.entries
    {
      hide Pager.Valid, DecodeLeaf;
      LiveSmall(pager, t);
      var page := pager.ReadPage(pageId);
      var loaded := LeafNode.FromPage(page.value);
      leaf := loaded.value;
    }

    /** Hands the separator of two split halves to the nodes above them, from the bottom up. */
    method InsertIntoParent(path: seq<(nat, nat)>, sep: Key, left: nat, right: nat,
                            ghost k: Key, ghost v: Value, ghost ids: seq<nat>, ghost leaf: Tree, ghost grown: Grown,
                            ghost f0: seq<Page>, ghost live0: set<nat>, ghost fl0: seq<u32>, ghost m0: Meta)
      requires pager.Valid() && root == tree.id && Start(tree, k, v, ids, f0, live0)
      requires Balanced(tree) && PagesFit(tree) && |ids| > Height(tree) + 1
      requires path == PathOf(Trail(tree, k), k) && leaf == Trail(tree, k)[Height(tree)] && Height(leaf) == 0
      requires Climbed(tree, k, v, ids, Height(tree), leaf, grown, f0, live0, pager.file, pager.live)
      requires grown.Two? && sep == grown.sep && left == grown.left.id && right == grown.right.id
      requires ids == Upcoming(fl0, m0.nextPageId, Height(tree) + 2) && Taken(fl0, m0, pager.freelist, pager.meta, 1)
      requires m0.nextPageId + Height(tree) + 2 < U32
      modifies this`root, pager`file, pager`cache, pager`lruOrder, pager`meta, pager`freelist, pager`live
      ensures pager.Valid() && root == TreeModel.Insert(tree, k, v, ids).id
      ensures Placed(tree, TreeModel.Insert(tree, k, v, ids), f0, live0, pager.file, pager.live)
      ensures Spent(fl0, m0, pager.freelist, pager.meta, Height(tree) + 2)
    {
      hide Pager.Valid, NthFree, Stored, Placed, Start, Climbed, Ins, Absorb, Splice, KidsStored, NodeAt,
        NodeTakes, KeyPosition, InternalFits, TreeModel.Insert, SameExcept, Ids, Trail;
      var sepKey, leftChild, rightChild := sep, left, right;
      ghost var s, g := leaf, grown;
      for i := |path| - 1 downto 0
        invariant pager.Valid() && root == tree.id && i <= Height(tree) && Height(s) + i == Height(tree) && g.Two?
        invariant Climbed(tree, k, v, ids, i, s, g, f0, live0, pager.file, pager.live)
        invariant sepKey == g.sep && leftChild == g.left.id && rightChild == g.right.id
        invariant Taken(fl0, m0, pager.freelist, pager.meta, Height(s) + 1)
      {
        ghost var p := ParentReady(tree, k, v, ids, i + 1, s, g, f0, live0, pager.file, pager.live);
        ghost var f, live, fl, m := pager.file, pager.live, pager.freelist, pager.meta;
        TakenNext(fl0, m0, fl, m, Height(s) + 1, Height(tree) + 2);
        ghost var at := ChildIndex(p.keys, k);
        var pushed, newId := GrowParent(path[i].0, sepKey, leftChild, rightChild, p, at, g.left, g.right);
        ghost var g' := Absorb(p, at, g.left, g.sep, g.right, newId);
        ClimbedUp(tree, k, v, ids, i + 1, s, g, p, g', f0, live0, f, live, pager.file, pager.live);
        if pushed.None? {
          ClimbedOne(tree, k, v, ids, i, p, g', f0, live0, pager.file, pager.live);
          return;
        }
        TakenMore(fl0, m0, fl, m, pager.freelist, pager.meta, Height(s) + 1);
        sepKey, leftChild, rightChild := pushed.value.0, path[i].0, pushed.value.1;
        s, g := p, g';
      }
      ClimbedTop(tree, k, v, ids, s, g, f0, live0, pager.file, pager.live);
      TakenNext(fl0, m0, pager.freelist, pager.meta, Height(tree) + 1, Height(tree) + 2);
      ghost var live := pager.live;
      ghost var f := pager.file;
      NewRoot(sepKey, leftChild, rightChild, k, v, ids, g, f0, live0);
      ClimbedRoot(tree, k, v, ids, g, root, f0, live0, f, live, pager.file);
    }

    /** Puts a new root over the two halves of the old one. */
    method NewRoot(sep: Key, left: nat, right: nat, ghost k: Key, ghost v: Value, ghost ids: seq<nat>, ghost g: Grown,
                   ghost f0: seq<Page>, ghost live0: set<nat>)
      requires pager.Valid() && Start(tree, k, v, ids, f0, live0)
      requires Climbed(tree, k, v, ids, 0, tree, g, f0, live0, pager.file, pager.live)
      requires g.Two? && sep == g.sep && left == g.left.id && right == g.right.id
      requires pager.meta.nextPageId + 1 < U32
      modifies this`root, pager`file, pager`cache, pager`lruOrder, pager`meta, pager`freelist, pager`live
      ensures pager.Valid() && root == NthFree(old(pager.freelist), old(pager.meta.nextPageId), 0)
          && root !in old(pager.live)
      ensures pager.live == old(pager.live) + {root} && SameExcept(old(pager.file), pager.file, {root})
      ensures NodeAt(pager.file, Node(root, [g.sep], [g.left, g.right]))
      ensures Taken(old(pager.freelist), old(pager.meta), pager.freelist, pager.meta, 1)
    {
      hide Pager.Valid, NthFree, Stored, SameExcept, Ids, Start, Climbed, InternalFits, Mirrors;
      FreshNext(pager);
      var rootId := pager.AllocPage();
      SeparatorFits(tree, k, v, ids, g, f0, live0, pager.file, old(pager.live), rootId);
      var newRoot := new InternalNode(rootId, [InternalEntry(sep, left)], right);
      StoreInternal(newRoot, Node(rootId, [g.sep], [g.left, g.right]));
      root := rootId;
    }
  }

  lemma InternalFitsData(keys: seq<Key>)
    requires InternalFits(keys)
    ensures KeyData(keys) <= PAGE_SIZE
  {
  }

  /** The two outcomes of taking in a separator. */
  lemma AbsorbShape(t: Tree, i: nat, l: Tree, sep: Key, r: Tree, newId: nat)
    requires t.Node? && i < |t.kids| == |t.keys| + 1 && InternalFits(t.keys) && NodeTakes(t.keys, i, Some(sep))
    ensures var whole := Splice(t, i, l, sep, r);
            && whole.id == t.id && |whole.kids| == |whole.keys| + 1 && whole.keys != []
            && if InternalCanFit(t.keys, |sep|)
                then Absorb(t, i, l, sep, r, newId) == One(whole) && InternalFits(whole.keys)
               else && Absorb(t, i, l, sep, r, newId) == Cut(whole, newId)
                    && Cut(whole, newId).Two? && Cut(whole, newId).right.id == newId
                        && Cut(whole, newId).left.id == t.id
                    && InternalFits(Cut(whole, newId).left.keys) && InternalFits(Cut(whole, newId).right.keys)
  {
    InternalCanFitExact(t.keys, i, sep);
  }

  lemma KidsIds(file: seq<Page>, t: Tree, live: set<nat>, apart: nat)
    requires t.Node? && t.id in live && KidsStored(file, t.kids, live, apart)
    ensures Ids(t) <= live
  {
  }

  lemma WholeStored(file: seq<Page>, t: Tree, live: set<nat>, apart: nat)
    requires t.Node? && NodeAt(file, t) && KidsStored(file, t.kids, live, apart)
    ensures Stored(file, t)
  {
  }

  lemma HalvesIds(file: seq<Page>, whole: Tree, newId: nat, live: set<nat>)
    requires whole.Node? && |whole.kids| == |whole.keys| + 1 && whole.keys != [] && whole.id in live
    requires KidsStored(file, whole.kids, live, whole.id)
    ensures Ids(Cut(whole, newId).left) <= live && Ids(Cut(whole, newId).right) <= live + {newId}
  {
  }

  /** After both halves are on their pages. */
  lemma HalvesStored(f0: seq<Page>, f1: seq<Page>, f2: seq<Page>, whole: Tree, newId: nat, live: set<nat>)
    requires whole.Node? && |whole.kids| == |whole.keys| + 1 && whole.keys != [] && whole.id in live && newId !in live
    requires KidsStored(f0, whole.kids, live, whole.id)
    requires SameExcept(f0, f1, {whole.id}) && SameExcept(f1, f2, {newId})
    requires NodeAt(f1, Cut(whole, newId).left) && NodeAt(f2, Cut(whole, newId).right)
    ensures GrownStored(f2, Cut(whole, newId)) && SameExcept(f0, f2, {whole.id, newId})
  {
    hide NodeAt, KidsStored;
    var g := Cut(whole, newId);
    KidsKept(f0, f1, whole.kids, live, whole.id, {whole.id});
    KidsKept(f1, f2, whole.kids, live, whole.id, {newId});
    NodeAtKept(f1, f2, g.left, {newId});
    KidsOfHalves(f2, whole, newId, live);
  }

  lemma KidsOfHalves(file: seq<Page>, whole: Tree, newId: nat, live: set<nat>)
    requires whole.Node? && |whole.kids| == |whole.keys| + 1 && whole.keys != []
    requires KidsStored(file, whole.kids, live, whole.id)
    requires NodeAt(file, Cut(whole, newId).left) && NodeAt(file, Cut(whole, newId).right)
    ensures GrownStored(file, Cut(whole, newId))
  {
  }

  lemma ScanStarts(t: Tree, start: Key, end: Key)
    requires Balanced(t) && t.Node?
    ensures Scan(t, start, end) == ScanKids(t, 0, start, end)
  {
  }

  lemma ScanKidsStep(t: Tree, i: nat, start: Key, end: Key, out: seq<Entry>)
    requires Balanced(t) && t.Node? && i < |t.keys|
    ensures out + ScanKids(t, i, start, end)
         == (if Less(start, t.keys[i]) then out + Scan(t.kids[i], start, end) else out)
            + (if Less(end, t.keys[i]) then [] else ScanKids(t, i + 1, start, end))
    ensures forall s: seq<Entry> :: s + [] == s
  {
  }

  lemma ScanKidsLast(t: Tree, start: Key, end: Key)
    requires Balanced(t) && t.Node?
    ensures ScanKids(t, |t.keys|, start, end) == Scan(t.kids[|t.keys|], start, end)
  {
  }

  lemma PathUnfolds(t: Tree, k: Key)
    requires Balanced(t)
    ensures t.Leaf? ==> PathOf(Trail(t, k), k) == [(t.id, 0)]
    ensures t.Node? ==>
              PathOf(Trail(t, k), k) == [(t.id, ChildIndex(t.keys, k))]
                  + PathOf(Trail(t.kids[ChildIndex(t.keys, k)], k), k)
  {
  }

  /** What deletion needs to know beforehand about the one leaf it rewrites. */
  lemma DeletionFacts(t: Tree, k: Key)
    requires WellFormed(t)
    ensures WellFormed(Delete(t, k)) && Ids(Delete(t, k)) == Ids(t) && Delete(t, k).id == t.id
    ensures Sorted(LeafFor(t, k)) && LeafFits(Removed(LeafFor(t, k), k)) && LeafOf(t, k).id in Ids(t)
    ensures Found(LeafFor(t, k), k) == Found(Flatten(t), k)
  {
    DeleteCorrect(t, k);
    DeletePages(t, k);
    LookupCorrect(t, k, None, None);
    LeafFacts(t, k, None, None);
    LeafDataRemoved(LeafFor(t, k), k);
  }

  lemma {:induction false} LeafFacts(t: Tree, k: Key, lo: Option<Key>, hi: Option<Key>)
    requires Balanced(t) && PagesFit(t) && Ordered(t, lo, hi)
    ensures Sorted(LeafFor(t, k)) && LeafFits(LeafFor(t, k)) && LeafOf(t, k).id in Ids(t)
    decreases t
  {
    if t.Node? {
      var i := ChildIndex(t.keys, k);
      LeafFacts(t.kids[i], k, LoOf(t.keys, lo, i), HiOf(t.keys, hi, i));
    }
  }

  lemma KidBelow(t: Tree, i: nat)
    requires t.Node? && i < |t.kids|
    ensures Ids(t.kids[i]) <= Ids(t)
  {
  }

  /** The header byte tells leaf pages from internal ones. */
  lemma HeaderOf(file: seq<Page>, t: Tree)
    requires NodeAt(file, t)
    ensures HeaderType(file[t.id]) == if t.Leaf? then LeafPage else InternalPage
  {
  }

  lemma Outcome(pager: Pager, t: Tree, k: Key, v: Value)
    requires pager.Valid() && TreeOk(pager, t) && |k| <= MAX_KEY_SIZE && |v| <= MAX_VALUE_SIZE
    requires Balanced(t) && PagesFit(t) && InsertFits(t, k, v)
    ensures var ids := Upcoming(pager.freelist, pager.meta.nextPageId, Height(t) + 2);
            && Start(t, k, v, ids, pager.file, pager.live) && |ids| > Height(t) + 1
            && WellFormed(TreeModel.Insert(t, k, v, ids))
            && Flatten(TreeModel.Insert(t, k, v, ids)) == Upserted(Flatten(t), k, v)
            && Height(t) <= Height(TreeModel.Insert(t, k, v, ids)) <= Height(t) + 1
            && ids[0] == NthFree(pager.freelist, pager.meta.nextPageId, 0)
  {
    hide InsertFits, Flatten, Upserted, Ids, Stored, NthFree, WellFormed, Accounted, Coherent, PickActive, Start,
        TreeModel.Insert;
    Starts(t, k, v, Upcoming(pager.freelist, pager.meta.nextPageId, Height(t) + 2), pager.file, pager.live);
    InsertOutcome(t, k, v, pager.freelist, pager.meta.nextPageId, pager.live, pager.chain);
  }

  lemma Starts(t: Tree, k: Key, v: Value, ids: seq<nat>, f: seq<Page>, live: set<nat>)
    requires WellFormed(t) && InsertFits(t, k, v) && Stored(f, t) && Ids(t) <= live && |ids| > Height(t) + 1
    requires |k| <= MAX_KEY_SIZE && |v| <= MAX_VALUE_SIZE
    ensures Start(t, k, v, ids, f, live)
  {
  }

  lemma PlacedSame(t: Tree, file: seq<Page>, live: set<nat>)
    requires TreeIn(file, live, t)
    ensures Placed(t, t, file, live, file, live)
  {
  }

  lemma StoredHere(file: seq<Page>, t: Tree)
    requires Stored(file, t)
    ensures NodeAt(file, t)
  {
  }

  lemma Shape(t: Tree)
    requires WellFormed(t)
    ensures Balanced(t) && PagesFit(t)
  {
  }

  lemma StillOk(pager: Pager, t: Tree, t': Tree, f0: seq<Page>, live0: set<nat>)
    requires Placed(t, t', f0, live0, pager.file, pager.live) && WellFormed(t') && Ids(t) <= live0
    ensures TreeOk(pager, t')
  {
  }

  lemma UpsertedInPlace(es: seq<Entry>, k: Key, v: Value)
    requires LeafFits(es) && LeafTakes(es, k, v) && Found(es, k)
    ensures var i := LowerBound(es, k);
            Upserted(es, k, v) == es[i := es[i].(value := v)] && LeafFits(Upserted(es, k, v))
  {
  }

  lemma UpsertedFits(es: seq<Entry>, k: Key, v: Value)
    requires LeafFits(es) && !Found(es, k) && LeafCanFit(es, |k|, |v|)
    ensures LeafFits(Upserted(es, k, v))
  {
    LeafCanFitExact(es, LowerBound(es, k), Entry(k, v));
  }

  lemma UpsertedHalves(es: seq<Entry>, k: Key, v: Value)
    requires LeafFits(es) && LeafTakes(es, k, v) && !Found(es, k) && !LeafCanFit(es, |k|, |v|)
    ensures var all := Upserted(es, k, v);
            all != [] && LeafFits(all[..|all| / 2]) && LeafFits(all[|all| / 2..])
  {
  }

  /** The two halves and their separator make a node that fits. */
  lemma SeparatorFits(t: Tree, k: Key, v: Value, ids: seq<nat>, g: Grown, f0: seq<Page>, live0: set<nat>, f: seq<Page>,
                      live: set<nat>, rootId: nat)
    requires Start(t, k, v, ids, f0, live0) && Climbed(t, k, v, ids, 0, t, g, f0, live0, f, live) && g.Two?
    ensures InternalFits([g.sep])
    ensures Mirrors([InternalEntry(g.sep, g.left.id)], g.right.id, Node(rootId, [g.sep], [g.left, g.right]))
    ensures Ids(Node(rootId, [g.sep], [g.left, g.right])) <= live + {rootId}
  {
    hide Stored, SameExcept, InsertFits, Separate, Ordered, Ins;
    InsLegal(t, k, v, ids);
    OneKeyFits(g.sep);
    PairIds(rootId, [g.sep], g.left, g.right);
  }

  lemma OneKeyFits(sep: Key)
    requires |sep| <= MAX_KEY_SIZE
    ensures InternalFits([sep])
  {
    assert KeyData([sep]) == |sep| + KeyData([sep][1..]);
  }

  lemma PairIds(id: nat, keys: seq<Key>, l: Tree, r: Tree)
    ensures Ids(Node(id, keys, [l, r])) <= {id} + Ids(l) + Ids(r)
  {
  }
}
