/** Trees as they lie in the page file, and how the nodes on one path relate to the whole. */
module TreeStore {
  import opened Bytes
  import opened Entries
  import opened Layout
  import opened Seqs
  import opened TreeModel
  import opened TreeInsert
  import opened TreeLaws
  import opened Pages
  import opened NodePages
  import opened Pagers
  import opened Results

  /** The separators of a node with the page left of each. */
  function EntriesOf(keys: seq<Key>, kids: seq<Tree>): seq<InternalEntry>
    requires |kids| == |keys| + 1
  {
    seq(|keys|, i requires 0 <= i < |keys| => InternalEntry(keys[i], kids[i].id))
  }

  /** The node's own page holds it. */
  ghost predicate NodeAt(file: seq<Page>, t: Tree)
  {
    && t.id < |file|
    && match t
       case Leaf(id, es) => DecodeLeaf(file[id]) == Ok(LeafImage(id, es))
       case Node(id, keys, kids) =>
         && DecodeInternal(file[id]).Ok? && DecodeInternal(file[id]).value.id == id
         && Mirrors(DecodeInternal(file[id]).value.entries, DecodeInternal(file[id]).value.rightChild, t)
  }

  /** Every node of the tree is on its page. */
  ghost predicate Stored(file: seq<Page>, t: Tree)
  {
    NodeAt(file, t) && (t.Node? ==> forall i :: 0 <= i < |t.kids| ==> Stored(file, t.kids[i]))
  }

  /** A well-formed tree that lies whole in pages of `live`. */
  ghost predicate TreeIn(file: seq<Page>, live: set<nat>, t: Tree)
  {
    WellFormed(t) && Stored(file, t) && Ids(t) <= live
  }

  lemma {:induction false} StoredKept(f: seq<Page>, g: seq<Page>, t: Tree, changed: set<nat>)
    requires Stored(f, t) && SameExcept(f, g, changed) && changed !! Ids(t)
    ensures Stored(g, t)
    decreases t
  {
    hide DecodeLeaf, DecodeInternal, EntriesOf;
    assert t.id in Ids(t);
    if t.Node? {
      forall i | 0 <= i < |t.kids| ensures Stored(g, t.kids[i]) {
        assert Ids(t.kids[i]) <= Ids(t);
        StoredKept(f, g, t.kids[i], changed);
      }
    }
  }

  lemma ChildIndexUnique(keys: seq<Key>, k: Key, i: nat)
    requires i <= |keys|
    requires forall j :: 0 <= j < i ==> !Less(k, keys[j])
    requires i < |keys| ==> Less(k, keys[i])
    ensures ChildIndex(keys, k) == i
  {
  }

  /** The binary search for a separator lands on the child index the descent took, so the pointer that
      `insert_key` overwrites is the one of the kid that was split. */
  lemma SeparatorPosition(keys: seq<Key>, i: nat, sep: Key, lo: Option<Key>, hi: Option<Key>)
    requires KeysSorted(keys) && i <= |keys| && Over(LoOf(keys, lo, i), sep) && Under(sep, HiOf(keys, hi, i))
    ensures KeyPosition(keys, sep) == i && sep !in keys
  {
    Order();
    forall j | 0 <= j < i ensures Less(keys[j], sep) {
      assert j < i - 1 ==> Less(keys[j], keys[i - 1]);
    }
    forall j | i <= j < |keys| ensures Less(sep, keys[j]) {
      assert i < j ==> Less(keys[i], keys[j]);
    }
    KeyPositionUnique(keys, sep, i);
  }

  lemma KeyPositionUnique(keys: seq<Key>, k: Key, i: nat)
    requires i <= |keys| && (forall j :: 0 <= j < i ==> Less(keys[j], k)) && (i < |keys| ==> !Less(keys[i], k))
    ensures KeyPosition(keys, k) == i
  {
  }

  // ----- the path from the root to the leaf of a key -----

  function Trail(t: Tree, k: Key): (ts: seq<Tree>)
    requires Balanced(t)
    ensures |ts| == Height(t) + 1 && ts[0] == t
    decreases t
  {
    if t.Leaf? then [t] else [t] + Trail(t.kids[ChildIndex(t.keys, k)], k)
  }

  /** What insertion needs of a subtree and its bounds. */
  ghost predicate Ready(t: Tree, k: Key, v: Value, lo: Option<Key>, hi: Option<Key>)
  {
    && Balanced(t) && PagesFit(t) && Legal(t) && Separate(t) && Ordered(t, lo, hi) && Inside(k, lo, hi)
    && |k| <= MAX_KEY_SIZE && |v| <= MAX_VALUE_SIZE && InsertFits(t, k, v)
  }

  lemma ReadyKid(t: Tree, k: Key, v: Value, lo: Option<Key>, hi: Option<Key>)
    requires Ready(t, k, v, lo, hi) && t.Node?
    ensures var i := ChildIndex(t.keys, k);
            && i < |t.kids| && Balanced(t.kids[i])
            && Ready(t.kids[i], k, v, LoOf(t.keys, lo, i), HiOf(t.keys, hi, i))
            && Height(t.kids[i]) == Height(t) - 1 && Ids(t.kids[i]) <= Ids(t) - {t.id}
  {
    ChildInside(t.keys, lo, hi, k);
    KidIds(t, ChildIndex(t.keys, k));
  }

  /** Each node of the trail is ready itself. */
  lemma {:induction false} TrailReady(t: Tree, k: Key, v: Value, lo: Option<Key>, hi: Option<Key>, n: nat)
    returns (lo': Option<Key>, hi': Option<Key>)
    requires Ready(t, k, v, lo, hi) && Balanced(t) && n <= Height(t)
    ensures Ready(Trail(t, k)[n], k, v, lo', hi')
    decreases t
  {
    hide Ready, Ids;
    if n == 0 {
      lo', hi' := lo, hi;
    } else {
      var i := ChildIndex(t.keys, k);
      ReadyKid(t, k, v, lo, hi);
      lo', hi' := TrailReady(t.kids[i], k, v, LoOf(t.keys, lo, i), HiOf(t.keys, hi, i), n - 1);
    }
  }

  lemma KidStored(f: seq<Page>, t: Tree, i: nat)
    requires Balanced(t) && Stored(f, t) && t.Node? && i < |t.kids|
    ensures Stored(f, t.kids[i]) && Balanced(t.kids[i]) && Height(t.kids[i]) == Height(t) - 1
        && Ids(t.kids[i]) <= Ids(t)
  {
    hide NodeAt;
  }

  lemma KidFits(t: Tree, i: nat)
    requires PagesFit(t) && t.Node? && i < |t.kids|
    ensures PagesFit(t.kids[i])
  {
  }

  /** Each node of the trail is stored, one level lower than the one before, and that one's kid. */
  lemma {:induction false} TrailStored(t: Tree, k: Key, file: seq<Page>, n: nat)
    requires Balanced(t) && Stored(file, t) && n <= Height(t)
    ensures var s := Trail(t, k)[n]; Balanced(s) && Stored(file, s) && Height(s) == Height(t) - n && Ids(s) <= Ids(t)
    ensures n < Height(t) ==>
              Trail(t, k)[n].Node? && Trail(t, k)[n + 1] == Trail(t, k)[n].kids[ChildIndex(Trail(t, k)[n].keys, k)]
    ensures n == Height(t) ==> Trail(t, k)[n] == LeafOf(t, k)
    decreases t
  {
    hide Stored, Ids;
    if n > 0 {
      var i := ChildIndex(t.keys, k);
      KidStored(file, t, i);
      TrailStored(t.kids[i], k, file, n - 1);
    }
  }

  lemma ReadyBalanced(t: Tree, k: Key, v: Value, lo: Option<Key>, hi: Option<Key>)
    requires Ready(t, k, v, lo, hi)
    ensures Balanced(t) && PagesFit(t) && Separate(t)
  {
  }

  // ----- a grown subtree in the file -----

  ghost predicate GrownStored(file: seq<Page>, g: Grown)
  {
    match g
    case One(t) => Stored(file, t)
    case Two(l, _, r) => Stored(file, l) && Stored(file, r)
  }

  lemma {:induction false} OneKeepsId(t: Tree, k: Key, v: Value, ids: seq<nat>)
    requires Balanced(t) && PagesFit(t) && |ids| > Height(t)
    ensures var g := Ins(t, k, v, ids); t.id == if g.One? then g.tree.id else g.left.id
  {
    hide LeafFits, InternalFits, LeafCanFit, InternalCanFit, Upserted;
  }

  lemma NodeWithKid(f: seq<Page>, g: seq<Page>, t: Tree, i: nat, kid: Tree)
    requires t.Node? && NodeAt(f, t) && i < |t.kids| && kid.id == t.kids[i].id && t.id < |g| && g[t.id] == f[t.id]
    ensures NodeAt(g, Node(t.id, t.keys, t.kids[i := kid]))
  {
    hide DecodeInternal;
    assert EntriesOf(t.keys, t.kids[i := kid]) == EntriesOf(t.keys, t.kids);
  }

  lemma OtherKidKept(f: seq<Page>, g: seq<Page>, t: Tree, i: nat, j: nat, changed: set<nat>)
    requires t.Node? && Stored(f, t) && Separate(t) && i < |t.kids| && j < |t.kids| && i != j
    requires SameExcept(f, g, changed) && changed * Ids(t) <= Ids(t.kids[i])
    ensures Stored(g, t.kids[j])
  {
    hide NodeAt;
    KidsDisjoint(t, i, j);
    KidIds(t, j);
    StoredKept(f, g, t.kids[j], changed);
  }

  /** A node one of whose kids was rewritten in place needs no new page: its pointers stay right. */
  lemma KidRewritten(f: seq<Page>, g: seq<Page>, t: Tree, i: nat, kid: Tree, changed: set<nat>)
    requires t.Node? && Stored(f, t) && Separate(t) && i < |t.kids| && kid.id == t.kids[i].id
    requires SameExcept(f, g, changed) && changed * Ids(t) <= Ids(t.kids[i]) && Stored(g, kid)
    ensures Stored(g, Node(t.id, t.keys, t.kids[i := kid]))
  {
    var kids := t.kids[i := kid];
    NodeWithKid(f, g, t, i, kid) by {
      assert t.id in Ids(t);
      KidIds(t, i);
    }
    hide NodeAt, Separate, Ids, SameExcept;
    forall j | 0 <= j < |kids| ensures Stored(g, kids[j]) {
      if j != i {
        OtherKidKept(f, g, t, i, j, changed);
      }
    }
  }

  /** The subtree grew without splitting and lies in the file. */
  ghost predicate InPlace(t: Tree, k: Key, v: Value, ids: seq<nat>, file: seq<Page>)
  {
    Balanced(t) && PagesFit(t) && |ids| > Height(t) && Ins(t, k, v, ids).One? && Stored(file, Ins(t, k, v, ids).tree)
  }

  ghost function GrownInPlace(t: Tree, k: Key, v: Value, ids: seq<nat>, file: seq<Page>): Tree
    requires InPlace(t, k, v, ids, file)
  {
    Ins(t, k, v, ids).tree
  }

  lemma LiftStep(t: Tree, k: Key, v: Value, ids: seq<nat>, f: seq<Page>, g: seq<Page>, changed: set<nat>)
    requires t.Node? && Balanced(t) && PagesFit(t) && Separate(t) && |ids| > Height(t) && Stored(f, t)
    requires var s := t.kids[ChildIndex(t.keys, k)]; InPlace(s, k, v, ids, g) && changed * Ids(t) <= Ids(s)
    requires SameExcept(f, g, changed)
    ensures InPlace(t, k, v, ids, g)
    ensures Ids(GrownInPlace(t, k, v, ids, g)) <= Ids(t)
        + Ids(GrownInPlace(t.kids[ChildIndex(t.keys, k)], k, v, ids, g))
  {
    hide Stored, Ids, Separate;
    var i := ChildIndex(t.keys, k);
    OneKeepsId(t.kids[i], k, v, ids);
    var kid := Ins(t.kids[i], k, v, ids).tree;
    KidRewritten(f, g, t, i, kid, changed);
    ReplacedIds(t, i, kid);
  }

  /** Once a node of the trail has grown without splitting, every node above it is in place. */
  lemma {:induction false} LiftOne(t: Tree, k: Key, v: Value, ids: seq<nat>, n: nat, f: seq<Page>, g: seq<Page>,
                                   changed: set<nat>)
    requires Balanced(t) && PagesFit(t) && Separate(t) && |ids| > Height(t) && n <= Height(t) && Stored(f, t)
    requires InPlace(Trail(t, k)[n], k, v, ids, g) && SameExcept(f, g, changed)
        && changed * Ids(t) <= Ids(Trail(t, k)[n])
    ensures InPlace(t, k, v, ids, g)
    ensures Ids(GrownInPlace(t, k, v, ids, g)) <= Ids(t) + Ids(GrownInPlace(Trail(t, k)[n], k, v, ids, g))
    ensures Ids(Trail(t, k)[n]) <= Ids(t)
    decreases t
  {
    hide InPlace, GrownInPlace, Stored, SameExcept, Ids, Separate, PagesFit;
    if n > 0 {
      var i := ChildIndex(t.keys, k);
      KidIds(t, i);
      KidStored(f, t, i);
      KidFits(t, i);
      LiftOne(t.kids[i], k, v, ids, n - 1, f, g, changed);
      assert changed * Ids(t) <= Ids(t.kids[i]);
      LiftStep(t, k, v, ids, f, g, changed);
    }
  }

  lemma ReplacedIds(t: Tree, i: nat, kid: Tree)
    requires t.Node? && i < |t.kids|
    ensures Ids(Node(t.id, t.keys, t.kids[i := kid])) <= Ids(t) + Ids(kid)
  {
  }

  // ----- nodes in memory against nodes of the tree -----

  /** The separators and pointers in memory are those of tree node `t`. */
  ghost predicate Mirrors(entries: seq<InternalEntry>, rightChild: nat, t: Tree)
  {
    t.Node? && |t.kids| == |t.keys| + 1 && entries == EntriesOf(t.keys, t.kids) && rightChild == t.kids[|t.keys|].id
  }

  lemma FollowsChild(entries: seq<InternalEntry>, rightChild: nat, t: Tree, k: Key, index: nat)
    requires Mirrors(entries, rightChild, t) && index <= |entries|
    requires forall j :: 0 <= j < index ==> !Less(k, entries[j].key)
    requires index < |entries| ==> Less(k, entries[index].key)
    ensures index == ChildIndex(t.keys, k) && t.kids[index].id == if index < |entries| then entries[index].child
        else rightChild
  {
    assert forall j :: 0 <= j < |entries| ==> entries[j] == InternalEntry(t.keys[j], t.kids[j].id);
    ChildIndexUnique(t.keys, k, index);
  }

  lemma MirrorsKeys(entries: seq<InternalEntry>, rightChild: nat, t: Tree)
    requires Mirrors(entries, rightChild, t)
    ensures KeysOf(entries) == t.keys
  {
  }

  lemma MirrorsAt(entries: seq<InternalEntry>, rightChild: nat, t: Tree, j: nat)
    requires Mirrors(entries, rightChild, t) && j < |entries|
    ensures |t.kids| == |t.keys| + 1 && |entries| == |t.keys| && rightChild == t.kids[|t.keys|].id
    ensures entries[j] == InternalEntry(t.keys[j], t.kids[j].id)
  {
  }

  lemma MirrorsFrom(entries: seq<InternalEntry>, rightChild: nat, t: Tree)
    requires t.Node? && |t.kids| == |t.keys| + 1 && |entries| == |t.keys| && rightChild == t.kids[|t.keys|].id
    requires forall j :: 0 <= j < |entries| ==> entries[j] == InternalEntry(t.keys[j], t.kids[j].id)
    ensures Mirrors(entries, rightChild, t)
  {
  }

  lemma SpliceMirrorsLast(entries: seq<InternalEntry>, rightChild: nat, t: Tree, l: Tree, sep: Key, r: Tree)
    requires Mirrors(entries, rightChild, t)
    ensures Mirrors(entries + [InternalEntry(sep, l.id)], r.id, Splice(t, |entries|, l, sep, r))
  {
    var s := Splice(t, |entries|, l, sep, r);
    assert s.keys == t.keys + [sep] && s.kids == t.kids[..|entries|] + [l, r];
    assert forall j :: 0 <= j < |entries| ==> entries[j] == InternalEntry(t.keys[j], t.kids[j].id);
    MirrorsFrom(entries + [InternalEntry(sep, l.id)], r.id, s);
  }

  lemma SpliceMirrorsInner(entries: seq<InternalEntry>, rightChild: nat, t: Tree, i: nat, l: Tree, sep: Key, r: Tree)
    requires Mirrors(entries, rightChild, t) && i < |entries|
    ensures var es := entries[..i] + [InternalEntry(sep, l.id)] + entries[i..];
            Mirrors(es[i + 1 := es[i + 1].(child := r.id)], rightChild, Splice(t, i, l, sep, r))
  {
    var es := entries[..i] + [InternalEntry(sep, l.id)] + entries[i..];
    var s := Splice(t, i, l, sep, r);
    InsertAtIndex(entries, i, InternalEntry(sep, l.id));
    InsertAtIndex(t.keys, i, sep);
    ReplaceIndex(t.kids, i, l, r);
    var es' := es[i + 1 := es[i + 1].(child := r.id)];
    forall j | 0 <= j < |es'| ensures es'[j] == InternalEntry(s.keys[j], s.kids[j].id) {
      if j > i {
        assert entries[j - 1] == InternalEntry(t.keys[j - 1], t.kids[j - 1].id);
      } else if j < i {
        assert entries[j] == InternalEntry(t.keys[j], t.kids[j].id);
      }
    }
    assert s.kids[|s.keys|].id == rightChild;
    hide Mirrors;
    MirrorsFrom(es', rightChild, s);
  }

  /** `insert_key` does to the page's pointers what splicing does to the tree. */
  lemma SpliceMirrors(entries: seq<InternalEntry>, rightChild: nat, t: Tree, i: nat, l: Tree, sep: Key, r: Tree)
    requires Mirrors(entries, rightChild, t) && i < |t.kids|
    ensures var es := entries[..i] + [InternalEntry(sep, l.id)] + entries[i..];
            if i < |entries|
            then Mirrors(es[i + 1 := es[i + 1].(child := r.id)], rightChild, Splice(t, i, l, sep, r))
            else Mirrors(es, r.id, Splice(t, i, l, sep, r))
  {
    if i < |entries| {
      SpliceMirrorsInner(entries, rightChild, t, i, l, sep, r);
    } else {
      SpliceMirrorsLast(entries, rightChild, t, l, sep, r);
      assert entries[..i] + [InternalEntry(sep, l.id)] + entries[i..] == entries + [InternalEntry(sep, l.id)];
    }
  }

  /** Splitting the node in memory cuts the tree node. */
  lemma CutMirrors(entries: seq<InternalEntry>, rightChild: nat, t: Tree, newId: nat)
    requires Mirrors(entries, rightChild, t) && t.keys != []
    ensures var mid := |entries| / 2;
            var g := Cut(t, newId);
            && Mirrors(entries[..mid], entries[mid].child, g.left) && entries[mid].key == g.sep
            && Mirrors(entries[mid + 1..], rightChild, g.right)
  {
    var mid, g := |entries| / 2, Cut(t, newId);
    MirrorsAt(entries, rightChild, t, mid);
    forall j | 0 <= j < mid ensures entries[j] == InternalEntry(g.left.keys[j], g.left.kids[j].id) {
      MirrorsAt(entries, rightChild, t, j);
    }
    MirrorsFrom(entries[..mid], entries[mid].child, g.left);
    var right := entries[mid + 1..];
    forall j | 0 <= j < |right| ensures right[j] == InternalEntry(g.right.keys[j], g.right.kids[j].id) {
      MirrorsAt(entries, rightChild, t, mid + 1 + j);
    }
    MirrorsFrom(right, rightChild, g.right);
  }

  ghost predicate SmallIds(t: Tree)
  {
    forall x :: x in Ids(t) ==> x < U32
  }

  lemma KidIdsSmall(t: Tree)
    requires t.Node? && SmallIds(t)
    ensures t.id < U32 && forall i :: 0 <= i < |t.kids| ==> t.kids[i].id < U32
  {
    assert t.id in Ids(t);
    forall i | 0 <= i < |t.kids| ensures t.kids[i].id < U32 {
      assert t.kids[i].id in Ids(t.kids[i]);
      assert Ids(t.kids[i]) <= Ids(t);
    }
  }

  // ----- in-place deletion -----

  lemma {:induction false} DeleteStored(t: Tree, k: Key, f: seq<Page>, g: seq<Page>)
    requires Balanced(t) && Separate(t) && Stored(f, t) && SameExcept(f, g, {LeafOf(t, k).id})
    requires NodeAt(g, Leaf(LeafOf(t, k).id, Removed(LeafFor(t, k), k)))
    ensures Stored(g, Delete(t, k)) && LeafOf(t, k).id in Ids(t) && Delete(t, k).id == t.id
    decreases t
  {
    if t.Node? {
      hide NodeAt;
      var i := ChildIndex(t.keys, k);
      DeleteStored(t.kids[i], k, f, g);
      KidIds(t, i);
      KidRewritten(f, g, t, i, Delete(t.kids[i], k), {LeafOf(t, k).id});
    }
  }

  lemma {:induction false} DeleteNothing(t: Tree, k: Key)
    requires Balanced(t) && !Found(LeafFor(t, k), k)
    ensures Delete(t, k) == t
    decreases t
  {
    if t.Node? {
      DeleteNothing(t.kids[ChildIndex(t.keys, k)], k);
    }
  }

  // ----- paths -----

  /** The page numbers of the trail, with the child index taken at each internal node. */
  function PathOf(ts: seq<Tree>, k: Key): (path: seq<(nat, nat)>)
    ensures |path| == |ts|
  {
    seq(|ts|, j requires 0 <= j < |ts| => PathStep(ts[j], k))
  }

  function PathStep(t: Tree, k: Key): (nat, nat)
  {
    (t.id, if t.Node? then ChildIndex(t.keys, k) else 0)
  }

  // ----- a parent taking in a split kid -----

  /** All these trees lie in the file, on pages of `live` other than `apart`. */
  ghost predicate KidsStored(file: seq<Page>, kids: seq<Tree>, live: set<nat>, apart: nat)
  {
    forall j :: 0 <= j < |kids| ==> Stored(file, kids[j]) && Ids(kids[j]) <= live && apart !in Ids(kids[j])
  }

  lemma KidsKept(f: seq<Page>, g: seq<Page>, kids: seq<Tree>, live: set<nat>, apart: nat, changed: set<nat>)
    requires KidsStored(f, kids, live, apart) && SameExcept(f, g, changed) && changed !! live - {apart}
    ensures KidsStored(g, kids, live, apart)
  {
    forall j | 0 <= j < |kids| ensures Stored(g, kids[j]) {
      StoredKept(f, g, kids[j], changed);
    }
  }

  lemma NodeAtKept(f: seq<Page>, g: seq<Page>, t: Tree, changed: set<nat>)
    requires NodeAt(f, t) && SameExcept(f, g, changed) && t.id !in changed
    ensures NodeAt(g, t)
  {
  }

  lemma NodeIds(t: Tree, live: set<nat>)
    requires t.Node? && t.id in live && forall j :: 0 <= j < |t.kids| ==> Ids(t.kids[j]) <= live
    ensures Ids(t) <= live
  {
  }

  /** A kid other than the one that was split. */
  lemma KidBeside(f: seq<Page>, g: seq<Page>, t: Tree, i: nat, j: nat, changed: set<nat>, live: set<nat>)
    requires t.Node? && i < |t.kids| && j < |t.kids| && i != j && Separate(t) && Stored(f, t)
        && SameExcept(f, g, changed)
    requires Ids(t) <= live && changed * Ids(t) <= Ids(t.kids[i])
    ensures Stored(g, t.kids[j]) && Ids(t.kids[j]) <= live && t.id !in Ids(t.kids[j])
  {
    hide Stored, SameExcept, Separate, Ids;
    KidIds(t, j);
    OtherKidKept(f, g, t, i, j, changed);
  }

  lemma OwnPageKept(f: seq<Page>, g: seq<Page>, t: Tree, i: nat, changed: set<nat>)
    requires t.Node? && i < |t.kids| && Separate(t) && Stored(f, t) && SameExcept(f, g, changed)
        && changed * Ids(t) <= Ids(t.kids[i])
    ensures NodeAt(g, t) && t.id !in Ids(t.kids[i]) && t.id in Ids(t)
  {
    hide NodeAt;
    KidIds(t, i);
    assert t.id in Ids(t);
    NodeAtKept(f, g, t, changed);
  }

  /** The kids of a node after one was replaced by its two halves are all stored. */
  lemma SplicedStored(f: seq<Page>, g: seq<Page>, t: Tree, i: nat, l: Tree, sep: Key, r: Tree, changed: set<nat>,
                      live0: set<nat>, live: set<nat>)
    requires t.Node? && i < |t.kids| == |t.keys| + 1 && Separate(t) && Stored(f, t) && SameExcept(f, g, changed)
    requires Ids(t) <= live0 <= live && changed <= Ids(t.kids[i]) + (live - live0)
    requires Stored(g, l) && Stored(g, r) && Ids(l) + Ids(r) <= Ids(t.kids[i]) + (live - live0)
    ensures KidsStored(g, Splice(t, i, l, sep, r).kids, live, t.id) && NodeAt(g, t)
  {
    hide NodeAt, Stored, SameExcept, Separate, Ids;
    var kids := Splice(t, i, l, sep, r).kids;
    ReplaceIndex(t.kids, i, l, r);
    KidIds(t, i);
    OwnPageKept(f, g, t, i, changed);
    forall j | 0 <= j < |kids| ensures Stored(g, kids[j]) && Ids(kids[j]) <= live && t.id !in Ids(kids[j]) {
      if j != i && j != i + 1 {
        KidBeside(f, g, t, i, if j < i then j else j - 1, changed, live);
      }
    }
  }
}
