/** The B+tree as a value: what insertion, deletion and range scan do to the tree of nodes,
    and the proof that they do to a sorted map what their names say. */
module TreeModel {
  import opened Bytes
  import opened Entries
  import opened Layout
  import opened Seqs

  /** A node with the page it lives on; `Node` has one more kid than keys. */
  datatype Tree =
    | Leaf(id: nat, entries: seq<Entry>)
    | Node(id: nat, keys: seq<Key>, kids: seq<Tree>)

  /** A subtree after an insertion: still one node, or split in two around a separator. */
  datatype Grown = One(tree: Tree) | Two(left: Tree, sep: Key, right: Tree)

  // ----- well-formed trees -----

  function Height(t: Tree): nat
  {
    if t.Leaf? || t.kids == [] then 0 else 1 + Height(t.kids[0])
  }

  /** Kids and keys match up, and all leaves are at one depth. */
  ghost predicate Balanced(t: Tree)
  {
    t.Node? ==>
      && |t.kids| == |t.keys| + 1
      && forall i :: 0 <= i < |t.kids| ==> Balanced(t.kids[i]) && Height(t.kids[i]) == Height(t) - 1
  }

  /** Every node fits in its page. */
  ghost predicate PagesFit(t: Tree)
  {
    match t
    case Leaf(_, es) => LeafFits(es)
    case Node(_, keys, kids) => InternalFits(keys) && forall i :: 0 <= i < |kids| ==> PagesFit(kids[i])
  }

  predicate AtLeast(lo: Option<Key>, k: Key) { lo.Some? ==> AtMost(lo.value, k) }
  predicate Over(lo: Option<Key>, k: Key) { lo.Some? ==> Less(lo.value, k) }
  predicate Under(k: Key, hi: Option<Key>) { hi.Some? ==> Less(k, hi.value) }

  function LoOf(keys: seq<Key>, lo: Option<Key>, i: nat): Option<Key>
    requires i <= |keys|
  {
    if i == 0 then lo else Some(keys[i - 1])
  }

  function HiOf(keys: seq<Key>, hi: Option<Key>, i: nat): Option<Key>
    requires i <= |keys|
  {
    if i == |keys| then hi else Some(keys[i])
  }

  ghost predicate KeysSorted(keys: seq<Key>)
  {
    forall i, j :: 0 <= i < j < |keys| ==> Less(keys[i], keys[j])
  }

  ghost predicate KeysInside(keys: seq<Key>, lo: Option<Key>, hi: Option<Key>)
  {
    forall i :: 0 <= i < |keys| ==> Over(lo, keys[i]) && Under(keys[i], hi)
  }

  ghost predicate EntriesOrdered(es: seq<Entry>, lo: Option<Key>, hi: Option<Key>)
  {
    Sorted(es) && forall i :: 0 <= i < |es| ==> AtLeast(lo, es[i].key) && Under(es[i].key, hi)
  }

  /** Search order: kid `i` holds keys from separator `i - 1` up to, not including, separator `i`. */
  ghost predicate Ordered(t: Tree, lo: Option<Key>, hi: Option<Key>)
    decreases t
  {
    match t
    case Leaf(_, es) => EntriesOrdered(es, lo, hi)
    case Node(_, keys, kids) =>
      && |kids| == |keys| + 1 && KeysSorted(keys) && KeysInside(keys, lo, hi)
      && forall i :: 0 <= i < |kids| ==> Ordered(kids[i], LoOf(keys, lo, i), HiOf(keys, hi, i))
  }

  ghost function Ids(t: Tree): set<nat>
  {
    match t
    case Leaf(id, _) => {id}
    case Node(id, _, kids) => {id} + set i, x | 0 <= i < |kids| && x in Ids(kids[i]) :: x
  }

  /** No page is used twice. */
  ghost predicate Separate(t: Tree)
  {
    t.Node? ==>
      && (forall i :: 0 <= i < |t.kids| ==> Separate(t.kids[i]) && t.id !in Ids(t.kids[i]))
      && (forall i, j :: 0 <= i < j < |t.kids| ==> Ids(t.kids[i]) !! Ids(t.kids[j]))
  }

  ghost predicate LegalEntries(es: seq<Entry>)
  {
    forall i :: 0 <= i < |es| ==> |es[i].key| <= MAX_KEY_SIZE && |es[i].value| <= MAX_VALUE_SIZE
  }

  ghost predicate LegalKeys(keys: seq<Key>)
  {
    forall i :: 0 <= i < |keys| ==> |keys[i]| <= MAX_KEY_SIZE
  }

  /** Keys and values have the sizes `insert` admits. */
  ghost predicate Legal(t: Tree)
  {
    match t
    case Leaf(_, es) => LegalEntries(es)
    case Node(_, keys, kids) => LegalKeys(keys) && forall i :: 0 <= i < |kids| ==> Legal(kids[i])
  }

  ghost predicate WellFormed(t: Tree)
  {
    Balanced(t) && PagesFit(t) && Legal(t) && Ordered(t, None, None) && Separate(t)
  }

  // ----- contents -----

  function Flatten(t: Tree): seq<Entry>
    decreases t, 1
  {
    match t
    case Leaf(_, es) => es
    case Node(_, _, kids) => FlattenAll(kids)
  }

  function FlattenAll(ts: seq<Tree>): seq<Entry>
    decreases ts, 0
  {
    if ts == [] then [] else Flatten(ts[0]) + FlattenAll(ts[1..])
  }

  // ----- operations -----

  /** The kid to follow for `k`: before the first separator above it. */
  function ChildIndex(keys: seq<Key>, k: Key): (i: nat)
    ensures i <= |keys|
    ensures forall j :: 0 <= j < i ==> AtMost(keys[j], k)
    ensures i < |keys| ==> Less(k, keys[i])
  {
    if keys == [] || Less(k, keys[0]) then 0
    else
      var r := ChildIndex(keys[1..], k);
      assert forall j :: 0 < j < r + 1 ==> keys[j] == keys[1..][j - 1];
      r + 1
  }

  function InsertAt<T>(s: seq<T>, i: nat, x: T): seq<T>
    requires i <= |s|
  {
    s[..i] + [x] + s[i..]
  }

  function ReplaceByTwo<T>(s: seq<T>, i: nat, x: T, y: T): seq<T>
    requires i < |s|
  {
    s[..i] + [x, y] + s[i + 1..]
  }

  /** Insertion below a node; a node of height `h` that splits takes page `ids[h]` for its right half. */
  function Ins(t: Tree, k: Key, v: Value, ids: seq<nat>): Grown
    requires Balanced(t) && PagesFit(t) && |ids| > Height(t)
    decreases t
  {
    match t
    case Leaf(id, es) => LeafIns(id, es, k, v, ids[0])
    case Node(id, keys, kids) =>
      var i := ChildIndex(keys, k);
      Regrow(t, i, Ins(kids[i], k, v, ids), ids[Height(t)])
  }

  /** Insertion into a leaf: an entry with no room cuts the leaf in the middle. */
  function LeafIns(id: nat, es: seq<Entry>, k: Key, v: Value, newId: nat): Grown
    requires LeafFits(es)
  {
    var all := Upserted(es, k, v);
    if Found(es, k) || LeafCanFit(es, |k|, |v|) then One(Leaf(id, all))
    else
      var mid := |all| / 2;
      Two(Leaf(id, all[..mid]), all[mid].key, Leaf(newId, all[mid..]))
  }

  /** A node with kid `i` replaced by two kids around a separator. */
  function Splice(t: Tree, i: nat, l: Tree, sep: Key, r: Tree): Tree
    requires t.Node? && i < |t.kids| == |t.keys| + 1
  {
    Node(t.id, InsertAt(t.keys, i, sep), ReplaceByTwo(t.kids, i, l, r))
  }

  /** A node cut at its middle key, which moves up. */
  function Cut(t: Tree, newId: nat): Grown
    requires t.Node? && |t.kids| == |t.keys| + 1 && t.keys != []
  {
    var mid := |t.keys| / 2;
    Two(Node(t.id, t.keys[..mid], t.kids[..mid + 1]), t.keys[mid], Node(newId, t.keys[mid + 1..], t.kids[mid + 1..]))
  }

  /** A node takes in the two halves of kid `i`, and is cut if the separator had no room. */
  function Absorb(t: Tree, i: nat, l: Tree, sep: Key, r: Tree, newId: nat): Grown
    requires t.Node? && i < |t.kids| == |t.keys| + 1 && InternalFits(t.keys)
  {
    if InternalCanFit(t.keys, |sep|) then One(Splice(t, i, l, sep, r)) else Cut(Splice(t, i, l, sep, r), newId)
  }

  /** A node whose kid `i` has grown. */
  function Regrow(t: Tree, i: nat, g: Grown, newId: nat): Grown
    requires t.Node? && i < |t.kids| == |t.keys| + 1 && InternalFits(t.keys)
  {
    match g
    case One(kid) => One(Node(t.id, t.keys, t.kids[i := kid]))
    case Two(l, sep, r) => Absorb(t, i, l, sep, r, newId)
  }

  /** A split root gets a new root above it. */
  function Rooted(g: Grown, rootId: nat): Tree
  {
    match g
    case One(t) => t
    case Two(l, sep, r) => Node(rootId, [sep], [l, r])
  }

  function Insert(t: Tree, k: Key, v: Value, ids: seq<nat>): Tree
    requires Balanced(t) && PagesFit(t) && |ids| > Height(t) + 1
  {
    Rooted(Ins(t, k, v, ids), ids[Height(t) + 1])
  }

  function Delete(t: Tree, k: Key): Tree
    requires Balanced(t)
    decreases t
  {
    match t
    case Leaf(id, es) => Leaf(id, Removed(es, k))
    case Node(id, keys, kids) =>
      var i := ChildIndex(keys, k);
      Node(id, keys, kids[i := Delete(kids[i], k)])
  }

  // ----- which insertions keep every page inside 4096 bytes -----

  /** The separator a leaf hands to its parent, if the insertion cuts it. */
  function LeafPushed(es: seq<Entry>, k: Key, v: Value): Option<Key>
    requires LeafFits(es)
  {
    var all := Upserted(es, k, v);
    if Found(es, k) || LeafCanFit(es, |k|, |v|) then None else Some(all[|all| / 2].key)
  }

  /** A replaced value leaves the leaf in its page; a cut leaf leaves both halves in theirs. */
  predicate LeafTakes(es: seq<Entry>, k: Key, v: Value)
    requires LeafFits(es)
  {
    var all := Upserted(es, k, v);
    if Found(es, k) then LeafFits(all)
    else LeafCanFit(es, |k|, |v|) || (LeafFits(all[..|all| / 2]) && LeafFits(all[|all| / 2..]))
  }

  function NodePushed(keys: seq<Key>, i: nat, pushed: Option<Key>): Option<Key>
    requires InternalFits(keys) && i <= |keys|
  {
    if pushed.None? || InternalCanFit(keys, |pushed.value|) then None
    else var all := InsertAt(keys, i, pushed.value); Some(all[|all| / 2])
  }

  predicate NodeTakes(keys: seq<Key>, i: nat, pushed: Option<Key>)
    requires InternalFits(keys) && i <= |keys|
  {
    pushed.None? || InternalCanFit(keys, |pushed.value|) ||
    var all := InsertAt(keys, i, pushed.value);
    InternalFits(all[..|all| / 2]) && InternalFits(all[|all| / 2 + 1..])
  }

  /** The separator a subtree hands to its parent, if the insertion splits it. */
  function Pushed(t: Tree, k: Key, v: Value): Option<Key>
    requires Balanced(t) && PagesFit(t)
    decreases t
  {
    match t
    case Leaf(_, es) => LeafPushed(es, k, v)
    case Node(_, keys, kids) =>
      var i := ChildIndex(keys, k);
      NodePushed(keys, i, Pushed(kids[i], k, v))
  }

  /** Walking down with `k`: the leaf takes the entry, and each node on the way takes the separator it gets. */
  predicate InsertFits(t: Tree, k: Key, v: Value)
    requires Balanced(t) && PagesFit(t)
    decreases t
  {
    match t
    case Leaf(_, es) => LeafTakes(es, k, v)
    case Node(_, keys, kids) =>
      var i := ChildIndex(keys, k);
      InsertFits(kids[i], k, v) && NodeTakes(keys, i, Pushed(kids[i], k, v))
  }

  // ----- forests -----

  lemma {:induction false} FlattenConcat(a: seq<Tree>, c: seq<Tree>)
    ensures FlattenAll(a + c) == FlattenAll(a) + FlattenAll(c)
  {
    if a == [] {
      assert a + c == c;
    } else {
      assert (a + c)[1..] == a[1..] + c;
      FlattenConcat(a[1..], c);
    }
  }

  lemma FlattenOne(t: Tree)
    ensures FlattenAll([t]) == Flatten(t)
  {
    assert FlattenAll([t]) == Flatten(t) + FlattenAll([t][1..]);
  }

  lemma FlattenPair(l: Tree, r: Tree)
    ensures FlattenAll([l, r]) == Flatten(l) + Flatten(r)
  {
    assert [l, r] == [l] + [r];
    FlattenConcat([l], [r]);
    FlattenOne(l);
    FlattenOne(r);
  }

  lemma FlattenMiddle(a: seq<Tree>, t: Tree, c: seq<Tree>)
    ensures FlattenAll(a + [t] + c) == FlattenAll(a) + Flatten(t) + FlattenAll(c)
  {
    FlattenConcat(a + [t], c);
    FlattenConcat(a, [t]);
    FlattenOne(t);
  }

  lemma FlattenAround(ts: seq<Tree>, i: nat)
    requires i < |ts|
    ensures FlattenAll(ts) == FlattenAll(ts[..i]) + Flatten(ts[i]) + FlattenAll(ts[i + 1..])
  {
    FlattenMiddle(ts[..i], ts[i], ts[i + 1..]);
    Around(ts, i);
  }

  lemma {:induction false} FlattenMember(ts: seq<Tree>, e: Entry) returns (i: nat)
    requires e in FlattenAll(ts)
    ensures i < |ts| && e in Flatten(ts[i])
  {
    if e in Flatten(ts[0]) {
      i := 0;
    } else {
      i := FlattenMember(ts[1..], e);
      i := i + 1;
    }
  }

  // ----- search order -----

  /** An ordered tree's entries are sorted and within its bounds. */
  lemma {:induction false} OrderedEntries(t: Tree, lo: Option<Key>, hi: Option<Key>)
    requires Ordered(t, lo, hi)
    ensures Sorted(Flatten(t))
    ensures forall e :: e in Flatten(t) ==> AtLeast(lo, e.key) && Under(e.key, hi)
    decreases t, 1
  {
    if t.Node? {
      OrderedPrefix(t, lo, hi, |t.kids|);
      assert t.kids[..|t.kids|] == t.kids;
    }
  }

  lemma {:induction false} OrderedPrefix(t: Tree, lo: Option<Key>, hi: Option<Key>, n: nat)
    requires t.Node? && Ordered(t, lo, hi) && n <= |t.kids|
    ensures Sorted(FlattenAll(t.kids[..n]))
    ensures n > 0 ==> forall e :: e in FlattenAll(t.kids[..n]) ==>
              AtLeast(lo, e.key) && Under(e.key, HiOf(t.keys, hi, n - 1))
    decreases t, 0, n
  {
    if n > 0 {
      OrderedPrefix(t, lo, hi, n - 1);
      OrderedEntries(t.kids[n - 1], LoOf(t.keys, lo, n - 1), HiOf(t.keys, hi, n - 1));
      assert t.kids[..n] == t.kids[..n - 1] + [t.kids[n - 1]];
      FlattenConcat(t.kids[..n - 1], [t.kids[n - 1]]);
      FlattenOne(t.kids[n - 1]);
      JoinSorted(FlattenAll(t.kids[..n - 1]), Flatten(t.kids[n - 1]), LoOf(t.keys, lo, n - 1));
      Order();
    }
  }

  lemma JoinSorted(a: seq<Entry>, c: seq<Entry>, key: Option<Key>)
    requires Sorted(a) && Sorted(c)
    requires a != [] ==> key.Some?
    requires forall e :: e in a ==> Under(e.key, key)
    requires forall e :: e in c ==> AtLeast(key, e.key)
    ensures Sorted(a + c)
  {
    hide Less;
    Order();
    forall i, j | 0 <= i < |a| && 0 <= j < |c| ensures Less(a[i].key, c[j].key) {
      assert a[i] in a && c[j] in c;
    }
  }

  lemma LeftOfChild(t: Tree, lo: Option<Key>, hi: Option<Key>, k: Key)
    requires t.Node? && Ordered(t, lo, hi)
    ensures AllBelow(FlattenAll(t.kids[..ChildIndex(t.keys, k)]), k)
  {
    hide Less;
    Order();
    var i := ChildIndex(t.keys, k);
    var a := FlattenAll(t.kids[..i]);
    forall n | 0 <= n < |a| ensures Less(a[n].key, k) {
      var j := FlattenMember(t.kids[..i], a[n]);
      OrderedEntries(t.kids[j], LoOf(t.keys, lo, j), HiOf(t.keys, hi, j));
      assert Less(a[n].key, t.keys[j]);
    }
  }

  lemma RightOfChild(t: Tree, lo: Option<Key>, hi: Option<Key>, k: Key)
    requires t.Node? && Ordered(t, lo, hi)
    ensures AllAbove(FlattenAll(t.kids[ChildIndex(t.keys, k) + 1..]), k)
  {
    hide Less;
    Order();
    var i := ChildIndex(t.keys, k);
    var c := FlattenAll(t.kids[i + 1..]);
    forall n | 0 <= n < |c| ensures Less(k, c[n].key) {
      var j := FlattenMember(t.kids[i + 1..], c[n]);
      j := i + 1 + j;
      OrderedEntries(t.kids[j], LoOf(t.keys, lo, j), HiOf(t.keys, hi, j));
      assert AtMost(t.keys[j - 1], c[n].key);
    }
  }

  /** Everything left of the followed kid is below `k`, everything right of it above. */
  lemma AroundChild(t: Tree, lo: Option<Key>, hi: Option<Key>, k: Key)
    requires t.Node? && Ordered(t, lo, hi)
    ensures var i := ChildIndex(t.keys, k);
            && AllBelow(FlattenAll(t.kids[..i]), k) && AllAbove(FlattenAll(t.kids[i + 1..]), k)
            && Flatten(t) == FlattenAll(t.kids[..i]) + Flatten(t.kids[i]) + FlattenAll(t.kids[i + 1..])
  {
    hide AllBelow, AllAbove, FlattenAll;
    FlattenAround(t.kids, ChildIndex(t.keys, k));
    LeftOfChild(t, lo, hi, k);
    RightOfChild(t, lo, hi, k);
  }

  predicate Inside(k: Key, lo: Option<Key>, hi: Option<Key>)
  {
    AtLeast(lo, k) && Under(k, hi)
  }

  /** A key inside a node's bounds is inside the bounds of the kid it leads to. */
  lemma ChildInside(keys: seq<Key>, lo: Option<Key>, hi: Option<Key>, k: Key)
    requires Inside(k, lo, hi)
    ensures var i := ChildIndex(keys, k); Inside(k, LoOf(keys, lo, i), HiOf(keys, hi, i))
  {
  }
}
