/** Leaf and internal nodes in memory and as slotted pages. */
module NodePages {
  import opened Bytes
  import opened Entries
  import opened Layout
  import opened Pages
  import opened Results
  import opened Seqs

  datatype LeafImage = LeafImage(id: nat, entries: seq<Entry>)

  /** `child` is the page left of `key`. */
  datatype InternalEntry = InternalEntry(key: Key, child: nat)

  datatype InternalImage = InternalImage(id: nat, entries: seq<InternalEntry>, rightChild: nat)

  function KeysOf(es: seq<InternalEntry>): (keys: seq<Key>)
    ensures |keys| == |es|
  {
    seq(|es|, i requires 0 <= i < |es| => es[i].key)
  }

  // ----- reading pages -----

  function LeafEntryAt(p: Page, i: nat): Result<Entry>
  {
    var slot := LEAF_SLOTS_OFFSET + LEAF_SLOT_SIZE * i;
    if slot + LEAF_SLOT_SIZE > PAGE_SIZE then Err(OutOfBounds)
    else
      var keyLen, valLen, off := Read(p, slot, 2), Read(p, slot + 2, 2), Read(p, slot + 4, 2);
      if off + keyLen + valLen > PAGE_SIZE then Err(CorruptNode)
      else Ok(Entry(p[off..off + keyLen], p[off + keyLen..off + keyLen + valLen]))
  }

  function LeafEntriesFrom(p: Page, i: nat, num: nat): Result<seq<Entry>>
    requires i <= num
    decreases num - i
  {
    if i == num then Ok([])
    else
      var e :- LeafEntryAt(p, i);
      var rest :- LeafEntriesFrom(p, i + 1, num);
      Ok([e] + rest)
  }

  function DecodeLeaf(p: Page): Result<LeafImage>
  {
    if HeaderType(p) != LeafPage then Err(CorruptNode)
    else
      var es :- LeafEntriesFrom(p, 0, Read(p, 5, 2));
      Ok(LeafImage(HeaderId(p), es))
  }

  function InternalEntryAt(p: Page, i: nat): Result<InternalEntry>
  {
    var slot := INTERNAL_SLOTS_OFFSET + INTERNAL_SLOT_SIZE * i;
    if slot + INTERNAL_SLOT_SIZE > PAGE_SIZE then Err(OutOfBounds)
    else
      var keyLen, off, child := Read(p, slot, 2), Read(p, slot + 2, 2), Read(p, slot + 4, 4);
      if off + keyLen > PAGE_SIZE then Err(CorruptNode)
      else Ok(InternalEntry(p[off..off + keyLen], child))
  }

  function InternalEntriesFrom(p: Page, i: nat, num: nat): Result<seq<InternalEntry>>
    requires i <= num
    decreases num - i
  {
    if i == num then Ok([])
    else
      var e :- InternalEntryAt(p, i);
      var rest :- InternalEntriesFrom(p, i + 1, num);
      Ok([e] + rest)
  }

  function DecodeInternal(p: Page): Result<InternalImage>
  {
    if HeaderType(p) != InternalPage then Err(CorruptNode)
    else
      var es :- InternalEntriesFrom(p, 0, Read(p, 5, 2));
      Ok(InternalImage(HeaderId(p), es, Read(p, 9, 4)))
  }

  // ----- the layout of a written leaf -----

  /** Data grows down from the end of the page. */
  function LeafOffset(es: seq<Entry>, i: nat): (off: int)
    requires i < |es|
    ensures off + |es[i].key| + |es[i].value| <= PAGE_SIZE
  {
    LeafOffsets(es, i);
    PAGE_SIZE - LeafData(es[..i + 1])
  }

  function LeafSlot(e: Entry, off: nat): seq<byte>
  {
    LE(|e.key|, 2) + LE(|e.value|, 2) + LE(off, 2)
  }

  ghost predicate LeafCellAt(p: seq<byte>, es: seq<Entry>, i: nat)
    requires i < |es|
  {
    LeafOffset(es, i) >= 0 &&
    CellAt(p, LEAF_SLOTS_OFFSET + LEAF_SLOT_SIZE * i, LeafSlot(es[i], LeafOffset(es, i)), LeafOffset(es, i), es[i].key
        + es[i].value)
  }

  lemma LeafOffsets(es: seq<Entry>, i: nat)
    requires i < |es|
    ensures LeafData(es[..i + 1]) == LeafData(es[..i]) + |es[i].key| + |es[i].value|
    ensures LeafData(es[..i + 1]) <= LeafData(es)
  {
    var e := es[i];
    TakeOneMore(es, i);
    LeafDataConcat(es[..i], [e]);
    TakeDrop(es, i + 1);
    LeafDataConcat(es[..i + 1], es[i + 1..]);
    LeafDataOne(e);
  }

  lemma {:induction false} LeafDataMonotone(es: seq<Entry>, i: nat, j: nat)
    requires i <= j <= |es|
    ensures LeafData(es[..i]) <= LeafData(es[..j])
    decreases j
  {
    if i < j {
      LeafOffsets(es, j - 1);
      LeafDataMonotone(es, i, j - 1);
    }
  }

  lemma ReadField(p: seq<byte>, off: nat, s: seq<byte>, a: nat, v: nat, n: nat)
    requires off + |s| <= |p| && p[off..off + |s|] == s
    requires a + n <= |s| && s[a..a + n] == LE(v, n) && v < Pow256(n)
    ensures Read(p, off + a, n) == v
  {
    SubSlice(p, off, off + |s|, a, a + n);
    LERoundTrip(v, n);
  }

  lemma LeafSlotFields(e: Entry, off: nat)
    ensures var s := LeafSlot(e, off);
            |s| == 6 && s[0..2] == LE(|e.key|, 2) && s[2..4] == LE(|e.value|, 2) && s[4..6] == LE(off, 2)
  {
  }

  /** A cell reads back as its entry. */
  lemma LeafCellReads(p: Page, es: seq<Entry>, i: nat)
    requires i < |es| && LeafFits(es) && LeafCellAt(p, es, i)
    ensures LeafEntryAt(p, i) == Ok(es[i])
  {
    hide LE, FromLE, Pow256;
    Widths();
    LeafOffsets(es, i);
    var slotOff, e, off := LEAF_SLOTS_OFFSET + LEAF_SLOT_SIZE * i, es[i], LeafOffset(es, i);
    var s := LeafSlot(e, off);
    LeafSlotFields(e, off);
    ReadField(p, slotOff, s, 0, |e.key|, 2);
    ReadField(p, slotOff, s, 2, |e.value|, 2);
    ReadField(p, slotOff, s, 4, off, 2);
    SubSlices(p, off, e.key, e.value);
  }

  lemma SubSlices(p: seq<byte>, off: nat, a: seq<byte>, c: seq<byte>)
    requires off + |a| + |c| <= |p| && p[off..off + |a + c|] == a + c
    ensures p[off..off + |a|] == a && p[off + |a|..off + |a| + |c|] == c
  {
    assert p[off..off + |a + c|][..|a|] == a;
    assert p[off..off + |a + c|][|a|..] == c;
  }

  lemma {:induction false} LeafCellsRead(p: Page, es: seq<Entry>, i: nat)
    requires i <= |es| && LeafFits(es)
    requires forall j :: 0 <= j < |es| ==> LeafCellAt(p, es, j)
    ensures LeafEntriesFrom(p, i, |es|) == Ok(es[i..])
    decreases |es| - i
  {
    hide LeafEntryAt, LeafCellAt, LeafData;
    if i < |es| {
      LeafCellReads(p, es, i);
      LeafCellsRead(p, es, i + 1);
      assert es[i..] == [es[i]] + es[i + 1..];
    } else {
      assert es[i..] == [];
    }
  }

  /** Where entry `i` of a leaf lies in its page: lengths and offset in the slot, key and value at the offset. */
  ghost predicate LeafEntryBytes(p: Page, i: nat, e: Entry)
  {
    var o, kl, vl := 9 + 6 * i, |e.key|, |e.value|;
    && o + 6 <= 4096 && FromLE(p[o..o + 2]) == kl && FromLE(p[o + 2..o + 4]) == vl
    && var off := FromLE(p[o + 4..o + 6]);
       off + kl + vl <= 4096 && p[off..off + kl] == e.key && p[off + kl..off + kl + vl] == e.value
  }

  /** The bytes of a leaf page: type, id, number of entries, entries. */
  ghost predicate LeafBytes(p: Page, id: nat, es: seq<Entry>)
  {
    && p[0] == 3 && FromLE(p[1..5]) == id && FromLE(p[5..7]) == |es|
    && LeafEntriesAt(p, 0, es)
  }

  lemma LeafEntryExact(p: Page, i: nat, e: Entry)
    ensures LeafEntryAt(p, i) == Ok(e) <==> LeafEntryBytes(p, i, e)
  {
    hide FromLE;
  }

  /** Entries lie in the page's slots from slot `i` on. */
  ghost predicate LeafEntriesAt(p: Page, i: nat, es: seq<Entry>)
  {
    forall j :: 0 <= j < |es| ==> LeafEntryBytes(p, i + j, es[j])
  }

  lemma LeafEntriesStep(p: Page, i: nat, es: seq<Entry>)
    requires es != []
    ensures LeafEntriesAt(p, i, es) <==> LeafEntryBytes(p, i, es[0]) && LeafEntriesAt(p, i + 1, es[1..])
  {
    hide LeafEntryBytes;
    if LeafEntryBytes(p, i, es[0]) && LeafEntriesAt(p, i + 1, es[1..]) {
      forall j | 0 <= j < |es| ensures LeafEntryBytes(p, i + j, es[j]) {
        if j > 0 {
          assert LeafEntryBytes(p, i + 1 + (j - 1), es[1..][j - 1]);
        }
      }
    }
    if LeafEntriesAt(p, i, es) {
      assert LeafEntryBytes(p, i + 0, es[0]);
      forall j | 0 <= j < |es[1..]| ensures LeafEntryBytes(p, i + 1 + j, es[1..][j]) {
        assert LeafEntryBytes(p, i + (j + 1), es[j + 1]);
      }
    }
  }

  lemma {:induction false} LeafEntriesExact(p: Page, i: nat, num: nat, es: seq<Entry>)
    requires i <= num
    ensures LeafEntriesFrom(p, i, num) == Ok(es) <==> |es| == num - i && LeafEntriesAt(p, i, es)
    decreases num - i
  {
    hide LeafEntryAt, LeafEntryBytes, LeafEntriesAt;
    if i < num && es != [] {
      LeafEntryExact(p, i, es[0]);
      LeafEntriesExact(p, i + 1, num, es[1..]);
      LeafEntriesStep(p, i, es);
      assert es == [es[0]] + es[1..];
      var rest := LeafEntriesFrom(p, i + 1, num);
      assert rest.Ok? && LeafEntryAt(p, i).Ok? ==>
          ([LeafEntryAt(p, i).value] + rest.value)[1..] == rest.value;
    } else if es == [] {
      NoLeafEntries(p, i);
    }
  }

  lemma NoLeafEntries(p: Page, i: nat)
    ensures LeafEntriesAt(p, i, [])
  {
  }

  /** A page reads as a leaf with these entries exactly when its bytes are theirs. */
  lemma LeafExact(p: Page, id: nat, es: seq<Entry>)
    ensures DecodeLeaf(p) == Ok(LeafImage(id, es)) <==> LeafBytes(p, id, es)
  {
    hide FromLE, LeafEntriesFrom, LeafEntriesAt;
    LeafEntriesExact(p, 0, Read(p, 5, 2), es);
  }

  // ----- the layout of a written internal node -----

  function InternalOffset(es: seq<InternalEntry>, i: nat): (off: int)
    requires i < |es|
    ensures off + |es[i].key| <= PAGE_SIZE
  {
    KeyOffsets(KeysOf(es), i);
    PAGE_SIZE - KeyData(KeysOf(es)[..i + 1])
  }

  function InternalSlot(e: InternalEntry, off: nat): seq<byte>
  {
    LE(|e.key|, 2) + LE(off, 2) + LE(e.child, 4)
  }

  ghost predicate InternalCellAt(p: seq<byte>, es: seq<InternalEntry>, i: nat)
    requires i < |es|
  {
    InternalOffset(es, i) >= 0 &&
    CellAt(p, INTERNAL_SLOTS_OFFSET + INTERNAL_SLOT_SIZE * i, InternalSlot(es[i], InternalOffset(es, i)),
        InternalOffset(es, i), es[i].key)
  }

  lemma KeyOffsets(keys: seq<Key>, i: nat)
    requires i < |keys|
    ensures KeyData(keys[..i + 1]) == KeyData(keys[..i]) + |keys[i]|
    ensures KeyData(keys[..i + 1]) <= KeyData(keys)
  {
    var k := keys[i];
    TakeOneMore(keys, i);
    KeyDataConcat(keys[..i], [k]);
    TakeDrop(keys, i + 1);
    KeyDataConcat(keys[..i + 1], keys[i + 1..]);
    assert KeyData([k]) == |k|;
  }

  lemma {:induction false} KeyDataMonotone(keys: seq<Key>, i: nat, j: nat)
    requires i <= j <= |keys|
    ensures KeyData(keys[..i]) <= KeyData(keys[..j])
    decreases j
  {
    if i < j {
      KeyOffsets(keys, j - 1);
      KeyDataMonotone(keys, i, j - 1);
    }
  }

  lemma InternalSlotFields(e: InternalEntry, off: nat)
    ensures var s := InternalSlot(e, off);
            |s| == 8 && s[0..2] == LE(|e.key|, 2) && s[2..4] == LE(off, 2) && s[4..8] == LE(e.child, 4)
  {
  }

  lemma InternalCellReads(p: Page, es: seq<InternalEntry>, i: nat)
    requires i < |es| && InternalFits(KeysOf(es)) && InternalCellAt(p, es, i) && es[i].child < U32
    ensures InternalEntryAt(p, i) == Ok(es[i])
  {
    hide LE, FromLE, Pow256;
    Widths();
    KeyOffsets(KeysOf(es), i);
    var slotOff, e, off := INTERNAL_SLOTS_OFFSET + INTERNAL_SLOT_SIZE * i, es[i], InternalOffset(es, i);
    var s := InternalSlot(e, off);
    InternalSlotFields(e, off);
    ReadField(p, slotOff, s, 0, |e.key|, 2);
    ReadField(p, slotOff, s, 2, off, 2);
    ReadField(p, slotOff, s, 4, e.child, 4);
  }

  ghost predicate InternalEntryBytes(p: Page, i: nat, e: InternalEntry)
  {
    var o, kl := 13 + 8 * i, |e.key|;
    && o + 8 <= 4096 && FromLE(p[o..o + 2]) == kl && FromLE(p[o + 4..o + 8]) == e.child
    && var off := FromLE(p[o + 2..o + 4]); off + kl <= 4096 && p[off..off + kl] == e.key
  }

  /** The bytes of an internal page: type, id, number of entries, right child, entries. */
  ghost predicate InternalBytes(p: Page, id: nat, es: seq<InternalEntry>, rightChild: nat)
  {
    && p[0] == 2 && FromLE(p[1..5]) == id && FromLE(p[5..7]) == |es| && FromLE(p[9..13]) == rightChild
    && InternalEntriesAt(p, 0, es)
  }

  lemma InternalEntryExact(p: Page, i: nat, e: InternalEntry)
    ensures InternalEntryAt(p, i) == Ok(e) <==> InternalEntryBytes(p, i, e)
  {
    hide FromLE;
  }

  /** Entries lie in the page's slots from slot `i` on. */
  ghost predicate InternalEntriesAt(p: Page, i: nat, es: seq<InternalEntry>)
  {
    forall j :: 0 <= j < |es| ==> InternalEntryBytes(p, i + j, es[j])
  }

  lemma InternalEntriesStep(p: Page, i: nat, es: seq<InternalEntry>)
    requires es != []
    ensures InternalEntriesAt(p, i, es) <==> InternalEntryBytes(p, i, es[0]) && InternalEntriesAt(p, i + 1, es[1..])
  {
    hide InternalEntryBytes;
    if InternalEntryBytes(p, i, es[0]) && InternalEntriesAt(p, i + 1, es[1..]) {
      forall j | 0 <= j < |es| ensures InternalEntryBytes(p, i + j, es[j]) {
        if j > 0 {
          assert InternalEntryBytes(p, i + 1 + (j - 1), es[1..][j - 1]);
        }
      }
    }
    if InternalEntriesAt(p, i, es) {
      assert InternalEntryBytes(p, i + 0, es[0]);
      forall j | 0 <= j < |es[1..]| ensures InternalEntryBytes(p, i + 1 + j, es[1..][j]) {
        assert InternalEntryBytes(p, i + (j + 1), es[j + 1]);
      }
    }
  }

  lemma {:induction false} InternalEntriesExact(p: Page, i: nat, num: nat, es: seq<InternalEntry>)
    requires i <= num
    ensures InternalEntriesFrom(p, i, num) == Ok(es) <==> |es| == num - i && InternalEntriesAt(p, i, es)
    decreases num - i
  {
    hide InternalEntryAt, InternalEntryBytes, InternalEntriesAt;
    if i < num && es != [] {
      InternalEntryExact(p, i, es[0]);
      InternalEntriesExact(p, i + 1, num, es[1..]);
      InternalEntriesStep(p, i, es);
      assert es == [es[0]] + es[1..];
      var rest := InternalEntriesFrom(p, i + 1, num);
      assert rest.Ok? && InternalEntryAt(p, i).Ok? ==>
          ([InternalEntryAt(p, i).value] + rest.value)[1..] == rest.value;
    } else if es == [] {
      NoInternalEntries(p, i);
    }
  }

  lemma NoInternalEntries(p: Page, i: nat)
    ensures InternalEntriesAt(p, i, [])
  {
  }

  /** A page reads as an internal node with these entries exactly when its bytes are theirs. */
  lemma InternalExact(p: Page, id: nat, es: seq<InternalEntry>, rightChild: nat)
    ensures DecodeInternal(p) == Ok(InternalImage(id, es, rightChild)) <==> InternalBytes(p, id, es, rightChild)
  {
    hide FromLE, InternalEntriesFrom, InternalEntriesAt;
    InternalEntriesExact(p, 0, Read(p, 5, 2), es);
  }

  lemma {:induction false} InternalCellsRead(p: Page, es: seq<InternalEntry>, i: nat)
    requires i <= |es| && InternalFits(KeysOf(es))
    requires forall j :: 0 <= j < |es| ==> InternalCellAt(p, es, j) && es[j].child < U32
    ensures InternalEntriesFrom(p, i, |es|) == Ok(es[i..])
    decreases |es| - i
  {
    hide InternalEntryAt, InternalCellAt, KeyData, KeysOf;
    if i < |es| {
      InternalCellReads(p, es, i);
      InternalCellsRead(p, es, i + 1);
      assert es[i..] == [es[i]] + es[i + 1..];
    }
  }

  // ----- headers -----

  ghost predicate HeadAt(p: seq<byte>, t: PageType, id: nat, num: nat)
  {
    |p| == PAGE_SIZE && p[0] == TypeByte(t) && p[1..5] == LE(id, 4) && p[5..7] == LE(num, 2)
  }

  lemma HeadKept(p: seq<byte>, off: nat, s: seq<byte>, t: PageType, id: nat, num: nat)
    requires HeadAt(p, t, id, num) && 7 <= off && off + |s| <= |p|
    ensures HeadAt(Overwrite(p, off, s), t, id, num)
  {
    OverwriteMiss(p, off, s, 1, 5);
    OverwriteMiss(p, off, s, 5, 7);
  }

  lemma HeadReads(p: Page, t: PageType, id: nat, num: nat)
    requires HeadAt(p, t, id, num) && id < U32 && num < U16
    ensures HeaderType(p) == t && HeaderId(p) == id && Read(p, 5, 2) == num
  {
    Widths();
    LERoundTrip(id, 4);
    LERoundTrip(num, 2);
  }

  /** Page header and entry count into a fresh zeroed buffer. */
  method NewBuffer(t: PageType, id: nat, num: nat) returns (buf: array<byte>)
    ensures fresh(buf) && HeadAt(buf[..], t, id, num)
  {
    buf := new byte[4096](_ => 0);
    CopyInto(buf, 0, [TypeByte(t)]);
    CopyInto(buf, 1, LE(id, 4));
    CopyInto(buf, 5, LE(num, 2));
    assert buf[..][1..5] == LE(id, 4);
  }

  // ----- leaf nodes -----

  lemma LeafCellKept(p: seq<byte>, es: seq<Entry>, i: nat, j: nat)
    requires |p| == PAGE_SIZE && LeafFits(es) && j < i < |es| && LeafCellAt(p, es, j)
    ensures LeafOffset(es, i) >= 0 && LEAF_SLOTS_OFFSET + LEAF_SLOT_SIZE * (i + 1) <= LeafOffset(es, i)
    ensures var off := LeafOffset(es, i);
            LeafCellAt(Overwrite(Overwrite(p, off, es[i].key + es[i].value), LEAF_SLOTS_OFFSET + LEAF_SLOT_SIZE * i,
                                 LeafSlot(es[i], off)), es, j)
  {
    LeafOffsets(es, i);
    LeafOffsets(es, j);
    LeafDataMonotone(es, j + 1, i);
    CellKept(p, LEAF_SLOTS_OFFSET + LEAF_SLOT_SIZE * j, LeafSlot(es[j], LeafOffset(es, j)), LeafOffset(es, j),
             es[j].key + es[j].value, LEAF_SLOTS_OFFSET + LEAF_SLOT_SIZE * i, LeafSlot(es[i], LeafOffset(es, i)),
             LeafOffset(es, i), es[i].key + es[i].value);
  }

  /** Writing cell `i` of a leaf: its data, then its slot. */
  method WriteLeafCell(buf: array<byte>, es: seq<Entry>, i: nat, cursor: nat, ghost id: nat)
    requires buf.Length == PAGE_SIZE && LeafFits(es) && i < |es|
    requires cursor == PAGE_SIZE - LeafData(es[..i])
    requires HeadAt(buf[..], LeafPage, id, |es|) && forall j :: 0 <= j < i ==> LeafCellAt(buf[..], es, j)
    modifies buf
    ensures HeadAt(buf[..], LeafPage, id, |es|) && forall j :: 0 <= j < i + 1 ==> LeafCellAt(buf[..], es, j)
  {
    hide LeafSlot, LE, LeafData, CellAt;
    LeafOffsets(es, i);
    var e := es[i];
    var off, slotOff := cursor - (|e.key| + |e.value|), LEAF_SLOTS_OFFSET + LEAF_SLOT_SIZE * i;
    LeafSlotFields(e, off);
    ghost var p := buf[..];
    CellWritten(p, slotOff, LeafSlot(e, off), off, e.key + e.value);
    forall j | 0 <= j < i
      ensures LeafCellAt(Overwrite(Overwrite(p, off, e.key + e.value), slotOff, LeafSlot(e, off)), es, j) {
      LeafCellKept(p, es, i, j);
    }
    HeadKept(p, off, e.key + e.value, LeafPage, id, |es|);
    HeadKept(Overwrite(p, off, e.key + e.value), slotOff, LeafSlot(e, off), LeafPage, id, |es|);
    CopyInto(buf, off, e.key + e.value);
    CopyInto(buf, slotOff, LeafSlot(e, off));
  }

  class LeafNode {
    var pageId: nat
    var entries: seq<Entry>

    constructor (pageId: nat, entries: seq<Entry>)
      ensures this.pageId == pageId && this.entries == entries
    {
      this.pageId := pageId;
      this.entries := entries;
    }

    static method FromPage(page: Page) returns (r: Result<LeafNode>)
      ensures match r
              case Ok(node) => fresh(node) && DecodeLeaf(page) == Ok(LeafImage(node.pageId, node.entries))
              case Err(e) => DecodeLeaf(page) == Err(e)
    {
      hide LeafEntryAt, Read;
      if HeaderType(page) != LeafPage {
        return Err(CorruptNode);
      }
      var num := Read(page, 5, 2);
      var es: seq<Entry> := [];
      ghost var all := LeafEntriesFrom(page, 0, num);
      assert all.Ok? ==> es + all.value == all.value;
      for i := 0 to num
        invariant all ==
                  match LeafEntriesFrom(page, i, num) case Ok(rest) => Ok(es + rest) case Err(e) => Err(e)
      {
        var e := LeafEntryAt(page, i);
        if e.Err? {
          return Err(e.error);
        }
        ghost var rest := LeafEntriesFrom(page, i + 1, num);
        assert rest.Ok? ==> es + ([e.value] + rest.value) == (es + [e.value]) + rest.value;
        es := es + [e.value];
      }
      assert es + [] == es;
      var node := new LeafNode(HeaderId(page), es);
      return Ok(node);
    }

    /** Serializes the node; reading the page back gives the same node. */
    method ToPage() returns (page: Page)
      requires LeafFits(entries) && pageId < U32
      ensures DecodeLeaf(page) == Ok(LeafImage(pageId, entries))
    {
      var buf := NewBuffer(LeafPage, pageId, |entries|);
      var cursor := PAGE_SIZE;
      for i := 0 to |entries|
        invariant cursor == PAGE_SIZE - LeafData(entries[..i]) && cursor >= 0
        invariant HeadAt(buf[..], LeafPage, pageId, |entries|)
        invariant forall j :: 0 <= j < i ==> LeafCellAt(buf[..], entries, j)
      {
        LeafOffsets(entries, i);
        WriteLeafCell(buf, entries, i, cursor, pageId);
        cursor := cursor - (|entries[i].key| + |entries[i].value|);
      }
      ghost var p := buf[..];
      CopyInto(buf, 7, LE(cursor, 2));
      page := buf[..];
      LeafRoundTrip(page, p, cursor, pageId, entries);
    }

    function CanFit(keyLen: nat, valLen: nat): bool
      reads this
      requires LeafData(entries) <= PAGE_SIZE
    {
      LeafCanFit(entries, keyLen, valLen)
    }

    /** Sets `key`, keeping the entries sorted; the caller answers for the space. */
    method Upsert(key: Key, value: Value)
      requires Sorted(entries)
      modifies this`entries
      ensures entries == Upserted(old(entries), key, value)
    {
      var i := LowerBound(entries, key);
      if i < |entries| && entries[i].key == key {
        entries := entries[i := entries[i].(value := value)];
      } else {
        entries := entries[..i] + [Entry(key, value)] + entries[i..];
      }
    }

    method Split(newPageId: nat) returns (right: LeafNode, sep: Key)
      requires entries != []
      modifies this`entries
      ensures fresh(right) && right.pageId == newPageId
      ensures entries == old(entries)[..|old(entries)| / 2] && right.entries == old(entries)[|old(entries)| / 2..]
      ensures sep == old(entries)[|old(entries)| / 2].key
    {
      var mid := |entries| / 2;
      var rightEntries := entries[mid..];
      entries := entries[..mid];
      sep := rightEntries[0].key;
      right := new LeafNode(newPageId, rightEntries);
    }

    method Delete(key: Key) returns (existed: bool)
      requires Sorted(entries)
      modifies this`entries
      ensures entries == Removed(old(entries), key) && existed == Found(old(entries), key)
    {
      var i := LowerBound(entries, key);
      if i < |entries| && entries[i].key == key {
        entries := entries[..i] + entries[i + 1..];
        return true;
      }
      return false;
    }
  }

  lemma LeafRoundTrip(page: Page, p: seq<byte>, cursor: nat, id: nat, es: seq<Entry>)
    requires HeadAt(p, LeafPage, id, |es|) && LeafFits(es) && id < U32
    requires forall j :: 0 <= j < |es| ==> LeafCellAt(p, es, j)
    requires page == Overwrite(p, 7, LE(cursor, 2))
    ensures DecodeLeaf(page) == Ok(LeafImage(id, es))
  {
    hide LE, LeafData, LeafSlot, LeafEntriesFrom;
    HeadKept(p, 7, LE(cursor, 2), LeafPage, id, |es|);
    HeadReads(page, LeafPage, id, |es|);
    forall j | 0 <= j < |es| ensures LeafCellAt(page, es, j) {
      assert LeafCellAt(p, es, j);
      LeafOffsets(es, j);
      CellKeptBehind(p, 7, LE(cursor, 2), LEAF_SLOTS_OFFSET + LEAF_SLOT_SIZE * j, LeafSlot(es[j], LeafOffset(es, j)),
                     LeafOffset(es, j), es[j].key + es[j].value);
    }
    LeafCellsRead(page, es, 0);
    assert es[0..] == es;
  }

  // ----- internal nodes -----

  lemma InternalCellKept(p: seq<byte>, es: seq<InternalEntry>, i: nat, j: nat)
    requires |p| == PAGE_SIZE && InternalFits(KeysOf(es)) && j < i < |es| && InternalCellAt(p, es, j)
    ensures InternalOffset(es, i) >= 0 && INTERNAL_SLOTS_OFFSET + INTERNAL_SLOT_SIZE * (i + 1) <= InternalOffset(es, i)
    ensures var off := InternalOffset(es, i);
            InternalCellAt(Overwrite(Overwrite(p, off, es[i].key), INTERNAL_SLOTS_OFFSET + INTERNAL_SLOT_SIZE * i,
                                     InternalSlot(es[i], off)), es, j)
  {
    KeyOffsets(KeysOf(es), i);
    KeyOffsets(KeysOf(es), j);
    KeyDataMonotone(KeysOf(es), j + 1, i);
    CellKept(p, INTERNAL_SLOTS_OFFSET + INTERNAL_SLOT_SIZE * j, InternalSlot(es[j], InternalOffset(es, j)),
        InternalOffset(es, j),
             es[j].key, INTERNAL_SLOTS_OFFSET + INTERNAL_SLOT_SIZE * i, InternalSlot(es[i], InternalOffset(es, i)),
             InternalOffset(es, i), es[i].key);
  }

  ghost predicate InternalHeadAt(p: seq<byte>, id: nat, num: nat, rightChild: nat)
  {
    HeadAt(p, InternalPage, id, num) && p[9..13] == LE(rightChild, 4)
  }

  lemma InternalHeadKept(p: seq<byte>, off: nat, s: seq<byte>, id: nat, num: nat, rightChild: nat)
    requires InternalHeadAt(p, id, num, rightChild) && 7 <= off && off + |s| <= |p| && (off + |s| <= 9 || 13 <= off)
    ensures InternalHeadAt(Overwrite(p, off, s), id, num, rightChild)
  {
    HeadKept(p, off, s, InternalPage, id, num);
    OverwriteMiss(p, off, s, 9, 13);
  }

  method WriteInternalCell(buf: array<byte>, es: seq<InternalEntry>, i: nat, cursor: nat, ghost id: nat,
                           ghost rightChild: nat)
    requires buf.Length == PAGE_SIZE && InternalFits(KeysOf(es)) && i < |es|
    requires cursor == PAGE_SIZE - KeyData(KeysOf(es)[..i])
    requires InternalHeadAt(buf[..], id, |es|, rightChild) && forall j :: 0 <= j < i ==> InternalCellAt(buf[..], es, j)
    modifies buf
    ensures InternalHeadAt(buf[..], id, |es|, rightChild) && forall j :: 0 <= j < i + 1 ==>
        InternalCellAt(buf[..], es, j)
  {
    hide InternalSlot, LE, KeyData, CellAt, Overwrite, InternalHeadAt;
    KeyOffsets(KeysOf(es), i);
    var e := es[i];
    var off, slotOff := cursor - |e.key|, INTERNAL_SLOTS_OFFSET + INTERNAL_SLOT_SIZE * i;
    InternalSlotFields(e, off);
    ghost var p := buf[..];
    CellWritten(p, slotOff, InternalSlot(e, off), off, e.key);
    forall j | 0 <= j < i
      ensures InternalCellAt(Overwrite(Overwrite(p, off, e.key), slotOff, InternalSlot(e, off)), es, j) {
      InternalCellKept(p, es, i, j);
    }
    InternalHeadKept(p, off, e.key, id, |es|, rightChild);
    InternalHeadKept(Overwrite(p, off, e.key), slotOff, InternalSlot(e, off), id, |es|, rightChild);
    CopyInto(buf, off, e.key);
    CopyInto(buf, slotOff, InternalSlot(e, off));
  }

  /** Where a binary search for `k` lands among the separators. */
  function KeyPosition(keys: seq<Key>, k: Key): (i: nat)
    ensures i <= |keys|
    ensures forall j :: 0 <= j < i ==> Less(keys[j], k)
    ensures i < |keys| ==> !Less(keys[i], k)
  {
    if keys != [] && Less(keys[0], k) then
      var r := KeyPosition(keys[1..], k);
      assert forall j :: 0 < j < r + 1 ==> keys[j] == keys[1..][j - 1];
      r + 1
    else 0
  }

  class InternalNode {
    var pageId: nat
    var entries: seq<InternalEntry>
    var rightChild: nat

    constructor (pageId: nat, entries: seq<InternalEntry>, rightChild: nat)
      ensures this.pageId == pageId && this.entries == entries && this.rightChild == rightChild
    {
      this.pageId, this.entries, this.rightChild := pageId, entries, rightChild;
    }

    static method FromPage(page: Page) returns (r: Result<InternalNode>)
      ensures match r
              case Ok(node) => fresh(node) && DecodeInternal(page)
                  == Ok(InternalImage(node.pageId, node.entries, node.rightChild))
              case Err(e) => DecodeInternal(page) == Err(e)
    {
      hide InternalEntryAt, Read;
      if HeaderType(page) != InternalPage {
        return Err(CorruptNode);
      }
      var num := Read(page, 5, 2);
      var es: seq<InternalEntry> := [];
      ghost var all := InternalEntriesFrom(page, 0, num);
      assert all.Ok? ==> es + all.value == all.value;
      for i := 0 to num
        invariant all ==
                  match InternalEntriesFrom(page, i, num) case Ok(rest) => Ok(es + rest) case Err(e) => Err(e)
      {
        var e := InternalEntryAt(page, i);
        if e.Err? {
          return Err(e.error);
        }
        ghost var rest := InternalEntriesFrom(page, i + 1, num);
        assert rest.Ok? ==> es + ([e.value] + rest.value) == (es + [e.value]) + rest.value;
        es := es + [e.value];
      }
      assert es + [] == es;
      var node := new InternalNode(HeaderId(page), es, Read(page, 9, 4));
      return Ok(node);
    }

    /** Serializes the node; reading the page back gives the same node. */
    method ToPage() returns (page: Page)
      requires InternalFits(KeysOf(entries)) && pageId < U32 && rightChild < U32
      requires forall i :: 0 <= i < |entries| ==> entries[i].child < U32
      ensures DecodeInternal(page) == Ok(InternalImage(pageId, entries, rightChild))
    {
      var buf := NewBuffer(InternalPage, pageId, |entries|);
      HeadKept(buf[..], 9, LE(rightChild, 4), InternalPage, pageId, |entries|);
      OverwriteHit(buf[..], 9, LE(rightChild, 4));
      CopyInto(buf, 9, LE(rightChild, 4));
      var cursor := PAGE_SIZE;
      for i := 0 to |entries|
        invariant cursor == PAGE_SIZE - KeyData(KeysOf(entries)[..i]) && cursor >= 0
        invariant InternalHeadAt(buf[..], pageId, |entries|, rightChild)
        invariant forall j :: 0 <= j < i ==> InternalCellAt(buf[..], entries, j)
      {
        KeyOffsets(KeysOf(entries), i);
        WriteInternalCell(buf, entries, i, cursor, pageId, rightChild);
        cursor := cursor - |entries[i].key|;
      }
      ghost var p := buf[..];
      CopyInto(buf, 7, LE(cursor, 2));
      page := buf[..];
      InternalRoundTrip(page, p, cursor, pageId, entries, rightChild);
    }

    function CanFit(keyLen: nat): bool
      reads this
      requires KeyData(KeysOf(entries)) <= PAGE_SIZE
    {
      InternalCanFit(KeysOf(entries), keyLen)
    }

    /** The child to follow for `key`: left of the first separator above it. */
    method FindChild(key: Key) returns (child: nat, index: nat)
      ensures index <= |entries|
      ensures forall j :: 0 <= j < index ==> !Less(key, entries[j].key)
      ensures index < |entries| ==> Less(key, entries[index].key) && child == entries[index].child
      ensures index == |entries| ==> child == rightChild
    {
      for i := 0 to |entries|
        invariant forall j :: 0 <= j < i ==> !Less(key, entries[j].key)
      {
        if Less(key, entries[i].key) {
          return entries[i].child, i;
        }
      }
      return rightChild, |entries|;
    }

    /** Puts `key` at its sorted place, `left` before it and `right` in the pointer after it. */
    method InsertKey(key: Key, left: nat, right: nat)
      modifies this
      ensures pageId == old(pageId)
      ensures var pos := KeyPosition(KeysOf(old(entries)), key);
              var es := old(entries)[..pos] + [InternalEntry(key, left)] + old(entries)[pos..];
              if pos < |old(entries)|
              then entries == es[pos + 1 := es[pos + 1].(child := right)] && rightChild == old(rightChild)
              else entries == es && rightChild == right
    {
      var pos := KeyPosition(KeysOf(entries), key);
      entries := entries[..pos] + [InternalEntry(key, left)] + entries[pos..];
      if pos + 1 < |entries| {
        entries := entries[pos + 1 := entries[pos + 1].(child := right)];
      } else {
        rightChild := right;
      }
    }

    /** Keeps the entries before the middle one, whose child becomes the rightmost here and whose key moves up. */
    method Split(newPageId: nat) returns (right: InternalNode, sep: Key)
      requires entries != []
      modifies this
      ensures fresh(right) && right.pageId == newPageId && pageId == old(pageId)
      ensures var es, mid := old(entries), |old(entries)| / 2;
              && entries == es[..mid] && rightChild == es[mid].child && sep == es[mid].key
              && right.entries == es[mid + 1..] && right.rightChild == old(rightChild)
    {
      var mid := |entries| / 2;
      sep := entries[mid].key;
      var newRight := entries[mid].child;
      var rightEntries := entries[mid + 1..];
      entries := entries[..mid + 1];
      entries := entries[..|entries| - 1];
      right := new InternalNode(newPageId, rightEntries, rightChild);
      rightChild := newRight;
    }
  }

  lemma InternalRoundTrip(page: Page, p: seq<byte>, cursor: nat, id: nat, es: seq<InternalEntry>, rightChild: nat)
    requires InternalHeadAt(p, id, |es|, rightChild) && InternalFits(KeysOf(es)) && id < U32 && rightChild < U32
    requires forall j :: 0 <= j < |es| ==> InternalCellAt(p, es, j) && es[j].child < U32
    requires page == Overwrite(p, 7, LE(cursor, 2))
    ensures DecodeInternal(page) == Ok(InternalImage(id, es, rightChild))
  {
    hide LE, KeyData, InternalSlot, InternalEntriesFrom, FromLE, Pow256;
    InternalHeadKept(p, 7, LE(cursor, 2), id, |es|, rightChild);
    HeadReads(page, InternalPage, id, |es|);
    Widths();
    ReadField(page, 9, LE(rightChild, 4), 0, rightChild, 4);
    forall j | 0 <= j < |es| ensures InternalCellAt(page, es, j) {
      KeyOffsets(KeysOf(es), j);
      CellKeptBehind(p, 7, LE(cursor, 2), INTERNAL_SLOTS_OFFSET
          + INTERNAL_SLOT_SIZE * j, InternalSlot(es[j], InternalOffset(es, j)),
                     InternalOffset(es, j), es[j].key);
    }
    InternalCellsRead(page, es, 0);
    assert es[0..] == es;
  }
}
