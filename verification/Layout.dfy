/** Space arithmetic of the slotted 4096-byte node pages. */
module Layout {
  import opened Entries

  const PAGE_SIZE := 4096
  const LEAF_SLOTS_OFFSET := 9
  const LEAF_SLOT_SIZE := 6
  const INTERNAL_SLOTS_OFFSET := 13
  const INTERNAL_SLOT_SIZE := 8
  const MAX_KEY_SIZE := 1000
  const MAX_VALUE_SIZE := 1000

  /** Bytes of keys and values in a leaf. */
  function LeafData(es: seq<Entry>): nat
  {
    if es == [] then 0 else |es[0].key| + |es[0].value| + LeafData(es[1..])
  }

  /** Bytes of keys in an internal node. */
  function KeyData(keys: seq<Key>): nat
  {
    if keys == [] then 0 else |keys[0]| + KeyData(keys[1..])
  }

  /** Slots and data of a leaf together stay inside the page. */
  predicate LeafFits(es: seq<Entry>)
  {
    LEAF_SLOTS_OFFSET + LEAF_SLOT_SIZE * |es| + LeafData(es) <= PAGE_SIZE
  }

  predicate InternalFits(keys: seq<Key>)
  {
    INTERNAL_SLOTS_OFFSET + INTERNAL_SLOT_SIZE * |keys| + KeyData(keys) <= PAGE_SIZE
  }

  /** The code subtracts in `usize`, so the data must not exceed the page. */
  function LeafFreeSpace(es: seq<Entry>): nat
    requires LeafData(es) <= PAGE_SIZE
  {
    var slotEnd := LEAF_SLOTS_OFFSET + |es| * LEAF_SLOT_SIZE;
    var dataStart := PAGE_SIZE - LeafData(es);
    if dataStart > slotEnd then dataStart - slotEnd else 0
  }

  predicate LeafCanFit(es: seq<Entry>, keyLen: nat, valLen: nat)
    requires LeafData(es) <= PAGE_SIZE
  {
    LeafFreeSpace(es) >= LEAF_SLOT_SIZE + keyLen + valLen
  }

  function InternalFreeSpace(keys: seq<Key>): nat
    requires KeyData(keys) <= PAGE_SIZE
  {
    var slotEnd := INTERNAL_SLOTS_OFFSET + |keys| * INTERNAL_SLOT_SIZE;
    var dataStart := PAGE_SIZE - KeyData(keys);
    if dataStart > slotEnd then dataStart - slotEnd else 0
  }

  predicate InternalCanFit(keys: seq<Key>, keyLen: nat)
    requires KeyData(keys) <= PAGE_SIZE
  {
    InternalFreeSpace(keys) >= INTERNAL_SLOT_SIZE + keyLen
  }

  lemma {:induction false} LeafDataConcat(a: seq<Entry>, c: seq<Entry>)
    ensures LeafData(a + c) == LeafData(a) + LeafData(c)
  {
    if a == [] {
      assert a + c == c;
    } else {
      assert (a + c)[1..] == a[1..] + c;
      LeafDataConcat(a[1..], c);
    }
  }

  lemma {:induction false} KeyDataConcat(a: seq<Key>, c: seq<Key>)
    ensures KeyData(a + c) == KeyData(a) + KeyData(c)
  {
    if a == [] {
      assert a + c == c;
    } else {
      assert (a + c)[1..] == a[1..] + c;
      KeyDataConcat(a[1..], c);
    }
  }

  lemma LeafDataOne(e: Entry)
    ensures LeafData([e]) == |e.key| + |e.value|
  {
    assert [e][1..] == [];
  }

  lemma LeafDataInsert(es: seq<Entry>, i: nat, e: Entry)
    requires i <= |es|
    ensures LeafData(es[..i] + [e] + es[i..]) == LeafData(es) + |e.key| + |e.value|
  {
    assert es == es[..i] + es[i..];
    LeafDataConcat(es[..i], es[i..]);
    LeafDataConcat(es[..i] + [e], es[i..]);
    LeafDataConcat(es[..i], [e]);
  }

  lemma KeyDataInsert(keys: seq<Key>, i: nat, k: Key)
    requires i <= |keys|
    ensures KeyData(keys[..i] + [k] + keys[i..]) == KeyData(keys) + |k|
  {
    assert keys == keys[..i] + keys[i..];
    KeyDataConcat(keys[..i], keys[i..]);
    KeyDataConcat(keys[..i] + [k], keys[i..]);
    KeyDataConcat(keys[..i], [k]);
  }

  lemma LeafDataUpdate(es: seq<Entry>, i: nat, e: Entry)
    requires i < |es|
    ensures LeafData(es[i := e]) + |es[i].key| + |es[i].value| == LeafData(es) + |e.key| + |e.value|
  {
    assert es == es[..i] + ([es[i]] + es[i + 1..]);
    assert es[i := e] == es[..i] + ([e] + es[i + 1..]);
    LeafDataConcat(es[..i], [es[i]] + es[i + 1..]);
    LeafDataConcat(es[..i], [e] + es[i + 1..]);
  }

  /** `can_fit` answers yes exactly when the leaf with the new entry still fits. */
  lemma LeafCanFitExact(es: seq<Entry>, i: nat, e: Entry)
    requires LeafData(es) <= PAGE_SIZE && i <= |es|
    ensures LeafCanFit(es, |e.key|, |e.value|) <==> LeafFits(es[..i] + [e] + es[i..])
  {
    LeafDataInsert(es, i, e);
  }

  lemma InternalCanFitExact(keys: seq<Key>, i: nat, k: Key)
    requires KeyData(keys) <= PAGE_SIZE && i <= |keys|
    ensures InternalCanFit(keys, |k|) <==> InternalFits(keys[..i] + [k] + keys[i..])
  {
    KeyDataInsert(keys, i, k);
  }

  // ----- splits -----

  function LeafCost(es: seq<Entry>): nat
  {
    LEAF_SLOT_SIZE * |es| + LeafData(es)
  }

  function InternalCost(keys: seq<Key>): nat
  {
    INTERNAL_SLOT_SIZE * |keys| + KeyData(keys)
  }

  /** A full leaf that gains entry `e` and is cut at `mid`: a half fits exactly when the other half costs
      at least what the page lacked; in particular when it costs no less than the new entry. */
  lemma LeafSplitFits(es: seq<Entry>, i: nat, e: Entry, mid: nat)
    requires LeafFits(es) && i <= |es| && mid <= |es| + 1
    ensures var all := es[..i] + [e] + es[i..];
            var slack := PAGE_SIZE - LEAF_SLOTS_OFFSET - LeafCost(es);
            && (LeafFits(all[..mid]) <==> LeafCost(all[mid..]) + slack >= LeafCost([e]))
            && (LeafFits(all[mid..]) <==> LeafCost(all[..mid]) + slack >= LeafCost([e]))
            && (LeafCost(all[mid..]) >= LeafCost([e]) && LeafCost(all[..mid]) >= LeafCost([e]) ==>
                  LeafFits(all[..mid]) && LeafFits(all[mid..]))
  {
    var all := es[..i] + [e] + es[i..];
    LeafDataInsert(es, i, e);
    assert all == all[..mid] + all[mid..];
    LeafDataConcat(all[..mid], all[mid..]);
    assert LeafData([e]) == |e.key| + |e.value|;
    assert |all| == |all[..mid]| + |all[mid..]|;
    assert LeafCost(all) == LeafCost(es) + LeafCost([e]);
    assert LeafCost(all) == LeafCost(all[..mid]) + LeafCost(all[mid..]);
  }

  /** The same for an internal node, whose middle key moves up: it counts with either half. */
  lemma InternalSplitFits(keys: seq<Key>, i: nat, k: Key, mid: nat)
    requires InternalFits(keys) && i <= |keys| && mid <= |keys|
    ensures var all := keys[..i] + [k] + keys[i..];
            var slack := PAGE_SIZE - INTERNAL_SLOTS_OFFSET - InternalCost(keys);
            && (InternalFits(all[..mid]) <==> InternalCost(all[mid..]) + slack >= InternalCost([k]))
            && (InternalFits(all[mid + 1..]) <==> InternalCost(all[..mid + 1]) + slack >= InternalCost([k]))
            && (InternalCost(all[mid..]) >= InternalCost([k]) && InternalCost(all[..mid + 1]) >= InternalCost([k]) ==>
                  InternalFits(all[..mid]) && InternalFits(all[mid + 1..]))
  {
    var all := keys[..i] + [k] + keys[i..];
    KeyDataInsert(keys, i, k);
    assert all == all[..mid] + all[mid..] == all[..mid + 1] + all[mid + 1..];
    KeyDataConcat(all[..mid], all[mid..]);
    KeyDataConcat(all[..mid + 1], all[mid + 1..]);
    assert KeyData([k]) == |k|;
    assert InternalCost(all) == InternalCost(keys) + InternalCost([k]);
    assert InternalCost(all) == InternalCost(all[..mid]) + InternalCost(all[mid..]);
    assert InternalCost(all) == InternalCost(all[..mid + 1]) + InternalCost(all[mid + 1..]);
  }

  // ----- fixed-size entries -----

  lemma {:induction false} LeafDataFixed(es: seq<Entry>, kl: nat, vl: nat)
    requires forall i :: 0 <= i < |es| ==> |es[i].key| == kl && |es[i].value| == vl
    ensures LeafCost(es) == (LEAF_SLOT_SIZE + kl + vl) * |es|
  {
    if es != [] {
      LeafDataFixed(es[1..], kl, vl);
    }
  }

  lemma {:induction false} KeyDataFixed(keys: seq<Key>, kl: nat)
    requires forall i :: 0 <= i < |keys| ==> |keys[i]| == kl
    ensures InternalCost(keys) == (INTERNAL_SLOT_SIZE + kl) * |keys|
  {
    if keys != [] {
      KeyDataFixed(keys[1..], kl);
    }
  }
}
