/** Sorted sequences of key/value entries: the contents of a leaf, of a tree, and of a scan. */
module Entries {
  import opened Bytes
  import opened Seqs

  type Key = seq<byte>
  type Value = seq<byte>

  datatype Option<+T> = None | Some(value: T)

  datatype Entry = Entry(key: Key, value: Value)

  ghost predicate Sorted(es: seq<Entry>)
  {
    forall i, j :: 0 <= i < j < |es| ==> Less(es[i].key, es[j].key)
  }

  /** Where a binary search for `k` lands: the number of leading entries below `k`. */
  function LowerBound(es: seq<Entry>, k: Key): (i: nat)
    ensures i <= |es|
    ensures forall j :: 0 <= j < i ==> Less(es[j].key, k)
    ensures i < |es| ==> !Less(es[i].key, k)
  {
    if es != [] && Less(es[0].key, k) then
      var r := LowerBound(es[1..], k);
      assert forall j :: 0 < j < r + 1 ==> es[j] == es[1..][j - 1];
      r + 1
    else 0
  }

  predicate Found(es: seq<Entry>, k: Key)
  {
    var i := LowerBound(es, k);
    i < |es| && es[i].key == k
  }

  function Lookup(es: seq<Entry>, k: Key): Option<Value>
  {
    if Found(es, k) then Some(es[LowerBound(es, k)].value) else None
  }

  function Upserted(es: seq<Entry>, k: Key, v: Value): seq<Entry>
  {
    var i := LowerBound(es, k);
    if Found(es, k) then es[i := Entry(k, v)] else es[..i] + [Entry(k, v)] + es[i..]
  }

  function Removed(es: seq<Entry>, k: Key): seq<Entry>
  {
    var i := LowerBound(es, k);
    if Found(es, k) then es[..i] + es[i + 1..] else es
  }

  /** The entries with `lo <= key <= hi`, in their order. */
  function Within(es: seq<Entry>, lo: Key, hi: Key): seq<Entry>
  {
    if es == [] then []
    else (if AtMost(lo, es[0].key) && AtMost(es[0].key, hi) then [es[0]] else []) + Within(es[1..], lo, hi)
  }

  /** The map the entries stand for. */
  function MapOf(es: seq<Entry>): map<Key, Value>
  {
    if es == [] then map[] else MapOf(es[..|es| - 1])[es[|es| - 1].key := es[|es| - 1].value]
  }

  // ----- lower bound -----

  /** Only one index separates the keys below `k` from the rest. */
  lemma LowerBoundUnique(es: seq<Entry>, k: Key, i: nat)
    requires i <= |es|
    requires forall j :: 0 <= j < i ==> Less(es[j].key, k)
    requires i < |es| ==> !Less(es[i].key, k)
    ensures LowerBound(es, k) == i
  {
  }

  lemma FoundIff(es: seq<Entry>, k: Key)
    requires Sorted(es)
    ensures Found(es, k) <==> exists i :: 0 <= i < |es| && es[i].key == k
  {
    Order();
    forall i | 0 <= i < |es| && es[i].key == k ensures Found(es, k) {
      LowerBoundUnique(es, k, i);
    }
  }

  // ----- locality: an operation on k only sees the part of a concatenation that k falls into -----

  ghost predicate AllBelow(es: seq<Entry>, k: Key)
  {
    forall i :: 0 <= i < |es| ==> Less(es[i].key, k)
  }

  ghost predicate AllAbove(es: seq<Entry>, k: Key)
  {
    forall i :: 0 <= i < |es| ==> Less(k, es[i].key)
  }

  lemma LowerBoundMiddle(a: seq<Entry>, m: seq<Entry>, c: seq<Entry>, k: Key)
    requires AllBelow(a, k) && AllAbove(c, k)
    ensures LowerBound(a + m + c, k) == |a| + LowerBound(m, k)
    ensures Found(a + m + c, k) == Found(m, k)
  {
    Order();
    var i := |a| + LowerBound(m, k);
    var s := a + m + c;
    assert forall j :: 0 <= j < i ==> Less(s[j].key, k);
    if i < |s| {
      if i == |a| + |m| { assert s[i] == c[0]; } else { assert s[i] == m[i - |a|]; }
      assert !Less(s[i].key, k);
    }
    LowerBoundUnique(s, k, i);
  }

  lemma UpsertedMiddle(a: seq<Entry>, m: seq<Entry>, c: seq<Entry>, k: Key, v: Value)
    requires AllBelow(a, k) && AllAbove(c, k)
    ensures Upserted(a + m + c, k, v) == a + Upserted(m, k, v) + c
  {
    LowerBoundMiddle(a, m, c, k);
    var j := LowerBound(m, k);
    if Found(m, k) {
      UpdateMiddle(a, m, c, j, Entry(k, v));
    } else {
      CutMiddle(a, m, c, j);
      Assoc5(a, m[..j], [Entry(k, v)], m[j..], c);
    }
  }

  lemma RemovedMiddle(a: seq<Entry>, m: seq<Entry>, c: seq<Entry>, k: Key)
    requires AllBelow(a, k) && AllAbove(c, k)
    ensures Removed(a + m + c, k) == a + Removed(m, k) + c
  {
    LowerBoundMiddle(a, m, c, k);
    var j := LowerBound(m, k);
    if Found(m, k) {
      CutMiddle(a, m, c, j);
      CutMiddle(a, m, c, j + 1);
      Assoc4(a, m[..j], m[j + 1..], c);
    }
  }

  lemma LookupMiddle(a: seq<Entry>, m: seq<Entry>, c: seq<Entry>, k: Key)
    requires AllBelow(a, k) && AllAbove(c, k)
    ensures Lookup(a + m + c, k) == Lookup(m, k)
  {
    LowerBoundMiddle(a, m, c, k);
    if Found(m, k) {
      UpdateMiddle(a, m, c, LowerBound(m, k), m[LowerBound(m, k)]);
    }
  }

  // ----- what the operations keep -----

  lemma UpsertedSorted(es: seq<Entry>, k: Key, v: Value)
    requires Sorted(es)
    ensures Sorted(Upserted(es, k, v))
    ensures forall i :: 0 <= i < |Upserted(es, k, v)| ==>
              Upserted(es, k, v)[i].key == k || exists j :: 0 <= j < |es| && es[j] == Upserted(es, k, v)[i]
  {
    Order();
    var i := LowerBound(es, k);
    if !Found(es, k) {
      forall j | i <= j < |es| ensures Less(k, es[j].key) {
        assert j > i ==> Less(es[i].key, es[j].key);
      }
    }
  }

  lemma RemovedSorted(es: seq<Entry>, k: Key)
    requires Sorted(es)
    ensures Sorted(Removed(es, k))
    ensures forall i :: 0 <= i < |Removed(es, k)| ==> exists j :: 0 <= j < |es| && es[j] == Removed(es, k)[i]
  {
  }

  // ----- the map view -----

  lemma {:induction false} MapOfMember(es: seq<Entry>, k: Key)
    requires Sorted(es)
    ensures k in MapOf(es) <==> exists i :: 0 <= i < |es| && es[i].key == k
    ensures forall i :: 0 <= i < |es| && es[i].key == k ==> k in MapOf(es) && MapOf(es)[k] == es[i].value
  {
    Order();
    if es != [] {
      var n := |es| - 1;
      MapOfMember(es[..n], k);
      forall i | 0 <= i < |es| && es[i].key == k ensures k in MapOf(es) && MapOf(es)[k] == es[i].value {
        if i < n { assert es[..n][i] == es[i]; }
      }
    }
  }

  lemma LookupMap(es: seq<Entry>, k: Key)
    requires Sorted(es)
    ensures Lookup(es, k) == if k in MapOf(es) then Some(MapOf(es)[k]) else None
  {
    FoundIff(es, k);
    MapOfMember(es, k);
  }

  lemma {:induction false} MapOfConcat(a: seq<Entry>, c: seq<Entry>)
    ensures MapOf(a + c) == MapOf(a) + MapOf(c)
  {
    if c == [] {
      assert a + c == a;
    } else {
      assert (a + c)[..|a + c| - 1] == a + c[..|c| - 1];
      MapOfConcat(a, c[..|c| - 1]);
    }
  }

  lemma {:induction false} MapOfLacks(es: seq<Entry>, k: Key)
    requires forall i :: 0 <= i < |es| ==> es[i].key != k
    ensures k !in MapOf(es)
  {
    if es != [] {
      MapOfLacks(es[..|es| - 1], k);
    }
  }

  /** `es` around the place of `k`: what is below it, its entry if any, what is above it. */
  lemma AroundKey(es: seq<Entry>, k: Key)
    requires Sorted(es)
    ensures var i := LowerBound(es, k);
            var a, c := es[..i], es[if Found(es, k) then i + 1 else i..];
            && k !in MapOf(a) && k !in MapOf(c)
            && MapOf(es) == (if Found(es, k) then MapOf(a)[k := es[i].value] else MapOf(a)) + MapOf(c)
  {
    Order();
    var i := LowerBound(es, k);
    var a, c := es[..i], es[if Found(es, k) then i + 1 else i..];
    forall j | 0 <= j < |c| ensures c[j].key != k {
      if !Found(es, k) && j > 0 { assert Less(es[i].key, es[i + j].key); }
    }
    MapOfLacks(a, k);
    MapOfLacks(c, k);
    if Found(es, k) {
      Around(es, i);
      MapOfConcat(a + [es[i]], c);
      assert (a + [es[i]])[..i] == a;
    } else {
      TakeDrop(es, i);
      MapOfConcat(a, c);
    }
  }

  lemma OverwriteMiddle(a: map<Key, Value>, c: map<Key, Value>, k: Key, v: Value, w: Value)
    requires k !in a && k !in c
    ensures a[k := w] + c == (a + c)[k := w] == (a[k := v] + c)[k := w]
    ensures a + c == (a[k := v] + c) - {k} == (a + c) - {k}
  {
  }

  lemma UpsertedMap(es: seq<Entry>, k: Key, v: Value)
    requires Sorted(es)
    ensures MapOf(Upserted(es, k, v)) == MapOf(es)[k := v]
  {
    var i := LowerBound(es, k);
    var a, c := es[..i], es[if Found(es, k) then i + 1 else i..];
    assert MapOf(Upserted(es, k, v)) == MapOf(a)[k := v] + MapOf(c) by {
      assert Upserted(es, k, v) == (a + [Entry(k, v)]) + c;
      MapOfConcat(a + [Entry(k, v)], c);
      assert (a + [Entry(k, v)])[..i] == a;
    }
    AroundKey(es, k);
    OverwriteMiddle(MapOf(a), MapOf(c), k, if Found(es, k) then es[i].value else v, v);
  }

  lemma RemovedMap(es: seq<Entry>, k: Key)
    requires Sorted(es)
    ensures MapOf(Removed(es, k)) == MapOf(es) - {k}
    ensures Found(es, k) <==> k in MapOf(es)
  {
    var i := LowerBound(es, k);
    var a, c := es[..i], es[if Found(es, k) then i + 1 else i..];
    assert MapOf(Removed(es, k)) == MapOf(a) + MapOf(c) by {
      assert Removed(es, k) == a + c;
      MapOfConcat(a, c);
    }
    AroundKey(es, k);
    var v := if Found(es, k) then es[i].value else [];
    OverwriteMiddle(MapOf(a), MapOf(c), k, v, v);
  }

  // ----- ranges -----

  lemma {:induction false} WithinConcat(a: seq<Entry>, c: seq<Entry>, lo: Key, hi: Key)
    ensures Within(a + c, lo, hi) == Within(a, lo, hi) + Within(c, lo, hi)
  {
    if a == [] {
      assert a + c == c;
    } else {
      assert (a + c)[1..] == a[1..] + c;
      WithinConcat(a[1..], c, lo, hi);
    }
  }

  lemma {:induction false} WithinNone(es: seq<Entry>, lo: Key, hi: Key)
    requires forall i :: 0 <= i < |es| ==> Less(es[i].key, lo) || Less(hi, es[i].key)
    ensures Within(es, lo, hi) == []
  {
    if es != [] {
      WithinNone(es[1..], lo, hi);
    }
  }

  /** A scan of sorted entries is sorted and holds exactly the entries in range. */
  lemma {:induction false} WithinExact(es: seq<Entry>, lo: Key, hi: Key)
    requires Sorted(es)
    ensures Sorted(Within(es, lo, hi))
    ensures forall e :: e in Within(es, lo, hi) <==> e in es && AtMost(lo, e.key) && AtMost(e.key, hi)
  {
    if es != [] {
      assert Sorted(es[1..]);
      WithinExact(es[1..], lo, hi);
      var r := Within(es[1..], lo, hi);
      forall i | 0 <= i < |r| ensures Less(es[0].key, r[i].key) {
        assert r[i] in es[1..];
      }
      assert forall e :: e in es <==> e == es[0] || e in es[1..];
    }
  }
}
