/** The meta page kept in two alternating slots, and what survives crashes between and during its commits. */
module MetaPages {
  import opened Bytes
  import opened Entries
  import opened Pages
  import opened Seqs

  const MAGIC: seq<byte> := [71, 77, 71, 82]
  const FREELIST_HEAD_OFFSET := 41

  /** CRC32C is not part of this model: every statement holds for every checksum function. */
  type Checksum = seq<byte> -> u32

  datatype Meta = Meta(magic: seq<byte>, version: u32, rootPageId: u32, nextPageId: u32, txnId: u64, walOffset: u64,
      checksum: u32)

  function Initial(crc: Checksum): Meta
  {
    Sealed(Meta(MAGIC, 1, 0, 2, 0, 0, 0), crc)
  }

  function Fields(m: Meta): (s: seq<byte>)
    ensures |s| == |m.magic| + 28
  {
    m.magic + LE(m.version, 4) + LE(m.rootPageId, 4) + LE(m.nextPageId, 4) + LE(m.txnId, 8) + LE(m.walOffset, 8)
  }

  predicate Validates(m: Meta, crc: Checksum)
  {
    m.checksum == crc(Fields(m))
  }

  function Sealed(m: Meta, crc: Checksum): Meta
  {
    m.(checksum := crc(Fields(m)))
  }

  /** The bytes of a slot that carry meaning: page header, fields, checksum, freelist head. */
  function SlotBytes(m: Meta, slot: nat, freelistHead: u32): (s: seq<byte>)
    ensures |s| == |m.magic| + 41
  {
    [0] + LE(slot, 4) + Fields(m) + LE(m.checksum, 4) + LE(freelistHead, 4)
  }

  function ToPage(m: Meta, slot: nat, freelistHead: u32): Page
    requires |m.magic| == 4
  {
    SlotBytes(m, slot, freelistHead) + seq(4051, _ => 0)
  }

  function FromPage(p: Page): Option<Meta>
  {
    if p[5..9] != MAGIC then None
    else
      Widths();
      LEInverse(p[9..13]);
      LEInverse(p[13..17]);
      LEInverse(p[17..21]);
      LEInverse(p[21..29]);
      LEInverse(p[29..37]);
      LEInverse(p[37..41]);
      Some(Meta(p[5..9], Read(p, 9, 4), Read(p, 13, 4), Read(p, 17, 4), Read(p, 21, 8), Read(p, 29, 8), Read(p, 37, 4)))
  }

  function FreelistHead(p: Page): u32
  {
    Widths();
    LEInverse(p[41..45]);
    Read(p, FREELIST_HEAD_OFFSET, 4)
  }

  /** The meta of a slot, if it has the magic and its checksum holds. */
  function Valid(p: Page, crc: Checksum): Option<Meta>
  {
    match FromPage(p)
    case None => None
    case Some(m) => if Validates(m, crc) then Some(m) else None
  }

  datatype Active = Active(meta: Meta, slot: nat)

  function Newest(m0: Option<Meta>, m1: Option<Meta>): Option<Active>
  {
    match (m0, m1)
    case (Some(a), Some(b)) => if b.txnId > a.txnId then Some(Active(b, 1)) else Some(Active(a, 0))
    case (Some(a), None) => Some(Active(a, 0))
    case (None, Some(b)) => Some(Active(b, 1))
    case (None, None) => None
  }

  function PickActive(p0: Page, p1: Page, crc: Checksum): Option<Active>
  {
    Newest(Valid(p0, crc), Valid(p1, crc))
  }

  // ----- round trip -----

  lemma FieldSlices(m: Meta, slot: nat, freelistHead: u32)
    requires |m.magic| == 4
    ensures var p := SlotBytes(m, slot, freelistHead);
            && p[1..5] == LE(slot, 4) && p[5..9] == m.magic && p[9..13] == LE(m.version, 4)
                && p[13..17] == LE(m.rootPageId, 4)
            && p[17..21] == LE(m.nextPageId, 4) && p[21..29] == LE(m.txnId, 8) && p[29..37] == LE(m.walOffset, 8)
            && p[37..41] == LE(m.checksum, 4) && p[41..45] == LE(freelistHead, 4)
  {
    var f := Fields(m);
    FieldsAt(m);
    hide LE, Fields;
    var p := SlotBytes(m, slot, freelistHead);
    FiveParts([0], LE(slot, 4), f, LE(m.checksum, 4), LE(freelistHead, 4));
    SubSlice(p, 5, 37, 0, 4);
    SubSlice(p, 5, 37, 4, 8);
    SubSlice(p, 5, 37, 8, 12);
    SubSlice(p, 5, 37, 12, 16);
    SubSlice(p, 5, 37, 16, 24);
    SubSlice(p, 5, 37, 24, 32);
  }

  lemma FiveParts(a: seq<byte>, b: seq<byte>, c: seq<byte>, d: seq<byte>, e: seq<byte>)
    requires |a| == 1 && |b| == |d| == |e| == 4 && |c| == 32
    ensures var s := a + b + c + d + e; s[1..5] == b && s[5..37] == c && s[37..41] == d && s[41..45] == e
  {
    var s := a + b + c + d + e;
    assert s[37..41] == d && s[41..45] == e;
  }

  lemma PageSlices(s: seq<byte>, a: nat, b: nat)
    requires |s| == 45 && a <= b <= 45
    ensures (s + seq(4051, _ => 0))[a..b] == s[a..b]
  {
  }

  /** A written slot reads back whole. */
  lemma MetaRoundTrip(m: Meta, slot: nat, freelistHead: u32)
    requires m.magic == MAGIC
    ensures FromPage(ToPage(m, slot, freelistHead)) == Some(m)
    ensures FreelistHead(ToPage(m, slot, freelistHead)) == freelistHead
    ensures HeaderType(ToPage(m, slot, freelistHead)) == MetaPage
        && (slot < U32 ==> HeaderId(ToPage(m, slot, freelistHead)) == slot)
  {
    FieldSlices(m, slot, freelistHead);
    var s := SlotBytes(m, slot, freelistHead);
    PageSlices(s, 1, 5);
    PageSlices(s, 5, 9);
    PageSlices(s, 9, 13);
    PageSlices(s, 13, 17);
    PageSlices(s, 17, 21);
    PageSlices(s, 21, 29);
    PageSlices(s, 29, 37);
    PageSlices(s, 37, 41);
    PageSlices(s, 41, 45);
    hide LE, FromLE, SlotBytes, Fields;
    Widths();
    LERoundTrip(m.version, 4);
    LERoundTrip(m.rootPageId, 4);
    LERoundTrip(m.nextPageId, 4);
    LERoundTrip(m.txnId, 8);
    LERoundTrip(m.walOffset, 8);
    LERoundTrip(m.checksum, 4);
    LERoundTrip(freelistHead, 4);
    if slot < U32 {
      LERoundTrip(slot, 4);
    }
  }

  // ----- which slots are taken -----

  /** A slot's bytes carry the magic, and the checksum stored behind the fields is that of the fields' bytes. */
  predicate SlotSound(p: Page, crc: Checksum)
  {
    p[5..9] == MAGIC && p[37..41] == LE(crc(p[5..37]), 4)
  }

  /** A meta's fields and checksum are the slot's bytes. */
  predicate Carries(p: Page, m: Meta)
  {
    Fields(m) == p[5..37] && LE(m.checksum, 4) == p[37..41]
  }

  lemma FieldsRead(p: Page)
    requires p[5..9] == MAGIC
    ensures FromPage(p).Some? && Carries(p, FromPage(p).value)
  {
    hide LE, FromLE;
    Widths();
    LEInverse(p[9..13]);
    LEInverse(p[13..17]);
    LEInverse(p[17..21]);
    LEInverse(p[21..29]);
    LEInverse(p[29..37]);
    LEInverse(p[37..41]);
    assert p[5..37] == p[5..9] + p[9..13] + p[13..17] + p[17..21] + p[21..29] + p[29..37];
  }

  lemma SameFields(m: Meta, m': Meta)
    requires Fields(m) == Fields(m') && LE(m.checksum, 4) == LE(m'.checksum, 4) && |m.magic| == |m'.magic| == 4
    ensures m == m'
  {
    FieldsAt(m);
    FieldsAt(m');
    hide LE, Fields;
    Widths();
    LERoundTrip(m.version, 4);
    LERoundTrip(m'.version, 4);
    LERoundTrip(m.rootPageId, 4);
    LERoundTrip(m'.rootPageId, 4);
    LERoundTrip(m.nextPageId, 4);
    LERoundTrip(m'.nextPageId, 4);
    LERoundTrip(m.txnId, 8);
    LERoundTrip(m'.txnId, 8);
    LERoundTrip(m.walOffset, 8);
    LERoundTrip(m'.walOffset, 8);
    LERoundTrip(m.checksum, 4);
    LERoundTrip(m'.checksum, 4);
  }

  lemma FieldsAt(m: Meta)
    requires |m.magic| == 4
    ensures var s := Fields(m);
            && s[..4] == m.magic && s[4..8] == LE(m.version, 4) && s[8..12] == LE(m.rootPageId, 4)
            && s[12..16] == LE(m.nextPageId, 4) && s[16..24] == LE(m.txnId, 8) && s[24..32] == LE(m.walOffset, 8)
  {
    SixParts(m.magic, LE(m.version, 4), LE(m.rootPageId, 4), LE(m.nextPageId, 4), LE(m.txnId, 8), LE(m.walOffset, 8));
  }

  lemma SixParts(a: seq<byte>, b: seq<byte>, c: seq<byte>, d: seq<byte>, e: seq<byte>, f: seq<byte>)
    requires |a| == |b| == |c| == |d| == 4 && |e| == |f| == 8
    ensures var s := a + b + c + d + e + f;
            s[..4] == a && s[4..8] == b && s[8..12] == c && s[12..16] == d && s[16..24] == e && s[24..32] == f
  {
    var s := a + b + c + d + e + f;
    assert s[24..32] == f;
  }

  /** A slot counts exactly when its bytes are sound, and then it counts as the meta whose bytes they are. */
  lemma ValidExact(p: Page, m: Meta, crc: Checksum)
    ensures Valid(p, crc).Some? <==> SlotSound(p, crc)
    ensures |m.magic| == 4 ==> (Valid(p, crc) == Some(m) <==> SlotSound(p, crc) && Carries(p, m))
  {
    hide LE, FromLE, Fields, FromPage;
    if p[5..9] == MAGIC {
      FieldsRead(p);
      var found := FromPage(p).value;
      MagicRead(p);
      Widths();
      LERoundTrip(found.checksum, 4);
      LERoundTrip(crc(p[5..37]), 4);
      if |m.magic| == 4 && Carries(p, m) {
        SameFields(m, found);
      }
    } else {
      NotMeta(p);
    }
  }

  lemma MagicRead(p: Page)
    ensures FromPage(p).Some? ==> FromPage(p).value.magic == MAGIC
  {
    hide LE, FromLE;
  }

  lemma NotMeta(p: Page)
    ensures p[5..9] != MAGIC ==> FromPage(p) == None
  {
    hide LE, FromLE;
  }

  /** The transaction id in a slot's bytes. */
  function SlotTxnId(p: Page): nat
  {
    FromLE(p[21..29])
  }

  /** On the bytes of both slots: a database opens exactly when one is sound, and then on the meta of a sound slot whose
      transaction id is the larger, of slot 0 when they are equal. */
  lemma PickExact(p0: Page, p1: Page, a: Active, crc: Checksum)
    ensures PickActive(p0, p1, crc).Some? <==> SlotSound(p0, crc) || SlotSound(p1, crc)
    ensures |a.meta.magic| == 4 ==>
              (PickActive(p0, p1, crc) == Some(a) <==>
               if a.slot == 0 then
                 && SlotSound(p0, crc) && Carries(p0, a.meta)
                 && (SlotSound(p1, crc) ==> SlotTxnId(p1) <= SlotTxnId(p0))
               else
                 && a.slot == 1 && SlotSound(p1, crc) && Carries(p1, a.meta)
                 && (SlotSound(p0, crc) ==> SlotTxnId(p0) < SlotTxnId(p1)))
  {
    hide Valid, SlotSound, Carries, Fields, FromPage;
    ValidExact(p0, a.meta, crc);
    ValidExact(p1, a.meta, crc);
    TxnIdRead(p0, crc);
    TxnIdRead(p1, crc);
  }

  /** The meta taken is that of a sound slot, and the other slot is not sound or has no larger transaction id. */
  predicate TakenFrom(p: Page, other: Page, m: Meta, crc: Checksum)
  {
    SlotSound(p, crc) && Carries(p, m) && (SlotSound(other, crc) ==> SlotTxnId(other) <= SlotTxnId(p))
  }

  lemma PickedTaken(p0: Page, p1: Page, crc: Checksum)
    ensures match PickActive(p0, p1, crc)
            case None => !SlotSound(p0, crc) && !SlotSound(p1, crc)
            case Some(a) =>
              && a.slot <= 1 && (SlotSound(p0, crc) || SlotSound(p1, crc))
              && TakenFrom(if a.slot == 0 then p0 else p1, if a.slot == 0 then p1 else p0, a.meta, crc)
  {
    hide Valid, SlotSound, Carries, Fields;
    var picked := PickActive(p0, p1, crc);
    if picked.None? {
      PickExact(p0, p1, Active(Initial(crc), 0), crc);
    } else {
      ValidMagic(p0, crc);
      ValidMagic(p1, crc);
      PickExact(p0, p1, picked.value, crc);
    }
  }

  lemma ValidMagic(p: Page, crc: Checksum)
    ensures Valid(p, crc).Some? ==> Valid(p, crc).value.magic == MAGIC
  {
    hide FromPage;
    MagicRead(p);
  }

  lemma TxnIdRead(p: Page, crc: Checksum)
    ensures Valid(p, crc).Some? ==> Valid(p, crc).value.txnId == SlotTxnId(p)
  {
    hide LE, FromLE;
  }

  // ----- commits and crashes -----

  /** The two slots on disk, and the meta and slot the running pager took as active. */
  datatype Slots = Slots(p0: Page, p1: Page, active: Active)

  /** What a crash leaves of a slot being written. */
  datatype Fate = Absent | Torn(page: Page) | Complete

  /** A finished commit, or one cut off by a crash and followed by a reopening. */
  datatype Event = Commit(meta: Meta, freelistHead: u32) | Crash(meta: Meta, freelistHead: u32, fate: Fate)

  ghost predicate Consistent(s: Slots, crc: Checksum)
  {
    s.active.slot <= 1 && PickActive(s.p0, s.p1, crc) == Some(s.active)
  }

  function WriteOther(s: Slots, p: Page): Slots
    requires s.active.slot <= 1
  {
    if s.active.slot == 0 then s.(p1 := p) else s.(p0 := p)
  }

  function Reopened(s: Slots, crc: Checksum): Option<Slots>
  {
    match PickActive(s.p0, s.p1, crc)
    case None => None
    case Some(a) => Some(s.(active := a))
  }

  /** One event; `None` would be a database that cannot be opened any more. */
  function Step(s: Slots, e: Event, crc: Checksum): Option<Slots>
    requires s.active.slot <= 1 && e.meta.magic == MAGIC
  {
    var m := Sealed(e.meta, crc);
    var written := ToPage(m, 1 - s.active.slot, e.freelistHead);
    match e
    case Commit(_, _) => Some(WriteOther(s, written).(active := Active(m, 1 - s.active.slot)))
    case Crash(_, _, Absent) => Reopened(s, crc)
    case Crash(_, _, Torn(p)) => Reopened(WriteOther(s, p), crc)
    case Crash(_, _, Complete) => Reopened(WriteOther(s, written), crc)
  }

  /** A torn write leaves a page with a wrong checksum (or magic). */
  predicate TornFails(e: Event, crc: Checksum)
  {
    e.Crash? && e.fate.Torn? ==> !SlotSound(e.fate.page, crc)
  }

  /** The meta that ought to be found: the last one committed, or one whose write completed before its crash. */
  function Expected(last: Meta, e: Event, crc: Checksum): Meta
  {
    if e.Commit? || e.fate.Complete? then Sealed(e.meta, crc) else last
  }

  lemma NewestWins(old0: Option<Meta>, old1: Option<Meta>, slot: nat, a: Meta, m: Meta)
    requires Newest(old0, old1) == Some(Active(a, slot)) && m.txnId > a.txnId
    ensures slot <= 1
    ensures slot == 0 ==> Newest(old0, Some(m)) == Some(Active(m, 1)) && Newest(old0, None) == Some(Active(a, 0))
    ensures slot == 1 ==> Newest(Some(m), old1) == Some(Active(m, 0)) && Newest(None, old1) == Some(Active(a, 1))
  {
  }

  lemma SealedValid(m: Meta, slot: nat, freelistHead: u32, crc: Checksum)
    requires m.magic == MAGIC
    ensures Valid(ToPage(Sealed(m, crc), slot, freelistHead), crc) == Some(Sealed(m, crc))
  {
    MetaRoundTrip(Sealed(m, crc), slot, freelistHead);
    hide FromPage, ToPage;
    assert Fields(m) == Fields(Sealed(m, crc));
  }

  lemma StepConsistent(s: Slots, e: Event, crc: Checksum)
    requires Consistent(s, crc) && e.meta.magic == MAGIC && e.meta.txnId > s.active.meta.txnId && TornFails(e, crc)
    ensures Step(s, e, crc).Some? && Consistent(Step(s, e, crc).value, crc)
    ensures Step(s, e, crc).value.active.meta == Expected(s.active.meta, e, crc)
  {
    hide Valid, ToPage, Newest, SlotSound;
    if e.Crash? && e.fate.Torn? {
      ValidExact(e.fate.page, s.active.meta, crc);
    }
    NewestWins(Valid(s.p0, crc), Valid(s.p1, crc), s.active.slot, s.active.meta, Sealed(e.meta, crc));
    SealedValid(e.meta, 1 - s.active.slot, e.freelistHead, crc);
  }

  /** Transaction ids grow from one attempted commit to the next, whatever became of it. */
  ghost predicate Growing(last: Meta, events: seq<Event>, crc: Checksum)
    decreases |events|
  {
    events != [] ==>
      && events[0].meta.magic == MAGIC && events[0].meta.txnId > last.txnId && TornFails(events[0], crc)
      && Growing(Expected(last, events[0], crc), events[1..], crc)
  }

  function Run(s: Slots, events: seq<Event>, crc: Checksum): Option<Slots>
    decreases |events|
  {
    if events == [] then Some(s)
    else if s.active.slot > 1 || events[0].meta.magic != MAGIC then None
    else
      match Step(s, events[0], crc)
      case None => None
      case Some(s') => Run(s', events[1..], crc)
  }

  function ExpectedAfter(last: Meta, events: seq<Event>, crc: Checksum): Meta
    decreases |events|
  {
    if events == [] then last else ExpectedAfter(Expected(last, events[0], crc), events[1..], crc)
  }

  /** Over any run of commits and crashes the database opens on the last committed meta or the one being
      committed: never on none, and never on an older one. */
  lemma {:induction false} RunSurvives(s: Slots, events: seq<Event>, crc: Checksum)
    requires Consistent(s, crc) && Growing(s.active.meta, events, crc)
    ensures Run(s, events, crc).Some? && Consistent(Run(s, events, crc).value, crc)
    ensures Run(s, events, crc).value.active.meta == ExpectedAfter(s.active.meta, events, crc)
    ensures ExpectedAfter(s.active.meta, events, crc).txnId >= s.active.meta.txnId
    decreases |events|
  {
    hide Step, PickActive;
    if events != [] {
      StepConsistent(s, events[0], crc);
      RunSurvives(Step(s, events[0], crc).value, events[1..], crc);
    }
  }

  /** A new database starts consistent, on slot 0. */
  lemma CreatedConsistent(crc: Checksum)
    ensures var m := Initial(crc);
            Consistent(Slots(ToPage(m, 0, 0), ToPage(m, 1, 0), Active(m, 0)), crc)
  {
    var m := Meta(MAGIC, 1, 0, 2, 0, 0, 0);
    SealedValid(m, 0, 0, crc);
    SealedValid(m, 1, 0, crc);
    hide Valid, ToPage;
  }
}
