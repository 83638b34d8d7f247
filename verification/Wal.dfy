/** The write-ahead log: framed records, a reader that stops at a torn tail, and recovery. */
module Wals {
  import opened Bytes
  import opened Entries
  import opened MetaPages
  import opened Pages
  import opened Results
  import opened Seqs

  const PAGE_WRITE := 1
  const COMMIT := 2
  const CHECKPOINT := 3

  datatype Record = PageWrite(pageId: u32, data: Page) | CommitRecord(txnId: u64) | Checkpoint(txnId: u64)

  // ----- records -----

  function RecordType(r: Record): byte
  {
    match r
    case PageWrite(_, _) => PAGE_WRITE
    case CommitRecord(_) => COMMIT
    case Checkpoint(_) => CHECKPOINT
  }

  function Payload(r: Record): seq<byte>
  {
    match r
    case PageWrite(id, data) => LE(id, 4) + data
    case CommitRecord(txn) => LE(txn, 8)
    case Checkpoint(txn) => LE(txn, 8)
  }

  /** A record from its type and payload; any other type or length is corrupt. */
  function FromRaw(recordType: byte, payload: seq<byte>): Result<Record>
  {
    Widths();
    if recordType == PAGE_WRITE then
      if |payload| != 4100 then Err(CorruptRecord)
      else
        LEInverse(payload[..4]);
        Ok(PageWrite(FromLE(payload[..4]), payload[4..]))
    else if recordType == COMMIT || recordType == CHECKPOINT then
      if |payload| != 8 then Err(CorruptRecord)
      else
        LEInverse(payload);
        Ok(if recordType == COMMIT then CommitRecord(FromLE(payload)) else Checkpoint(FromLE(payload)))
    else Err(CorruptRecord)
  }

  /** Decoding undoes encoding, and only encodings decode. */
  lemma RecordRoundTrip(r: Record, recordType: byte, payload: seq<byte>)
    ensures FromRaw(RecordType(r), Payload(r)) == Ok(r)
    ensures FromRaw(recordType, payload) == Ok(r) ==> recordType == RecordType(r) && payload == Payload(r)
  {
    Widths();
    match r
    case PageWrite(id, data) =>
      LERoundTrip(id, 4);
      assert Payload(r)[..4] == LE(id, 4) && Payload(r)[4..] == data;
      if FromRaw(recordType, payload) == Ok(r) {
        LEInverse(payload[..4]);
        assert payload == payload[..4] + payload[4..];
      }
    case CommitRecord(txn) =>
      LERoundTrip(txn, 8);
      if FromRaw(recordType, payload) == Ok(r) {
        LEInverse(payload);
      }
    case Checkpoint(txn) =>
      LERoundTrip(txn, 8);
      if FromRaw(recordType, payload) == Ok(r) {
        LEInverse(payload);
      }
  }

  function Body(r: Record): seq<byte>
  {
    [RecordType(r)] + Payload(r)
  }

  /** The bytes of each kind of record. */
  lemma RecordBytes(id: u32, data: Page, txn: u64)
    ensures Body(PageWrite(id, data)) == [1] + LE(id, 4) + data
    ensures Body(CommitRecord(txn)) == [2] + LE(txn, 8) && Body(Checkpoint(txn)) == [3] + LE(txn, 8)
  {
    Regroup3([1], LE(id, 4), data);
  }

  /** A record as it lies in the file: length, type and payload, checksum. */
  function Frame(r: Record, crc: Checksum): seq<byte>
  {
    FrameOf(Body(r), crc)
  }

  function FrameOf(body: seq<byte>, crc: Checksum): seq<byte>
  {
    LE(|body|, 4) + body + LE(crc(body), 4)
  }

  /** The file after these records were appended. */
  function Log(rs: seq<Record>, crc: Checksum): seq<byte>
  {
    if rs == [] then [] else Frame(rs[0], crc) + Log(rs[1..], crc)
  }

  lemma {:induction false} LogConcat(a: seq<Record>, c: seq<Record>, crc: Checksum)
    ensures Log(a + c, crc) == Log(a, crc) + Log(c, crc)
  {
    if a == [] {
      assert a + c == c;
    } else {
      assert (a + c)[1..] == a[1..] + c;
      LogConcat(a[1..], c, crc);
    }
  }

  // ----- reading -----

  /** What one step of the reader meets: the end (or a torn or checksum-failing tail), a whole frame that
      does not parse, or a record and the bytes it took. */
  datatype Step = End | Corrupt(error: Error) | Got(record: Record, used: nat)

  function ReadStep(s: seq<byte>, crc: Checksum): Step
  {
    if |s| < 4 then End
    else
      var length := FromLE(s[..4]);
      if length == 0 || |s| < 4 + length + 4 || FromLE(s[4 + length..4 + length + 4]) != crc(s[4..4 + length]) then End
      else
        match FromRaw(s[4], s[5..4 + length])
        case Ok(r) => Got(r, 4 + length + 4)
        case Err(e) => Corrupt(e)
  }

  /** All records from here to the end, or the first corrupt one's error. */
  function ReadAll(s: seq<byte>, crc: Checksum): Result<seq<Record>>
    decreases |s|
  {
    match ReadStep(s, crc)
    case End => Ok([])
    case Corrupt(e) => Err(e)
    case Got(r, used) =>
      match ReadAll(s[used..], crc)
      case Ok(rs) => Ok([r] + rs)
      case Err(e) => Err(e)
  }

  lemma LogStarts(rs: seq<Record>, m: nat, crc: Checksum)
    requires 0 < m <= |rs|
    ensures |Log(rs[..m], crc)| == |Frame(rs[0], crc)| + |Log(rs[1..][..m - 1], crc)|
  {
    hide Frame;
    assert rs[..m][0] == rs[0] && rs[..m][1..] == rs[1..][..m - 1];
  }

  /** The number of leading records whose frames end within the first `n` bytes. */
  function WholeRecords(rs: seq<Record>, n: nat, crc: Checksum): (m: nat)
    ensures m <= |rs| && |Log(rs[..m], crc)| <= n
    ensures m < |rs| ==> n < |Log(rs[..m + 1], crc)|
  {
    if rs == [] || n < |Frame(rs[0], crc)| then
      assert rs != [] ==> |Log(rs[..1], crc)| == |Frame(rs[0], crc)| by {
        if rs != [] {
          LogStarts(rs, 1, crc);
        }
      }
      0
    else
      var m := WholeRecords(rs[1..], n - |Frame(rs[0], crc)|, crc);
      LogStarts(rs, m + 1, crc);
      assert m + 1 < |rs| ==> |Log(rs[..m + 2], crc)| == |Frame(rs[0], crc)| + |Log(rs[1..][..m + 1], crc)| by {
        if m + 1 < |rs| {
          LogStarts(rs, m + 2, crc);
        }
      }
      m + 1
  }

  /** Slices of a frame followed by anything. */
  lemma FrameSlices(body: seq<byte>, tail: seq<byte>, crc: Checksum)
    ensures var s := FrameOf(body, crc) + tail;
            && |s| == 8 + |body| + |tail| && s[..4] == LE(|body|, 4) && s[4..4 + |body|] == body
            && s[4 + |body|..8 + |body|] == LE(crc(body), 4) && s[8 + |body|..] == tail
  {
    hide LE;
  }

  lemma ReadsFrame(r: Record, tail: seq<byte>, crc: Checksum)
    ensures ReadStep(Frame(r, crc) + tail, crc) == Got(r, |Frame(r, crc)|)
    ensures (Frame(r, crc) + tail)[|Frame(r, crc)|..] == tail
  {
    hide LE, FromLE, FromRaw;
    var body, s := Body(r), Frame(r, crc) + tail;
    FrameSlices(body, tail, crc);
    Widths();
    LERoundTrip(|body|, 4);
    LERoundTrip(crc(body), 4);
    RecordRoundTrip(r, 0, []);
    assert s[4] == s[4..4 + |body|][0] && s[5..4 + |body|] == s[4..4 + |body|][1..];
  }

  /** A frame cut short stops the reader. */
  lemma TornFrame(r: Record, n: nat, crc: Checksum)
    requires n < |Frame(r, crc)|
    ensures ReadStep(Frame(r, crc)[..n], crc) == End
  {
    if n >= 4 {
      FrameSlices(Body(r), [], crc);
      assert Frame(r, crc) + [] == Frame(r, crc);
      assert Frame(r, crc)[..n][..4] == LE(|Body(r)|, 4);
      Widths();
      LERoundTrip(|Body(r)|, 4);
    }
  }

  /** For every log and every cut at any byte, reading gives exactly the records wholly before the cut. */
  lemma {:induction false} ReadsBeforeCut(rs: seq<Record>, n: nat, crc: Checksum)
    requires n <= |Log(rs, crc)|
    ensures ReadAll(Log(rs, crc)[..n], crc) == Ok(rs[..WholeRecords(rs, n, crc)])
    decreases |rs|
  {
    hide ReadStep, Frame;
    if rs == [] {
      assert Log(rs, crc)[..n] == [];
      NothingToRead(crc);
    } else if n < |Frame(rs[0], crc)| {
      assert Log(rs, crc)[..n] == Frame(rs[0], crc)[..n];
      TornFrame(rs[0], n, crc);
    } else {
      var k := |Frame(rs[0], crc)|;
      var tail := Log(rs[1..], crc)[..n - k];
      assert Log(rs, crc)[..n] == Frame(rs[0], crc) + tail;
      ReadsFrame(rs[0], tail, crc);
      ReadsBeforeCut(rs[1..], n - k, crc);
      var m := WholeRecords(rs[1..], n - k, crc);
      assert rs[..m + 1] == [rs[0]] + rs[1..][..m];
    }
  }

  lemma NothingToRead(crc: Checksum)
    ensures ReadStep([], crc) == End
  {
  }

  /** An uncut log reads back whole. */
  lemma LogRoundTrip(rs: seq<Record>, crc: Checksum)
    ensures ReadAll(Log(rs, crc), crc) == Ok(rs)
  {
    ReadsAfter(rs, [], [], crc);
    NothingToRead(crc);
    assert Log(rs, crc) + [] == Log(rs, crc) && rs + [] == rs;
  }

  // ----- which bytes are read as what -----

  /** These bytes begin with a whole frame of `body`, its length and its checksum right. */
  ghost predicate Framed(s: seq<byte>, body: seq<byte>, crc: Checksum)
  {
    && 0 < |body| < U32 && 8 + |body| <= |s|
    && s[..4] == LE(|body|, 4) && s[4..4 + |body|] == body && s[4 + |body|..8 + |body|] == LE(crc(body), 4)
  }

  lemma FramedStep(s: seq<byte>, body: seq<byte>, crc: Checksum)
    requires Framed(s, body, crc)
    ensures match FromRaw(body[0], body[1..])
            case Ok(r) => ReadStep(s, crc) == Got(r, 8 + |body|)
            case Err(e) => ReadStep(s, crc) == Corrupt(e)
  {
    hide LE, FromLE, FromRaw;
    Widths();
    LERoundTrip(|body|, 4);
    LERoundTrip(crc(body), 4);
    assert s[4] == s[4..4 + |body|][0] && s[5..4 + |body|] == s[4..4 + |body|][1..];
  }

  /** The reader goes on only past a whole frame whose checksum is right. */
  lemma StepFramed(s: seq<byte>, crc: Checksum) returns (body: seq<byte>)
    requires ReadStep(s, crc) != End
    ensures Framed(s, body, crc)
  {
    hide LE, FromLE, FromRaw;
    var length := FromLE(s[..4]);
    body := s[4..4 + length];
    Widths();
    LEInverse(s[..4]);
    LEInverse(s[4 + length..4 + length + 4]);
  }

  /** Reading stops exactly where no such frame begins: at the end, in a torn frame, or at a wrong checksum. */
  lemma EndExact(s: seq<byte>, crc: Checksum)
    ensures ReadStep(s, crc) == End <==> !exists body :: Framed(s, body, crc)
  {
    hide ReadStep, Framed, FromRaw;
    if ReadStep(s, crc) != End {
      var body := StepFramed(s, crc);
    }
    if body :| Framed(s, body, crc) {
      FramedStep(s, body, crc);
    }
  }

  lemma FramedRecord(s: seq<byte>, r: Record, crc: Checksum)
    ensures Framed(s, Body(r), crc) <==> |Frame(r, crc)| <= |s| && s[..|Frame(r, crc)|] == Frame(r, crc)
  {
    hide LE, Body;
    BodySize(r);
    ThreeParts(s, LE(|Body(r)|, 4), Body(r), LE(crc(Body(r)), 4));
  }

  lemma BodySize(r: Record)
    ensures 0 < |Body(r)| < U32
  {
    hide LE;
  }

  /** The reader returns a record exactly when the bytes begin with that record's frame, and takes just the frame. */
  lemma RecordExact(s: seq<byte>, r: Record, used: nat, crc: Checksum)
    ensures ReadStep(s, crc) == Got(r, used) <==> used == |Frame(r, crc)| <= |s| && s[..used] == Frame(r, crc)
  {
    hide ReadStep, FromRaw, LE;
    FramedRecord(s, r, crc);
    RecordRoundTrip(r, 0, []);
    if ReadStep(s, crc) == Got(r, used) {
      var body := StepFramed(s, crc);
      FramedStep(s, body, crc);
      RecordRoundTrip(r, body[0], body[1..]);
      assert body == [body[0]] + body[1..] == Body(r);
    }
    if Framed(s, Body(r), crc) {
      FramedStep(s, Body(r), crc);
    }
  }

  /** It reports a corrupt record exactly at a whole frame, its checksum right, of bytes that are no record. */
  lemma CorruptExact(s: seq<byte>, e: Error, crc: Checksum)
    ensures ReadStep(s, crc) == Corrupt(e) <==>
              e == CorruptRecord && exists body :: Framed(s, body, crc) && forall r :: Body(r) != body
  {
    hide ReadStep, LE, Framed;
    if ReadStep(s, crc).Corrupt? {
      var body := StepFramed(s, crc);
      CorruptFrame(s, body, crc);
    }
    if body :| Framed(s, body, crc) && forall r :: Body(r) != body {
      CorruptFrame(s, body, crc);
    }
  }

  lemma CorruptFrame(s: seq<byte>, body: seq<byte>, crc: Checksum)
    requires Framed(s, body, crc)
    ensures if forall r :: Body(r) != body then ReadStep(s, crc) == Corrupt(CorruptRecord) else ReadStep(s, crc).Got?
  {
    hide ReadStep, LE, FromLE;
    FramedStep(s, body, crc);
    var decoded := FromRaw(body[0], body[1..]);
    if decoded.Ok? {
      RecordRoundTrip(decoded.value, body[0], body[1..]);
      assert body == [body[0]] + body[1..] == Body(decoded.value);
    }
    if r :| Body(r) == body {
      RecordRoundTrip(r, 0, []);
      assert body[1..] == Payload(r);
    }
  }

  /** Reading a whole file gives records exactly when it is their log followed by bytes no frame begins with. */
  lemma {:induction false} ReadAllExact(s: seq<byte>, rs: seq<Record>, crc: Checksum)
    ensures ReadAll(s, crc) == Ok(rs) <==>
              |Log(rs, crc)| <= |s| && s[..|Log(rs, crc)|] == Log(rs, crc)
              && !exists body :: Framed(s[|Log(rs, crc)|..], body, crc)
    decreases |rs|
  {
    hide ReadStep, Frame, Framed;
    if rs == [] {
      assert s[0..] == s && s[..0] == [];
      EndExact(s, crc);
    } else {
      var f, rest := Frame(rs[0], crc), Log(rs[1..], crc);
      RecordExact(s, rs[0], |f|, crc);
      BeginsSo(s, f, rest);
      if ReadStep(s, crc) == Got(rs[0], |f|) {
        ReadAllExact(s[|f|..], rs[1..], crc);
        AllAfterFirst(s, rs, crc);
        AfterFrame(s, f, rest);
      } else {
        if ReadAll(s, crc) == Ok(rs) {
          FirstRead(s, rs, crc);
          RecordExact(s, rs[0], ReadStep(s, crc).used, crc);
        }
      }
    }
  }

  lemma AllAfterFirst(s: seq<byte>, rs: seq<Record>, crc: Checksum)
    requires rs != [] && ReadStep(s, crc).Got? && ReadStep(s, crc).record == rs[0] && ReadStep(s, crc).used <= |s|
    ensures ReadAll(s, crc) == Ok(rs) <==> ReadAll(s[ReadStep(s, crc).used..], crc) == Ok(rs[1..])
  {
    hide ReadStep;
    StepShrinks(s, crc);
    assert rs == [rs[0]] + rs[1..];
    var after := ReadAll(s[ReadStep(s, crc).used..], crc);
    if after.Ok? {
      assert ([rs[0]] + after.value)[1..] == after.value;
    }
  }

  lemma FirstRead(s: seq<byte>, rs: seq<Record>, crc: Checksum)
    requires rs != [] && ReadAll(s, crc) == Ok(rs)
    ensures ReadStep(s, crc).Got? && ReadStep(s, crc).record == rs[0]
  {
    hide ReadStep;
  }

  lemma BeginsSo(s: seq<byte>, f: seq<byte>, rest: seq<byte>)
    ensures |f + rest| <= |s| && s[..|f + rest|] == f + rest ==> s[..|f|] == f
  {
    if |f + rest| <= |s| {
      assert s[..|f|] == s[..|f + rest|][..|f|];
    }
  }

  lemma AfterFrame(s: seq<byte>, f: seq<byte>, rest: seq<byte>)
    requires |f| <= |s| && s[..|f|] == f
    ensures |f + rest| <= |s| && s[..|f + rest|] == f + rest <==>
              |rest| <= |s[|f|..]| && s[|f|..][..|rest|] == rest
    ensures |f + rest| <= |s| ==> s[|f + rest|..] == s[|f|..][|rest|..]
  {
    if |f + rest| <= |s| {
      assert s[..|f + rest|] == s[..|f|] + s[|f|..][..|rest|];
    }
  }

  /** A frame whose stored checksum is wrong, whatever its body and whatever follows. */
  lemma WrongChecksum(body: seq<byte>, sum: seq<byte>, tail: seq<byte>, crc: Checksum)
    requires 0 < |body| < U32 && |sum| == 4 && sum != LE(crc(body), 4)
    ensures ReadStep(LE(|body|, 4) + body + sum + tail, crc) == End
  {
    hide ReadStep, LE;
    var s := LE(|body|, 4) + body + sum + tail;
    assert s[..4] == LE(|body|, 4) && s[4..4 + |body|] == body && s[4 + |body|..8 + |body|] == sum;
    if other :| Framed(s, other, crc) {
      Widths();
      LERoundTrip(|body|, 4);
      LERoundTrip(|other|, 4);
    }
    EndExact(s, crc);
  }

  /** A damaged frame in the middle of a log: from any record on, the records before the damage are read and recovered,
      and nothing after. */
  lemma DamageStops(a: seq<Record>, c: seq<Record>, body: seq<byte>, sum: seq<byte>, tail: seq<byte>, crc: Checksum)
    requires 0 < |body| < U32 && |sum| == 4 && sum != LE(crc(body), 4)
    ensures var file := Log(a + c, crc) + (LE(|body|, 4) + body + sum + tail);
            ReadAll(file, crc) == Ok(a + c) && Recovered(file, |Log(a, crc)|, crc) == Ok(Committed(c))
  {
    hide ReadStep, LE, Log, Committed;
    var bad := LE(|body|, 4) + body + sum + tail;
    WrongChecksum(body, sum, tail, crc);
    ReadsAfter(a + c, bad, [], crc);
    ReadsAfter(c, bad, [], crc);
    LogConcat(a, c, crc);
    assert (a + c) + [] == a + c && c + [] == c;
    assert (Log(a + c, crc) + bad)[|Log(a, crc)|..] == Log(c, crc) + bad;
  }

  // ----- recovery -----

  /** A page write to replay. */
  datatype Action = ReplayPage(pageId: u32, data: Page)

  /** The page writes among these records, in order. */
  function PageWrites(rs: seq<Record>): seq<Action>
  {
    if rs == [] then []
    else (if rs[0].PageWrite? then [ReplayPage(rs[0].pageId, rs[0].data)] else []) + PageWrites(rs[1..])
  }

  /** The length up to and including the last commit; 0 when there is none. */
  function CommittedLength(rs: seq<Record>): (n: nat)
    ensures n <= |rs| && (n > 0 ==> rs[n - 1].CommitRecord?)
    ensures forall i :: n <= i < |rs| ==> !rs[i].CommitRecord?
  {
    if rs == [] then 0
    else if rs[|rs| - 1].CommitRecord? then |rs|
    else
      var n := CommittedLength(rs[..|rs| - 1]);
      assert forall i :: n <= i < |rs| - 1 ==> rs[i] == rs[..|rs| - 1][i];
      n
  }

  /** What recovery is for: exactly the page writes followed by a commit. */
  function Committed(rs: seq<Record>): seq<Action>
  {
    PageWrites(rs[..CommittedLength(rs)])
  }

  lemma {:induction false} PageWritesConcat(a: seq<Record>, c: seq<Record>)
    ensures PageWrites(a + c) == PageWrites(a) + PageWrites(c)
  {
    if a == [] {
      assert a + c == c;
    } else {
      var first := if a[0].PageWrite? then [ReplayPage(a[0].pageId, a[0].data)] else [];
      PageWritesConcat(a[1..], c);
      assert (a + c)[0] == a[0] && (a + c)[1..] == a[1..] + c;
      assert PageWrites(a) == first + PageWrites(a[1..]);
      assert PageWrites(a + c) == first + PageWrites(a[1..] + c);
      Regroup3(first, PageWrites(a[1..]), PageWrites(c));
    }
  }

  lemma CommittedStep(rs: seq<Record>, r: Record)
    ensures Committed(rs + [r]) == if r.CommitRecord? then PageWrites(rs) else Committed(rs)
    ensures PageWrites(rs + [r]) == PageWrites(rs) + if r.PageWrite? then [ReplayPage(r.pageId, r.data)] else []
  {
    PageWritesConcat(rs, [r]);
    assert PageWrites([r]) == (if r.PageWrite? then [ReplayPage(r.pageId, r.data)] else []) + PageWrites([r][1..]);
    if r.CommitRecord? {
      assert (rs + [r])[..|rs| + 1] == rs + [r];
    } else {
      assert (rs + [r])[..|rs|] == rs;
      assert (rs + [r])[..CommittedLength(rs)] == rs[..CommittedLength(rs)];
    }
  }

  /** Splitting a log right after a commit splits what is recovered. */
  lemma SplitAtCommit(a: seq<Record>, c: seq<Record>)
    requires a != [] ==> a[|a| - 1].CommitRecord?
    ensures Committed(a + c) == Committed(a) + Committed(c)
  {
    var n := CommittedLength(c);
    CommittedLengthUnique(a + c, |a| + n);
    assert (a + c)[..|a| + n] == a + c[..n];
    assert a[..|a|] == a;
    PageWritesConcat(a, c[..n]);
  }

  lemma CommittedLengthUnique(rs: seq<Record>, n: nat)
    requires n <= |rs| && (n > 0 ==> rs[n - 1].CommitRecord?)
    requires forall i :: n <= i < |rs| ==> !rs[i].CommitRecord?
    ensures CommittedLength(rs) == n
  {
  }

  /** What recovery from a byte offset returns. */
  function Recovered(file: seq<byte>, offset: nat, crc: Checksum): Result<seq<Action>>
  {
    match ReadAll(if offset <= |file| then file[offset..] else [], crc)
    case Ok(rs) => Ok(Committed(rs))
    case Err(e) => Err(e)
  }

  lemma CutAfter(a: seq<byte>, c: seq<byte>, n: nat)
    requires |a| <= n <= |a + c|
    ensures (a + c)[..n] == a + c[..n - |a|] && (a + c)[..n][|a|..] == c[..n - |a|] && (a + c)[..n][0..] == (a + c)[..n]
  {
  }

  /** For every log cut at any byte, recovery gives exactly the page writes followed by a commit before the cut;
      and recovery up to a commit boundary, then from it, is recovery of the whole. */
  lemma RecoveryExact(a: seq<Record>, c: seq<Record>, n: nat, crc: Checksum)
    requires a != [] ==> a[|a| - 1].CommitRecord?
    requires |Log(a, crc)| <= n <= |Log(a + c, crc)|
    ensures var file := Log(a + c, crc)[..n];
            var whole := c[..WholeRecords(c, n - |Log(a, crc)|, crc)];
            && Recovered(file, 0, crc) == Ok(Committed(a + whole))
            && Recovered(Log(a, crc), 0, crc) == Ok(Committed(a))
            && Recovered(file, |Log(a, crc)|, crc) == Ok(Committed(whole))
            && Committed(a + whole) == Committed(a) + Committed(whole)
  {
    hide ReadAll, Committed, Log, WholeRecords;
    var k := |Log(a, crc)|;
    LogConcat(a, c, crc);
    var whole := c[..WholeRecords(c, n - k, crc)];
    CutAfter(Log(a, crc), Log(c, crc), n);
    assert Log(a, crc)[0..] == Log(a, crc);
    ReadsBeforeCut(c, n - k, crc);
    LogRoundTrip(a, crc);
    ReadsAfter(a, Log(c, crc)[..n - k], whole, crc);
    SplitAtCommit(a, whole);
  }

  /** The records a log cut at byte `cut` still holds whole, after its first `n`. */
  function Pending(log: seq<Record>, n: nat, cut: nat, crc: Checksum): seq<Record>
    requires n <= |log|
  {
    var start := |Log(log[..n], crc)|;
    if start <= cut then log[n..][..WholeRecords(log[n..], cut - start, crc)] else []
  }

  /** Recovery from a record boundary of a log cut at any byte. */
  lemma RecoveredTail(log: seq<Record>, n: nat, cut: nat, crc: Checksum)
    requires n <= |log| && cut <= |Log(log, crc)|
    ensures Recovered(Log(log, crc)[..cut], |Log(log[..n], crc)|, crc) == Ok(Committed(Pending(log, n, cut, crc)))
  {
    hide ReadAll, Committed, Log, WholeRecords;
    var start := |Log(log[..n], crc)|;
    assert log == log[..n] + log[n..];
    LogConcat(log[..n], log[n..], crc);
    if start <= cut {
      assert Log(log, crc)[..cut][start..] == Log(log[n..], crc)[..cut - start];
      ReadsBeforeCut(log[n..], cut - start, crc);
    } else {
      ReadsNothing(crc);
    }
  }

  lemma ReadsNothing(crc: Checksum)
    ensures ReadAll([], crc) == Ok([])
  {
    NothingToRead(crc);
  }

  /** Whole records in front are read first. */
  lemma {:induction false} ReadsAfter(a: seq<Record>, tail: seq<byte>, rest: seq<Record>, crc: Checksum)
    requires ReadAll(tail, crc) == Ok(rest)
    ensures ReadAll(Log(a, crc) + tail, crc) == Ok(a + rest)
  {
    hide ReadStep, Frame;
    if a == [] {
      assert Log(a, crc) + tail == tail;
      assert a + rest == rest;
    } else {
      ReadsAfter(a[1..], tail, rest, crc);
      assert Log(a, crc) + tail == Frame(a[0], crc) + (Log(a[1..], crc) + tail);
      ReadsFrame(a[0], Log(a[1..], crc) + tail, crc);
      assert a + rest == [a[0]] + (a[1..] + rest);
    }
  }

  // ----- the file handles -----

  class WalWriter {
    const crc: Checksum
    var file: seq<byte>
    var offset: nat
    ghost var log: seq<Record>

    ghost predicate Valid()
      reads this
    {
      offset == |file| && file == Log(log, crc)
    }

    constructor Create(crc: Checksum)
      ensures Valid() && log == [] && this.crc == crc
    {
      this.crc := crc;
      file, offset, log := [], 0, [];
    }

    /** Reopens a log at its end; it goes on as that log only if it ends in a whole record. */
    constructor Open(file: seq<byte>, crc: Checksum, ghost log: seq<Record>)
      ensures this.log == log && this.crc == crc && this.file == file && offset == |file|
      ensures Valid() <==> file == Log(log, crc)
    {
      this.crc := crc;
      this.file, offset, this.log := file, |file|, log;
    }

    method AppendPageWrite(pageId: u32, data: Page) returns (start: nat)
      requires Valid()
      modifies this`file, this`offset, this`log
      ensures Valid() && log == old(log) + [PageWrite(pageId, data)] && start == old(offset)
    {
      start := AppendRecord(PAGE_WRITE, LE(pageId, 4) + data, PageWrite(pageId, data));
    }

    method AppendCommit(txnId: u64) returns (start: nat)
      requires Valid()
      modifies this`file, this`offset, this`log
      ensures Valid() && log == old(log) + [CommitRecord(txnId)] && start == old(offset)
    {
      start := AppendRecord(COMMIT, LE(txnId, 8), CommitRecord(txnId));
    }

    method AppendCheckpoint(txnId: u64) returns (start: nat)
      requires Valid()
      modifies this`file, this`offset, this`log
      ensures Valid() && log == old(log) + [Checkpoint(txnId)] && start == old(offset)
    {
      start := AppendRecord(CHECKPOINT, LE(txnId, 8), Checkpoint(txnId));
    }

    /** Frames the record at the end of the file and tells where it starts. */
    method AppendRecord(recordType: byte, payload: seq<byte>, ghost r: Record) returns (start: nat)
      requires Valid() && recordType == RecordType(r) && payload == Payload(r)
      modifies this`file, this`offset, this`log
      ensures Valid() && log == old(log) + [r] && start == old(offset)
    {
      hide Log, LE;
      start := offset;
      var length := 1 + |payload|;
      var body := [recordType] + payload;
      var sum := crc(body);
      file := file + LE(length, 4);
      file := file + body;
      file := file + LE(sum, 4);
      offset := offset + 4 + |body| + 4;
      log := log + [r];
      FrameAppended(old(log), r, crc);
    }
  }

  lemma FrameAppended(rs: seq<Record>, r: Record, crc: Checksum)
    ensures var body := Body(r);
            ((Log(rs, crc) + LE(1 + |Payload(r)|, 4)) + body) + LE(crc(body), 4) == Log(rs + [r], crc)
  {
    hide LE, Payload;
    LogConcat(rs, [r], crc);
    assert Log([r], crc) == Frame(r, crc) + Log([r][1..], crc);
  }

  class WalIter {
    const crc: Checksum
    const file: seq<byte>
    var offset: nat

    constructor (file: seq<byte>, offset: nat, crc: Checksum)
      ensures this.file == file && this.offset == offset && this.crc == crc
    {
      this.file, this.offset, this.crc := file, offset, crc;
    }

    ghost function Rest(): seq<byte>
      reads this
    {
      if offset <= |file| then file[offset..] else []
    }

    /** `n` bytes from position `at`, unless the file ends before. */
    function ReadExact(at: nat, n: nat): Option<seq<byte>>
    {
      if at + n <= |file| then Some(file[at..at + n]) else None
    }

    /** The next record; `None` at the end, at a torn record and at a failed checksum. */
    method Next() returns (r: Option<Result<Record>>)
      modifies this`offset
      ensures match ReadStep(old(Rest()), crc)
              case End => r == None && offset == old(offset)
              case Corrupt(e) => r == Some(Err(e)) && offset == old(offset)
              case Got(record, used) => r == Some(Ok(record)) && offset == old(offset) + used <= |file|
    {
      hide FromLE, FromRaw;
      var lenBuf := ReadExact(offset, 4);
      if lenBuf.None? {
        return None;
      }
      assert lenBuf.value == Rest()[..4];
      var length := FromLE(lenBuf.value);
      if length == 0 {
        return None;
      }
      var body := ReadExact(offset + 4, length);
      if body.None? {
        return None;
      }
      var crcBuf := ReadExact(offset + 4 + length, 4);
      if crcBuf.None? {
        return None;
      }
      assert body.value == Rest()[4..4 + length] && crcBuf.value == Rest()[4 + length..4 + length + 4];
      if FromLE(crcBuf.value) != crc(body.value) {
        return None;
      }
      assert body.value[0] == Rest()[4] && body.value[1..] == Rest()[5..4 + length];
      var record := FromRaw(body.value[0], body.value[1..]);
      if record.Ok? {
        offset := offset + 4 + length + 4;
      }
      return Some(record);
    }
  }

  /** Replays the log from `fromOffset`, keeping page writes until a commit releases them. */
  method Recover(file: seq<byte>, fromOffset: nat, crc: Checksum) returns (r: Result<seq<Action>>)
    ensures r == Recovered(file, fromOffset, crc)
  {
    hide ReadStep, ReadAll, Prefixed, Committed, PageWrites;
    var iter := new WalIter(file, fromOffset, crc);
    var pendingPages: seq<(u32, Page)> := [];
    var committedActions: seq<Action> := [];
    ghost var seen: seq<Record> := [];
    ghost var all := ReadAll(iter.Rest(), crc);
    NothingCommitted();
    PrefixedNone(all);
    while true
      invariant iter.file == file && iter.crc == crc
      invariant all == Prefixed(seen, ReadAll(iter.Rest(), crc))
      invariant committedActions == Committed(seen) && PageWrites(seen) == committedActions + Actions(pendingPages)
      decreases |iter.Rest()|
    {
      ghost var rest := iter.Rest();
      StepShrinks(rest, crc);
      ReadsEnd(seen, rest, crc);
      var next := iter.Next();
      match next {
        case None =>
          break;
        case Some(result) =>
          if result.Err? {
            return Err(result.error);
          }
          CommittedStep(seen, result.value);
          match result.value {
            case PageWrite(pageId, data) =>
              pendingPages := pendingPages + [(pageId, data)];
            case CommitRecord(_) =>
              committedActions := committedActions + Actions(pendingPages);
              pendingPages := [];
            case Checkpoint(_) =>
          }
          assert iter.Rest() == rest[ReadStep(rest, crc).used..];
          PrefixedStep(seen, rest, crc);
          seen := seen + [result.value];
      }
    }
    return Ok(committedActions);
  }

  function Actions(pages: seq<(u32, Page)>): (actions: seq<Action>)
    ensures |actions| == |pages|
  {
    seq(|pages|, i requires 0 <= i < |pages| => ReplayPage(pages[i].0, pages[i].1))
  }

  function Prefixed(seen: seq<Record>, rest: Result<seq<Record>>): Result<seq<Record>>
  {
    match rest
    case Ok(rs) => Ok(seen + rs)
    case Err(e) => Err(e)
  }

  lemma PrefixedStep(seen: seq<Record>, rest: seq<byte>, crc: Checksum)
    requires ReadStep(rest, crc).Got? && ReadStep(rest, crc).used <= |rest|
    ensures Prefixed(seen, ReadAll(rest, crc))
         == Prefixed(seen + [ReadStep(rest, crc).record], ReadAll(rest[ReadStep(rest, crc).used..], crc))
  {
    hide ReadStep;
    var step := ReadStep(rest, crc);
    assert forall rs: seq<Record> :: seen + ([step.record] + rs) == (seen + [step.record]) + rs;
  }

  lemma StepShrinks(s: seq<byte>, crc: Checksum)
    ensures ReadStep(s, crc).Got? ==> 0 < ReadStep(s, crc).used <= |s|
  {
  }

  lemma ReadsEnd(seen: seq<Record>, rest: seq<byte>, crc: Checksum)
    ensures match ReadStep(rest, crc)
            case End => Prefixed(seen, ReadAll(rest, crc)) == Ok(seen)
            case Corrupt(e) => Prefixed(seen, ReadAll(rest, crc)) == Err(e)
            case Got(_, _) => true
  {
    assert seen + [] == seen;
  }

  lemma PrefixedNone(rest: Result<seq<Record>>)
    ensures Prefixed([], rest) == rest
  {
    if rest.Ok? {
      assert [] + rest.value == rest.value;
    }
  }

  lemma NothingCommitted()
    ensures Committed([]) == [] && PageWrites([]) == []
  {
  }
}
