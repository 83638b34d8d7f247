/** Index keys of the graph: fixed-width big-endian tuples, so that byte order is tuple order. */
module GraphKeys {
  import opened Bytes
  import opened Pages

  const ADJ_KEY_LEN := 29
  const LABEL_KEY_LEN := 12

  datatype Direction = Out | In

  function DirByte(dir: Direction): byte
  {
    if dir.Out? then 0 else 1
  }

  // ----- adjacency keys -----

  datatype AdjKey = AdjKey(src: u64, dir: Direction, hash: u32, dst: u64, edge: u64)

  function EncodeAdj(k: AdjKey): (s: seq<byte>)
    ensures |s| == ADJ_KEY_LEN
  {
    BE(k.src, 8) + ([DirByte(k.dir)] + (BE(k.hash, 4) + (BE(k.dst, 8) + BE(k.edge, 8))))
  }

  function U64At(s: seq<byte>, off: nat): u64
    requires off + 8 <= |s|
  {
    Widths();
    BEInverse(s[off..off + 8]);
    FromBE(s[off..off + 8])
  }

  function U32At(s: seq<byte>, off: nat): u32
    requires off + 4 <= |s|
  {
    Widths();
    BEInverse(s[off..off + 4]);
    FromBE(s[off..off + 4])
  }

  /** Any direction byte but 0 reads as incoming. */
  function DecodeAdj(s: seq<byte>): AdjKey
    requires |s| == ADJ_KEY_LEN
  {
    AdjKey(U64At(s, 0), if s[8] == 0 then Out else In, U32At(s, 9), U64At(s, 13), U64At(s, 21))
  }

  lemma FilledFields(z: seq<byte>, a: seq<byte>, d: byte, h: seq<byte>, c: seq<byte>, e: seq<byte>)
    requires |z| == ADJ_KEY_LEN && |a| == |c| == |e| == 8 && |h| == 4
    ensures Overwrite(Overwrite(Overwrite(Overwrite(z, 0, a)[8 := d], 9, h), 13, c), 21, e) == a + ([d] + (h + (c + e)))
  {
    var p1 := Overwrite(z, 0, a)[8 := d];
    assert p1[..9] == a + [d];
    var p2 := Overwrite(p1, 9, h);
    assert p2[..13] == p1[..9] + h;
    var p3 := Overwrite(p2, 13, c);
    assert p3[..21] == p2[..13] + c;
    assert Overwrite(p3, 21, e) == p3[..21] + e;
  }

  /** The encoder as the program has it, filling a buffer field by field. */
  method EncodeAdjacencyKey(src: u64, dir: Direction, typeHash: u32, dst: u64, edgeId: u64) returns (key: seq<byte>)
    ensures key == EncodeAdj(AdjKey(src, dir, typeHash, dst, edgeId))
  {
    hide BE, Overwrite;
    var buf := new byte[ADJ_KEY_LEN](_ => 0);
    FilledFields(buf[..], BE(src, 8), DirByte(dir), BE(typeHash, 4), BE(dst, 8), BE(edgeId, 8));
    ghost var z := buf[..];
    CopyInto(buf, 0, BE(src, 8));
    buf[8] := DirByte(dir);
    assert buf[..] == Overwrite(z, 0, BE(src, 8))[8 := DirByte(dir)];
    CopyInto(buf, 9, BE(typeHash, 4));
    CopyInto(buf, 13, BE(dst, 8));
    CopyInto(buf, 21, BE(edgeId, 8));
    key := buf[..];
  }

  lemma AdjSlices(k: AdjKey)
    ensures var s := EncodeAdj(k);
            && s[0..8] == BE(k.src, 8) && s[8] == DirByte(k.dir) && s[9..13] == BE(k.hash, 4)
            && s[13..21] == BE(k.dst, 8) && s[21..29] == BE(k.edge, 8)
  {
    hide BE;
  }

  lemma AdjFromSlices(s: seq<byte>, k: AdjKey)
    requires |s| == ADJ_KEY_LEN && s[0..8] == BE(k.src, 8) && s[8] == DirByte(k.dir) && s[9..13] == BE(k.hash, 4)
    requires s[13..21] == BE(k.dst, 8) && s[21..29] == BE(k.edge, 8)
    ensures s == EncodeAdj(k)
  {
    hide BE;
    assert s == s[0..8] + ([s[8]] + (s[9..13] + (s[13..21] + s[21..29])));
  }

  /** Decoding undoes encoding, and only encodings have a direction byte 0 or 1. */
  lemma AdjRoundTrip(k: AdjKey, s: seq<byte>)
    ensures DecodeAdj(EncodeAdj(k)) == k
    ensures |s| == ADJ_KEY_LEN && s[8] <= 1 ==> EncodeAdj(DecodeAdj(s)) == s
  {
    Widths();
    AdjSlices(k);
    BERoundTrip(k.src, 8);
    BERoundTrip(k.hash, 4);
    BERoundTrip(k.dst, 8);
    BERoundTrip(k.edge, 8);
    if |s| == ADJ_KEY_LEN && s[8] <= 1 {
      BEInverse(s[0..8]);
      BEInverse(s[9..13]);
      BEInverse(s[13..21]);
      BEInverse(s[21..29]);
      hide BE, FromBE;
      AdjFromSlices(s, DecodeAdj(s));
    }
  }

  /** Tuples compared field by field. */
  predicate AdjLess(a: AdjKey, c: AdjKey)
  {
    a.src < c.src || (a.src == c.src &&
    ((a.dir.Out? && c.dir.In?) || (a.dir == c.dir &&
    (a.hash < c.hash || (a.hash == c.hash &&
    (a.dst < c.dst || (a.dst == c.dst && a.edge < c.edge)))))))
  }

  lemma ByteOrder(x: byte, y: byte)
    ensures Less([x], [y]) <==> x < y
  {
    assert !LessFrom([x], [y], 1);
  }

  /** The byte order of keys is the order of their tuples. */
  lemma AdjOrder(a: AdjKey, c: AdjKey)
    ensures Less(EncodeAdj(a), EncodeAdj(c)) <==> AdjLess(a, c)
  {
    Widths();
    BEOrder(a.src, c.src, 8);
    BEOrder(a.hash, c.hash, 4);
    BEOrder(a.dst, c.dst, 8);
    BEOrder(a.edge, c.edge, 8);
    ByteOrder(DirByte(a.dir), DirByte(c.dir));
    hide BE, Less;
    LessConcat(BE(a.dst, 8), BE(a.edge, 8), BE(c.dst, 8), BE(c.edge, 8));
    LessConcat(BE(a.hash, 4), BE(a.dst, 8) + BE(a.edge, 8), BE(c.hash, 4), BE(c.dst, 8) + BE(c.edge, 8));
    LessConcat([DirByte(a.dir)], BE(a.hash, 4) + (BE(a.dst, 8) + BE(a.edge, 8)),
               [DirByte(c.dir)], BE(c.hash, 4) + (BE(c.dst, 8) + BE(c.edge, 8)));
    LessConcat(BE(a.src, 8), [DirByte(a.dir)] + (BE(a.hash, 4) + (BE(a.dst, 8) + BE(a.edge, 8))),
               BE(c.src, 8), [DirByte(c.dir)] + (BE(c.hash, 4) + (BE(c.dst, 8) + BE(c.edge, 8))));
  }

  function AdjPrefixStart(node: u64, dir: Direction, typeHash: u32): seq<byte>
  {
    EncodeAdj(AdjKey(node, dir, typeHash, 0, 0))
  }

  function AdjPrefixEnd(node: u64, dir: Direction, typeHash: u32): seq<byte>
  {
    EncodeAdj(AdjKey(node, dir, typeHash, U64 - 1, U64 - 1))
  }

  function AdjDirStart(node: u64, dir: Direction): seq<byte>
  {
    EncodeAdj(AdjKey(node, dir, 0, 0, 0))
  }

  function AdjDirEnd(node: u64, dir: Direction): seq<byte>
  {
    EncodeAdj(AdjKey(node, dir, U32 - 1, U64 - 1, U64 - 1))
  }

  /** A scan between these bounds meets exactly the keys of that node, direction and type. */
  lemma AdjPrefixRange(node: u64, dir: Direction, typeHash: u32, k: AdjKey)
    ensures (&& AtMost(AdjPrefixStart(node, dir, typeHash), EncodeAdj(k))
             && AtMost(EncodeAdj(k), AdjPrefixEnd(node, dir, typeHash)))
       <==> k.src == node && k.dir == dir && k.hash == typeHash
  {
    hide EncodeAdj, Less;
    AdjOrder(k, AdjKey(node, dir, typeHash, 0, 0));
    AdjOrder(AdjKey(node, dir, typeHash, U64 - 1, U64 - 1), k);
  }

  /** And between these, exactly the keys of that node and direction. */
  lemma AdjDirRange(node: u64, dir: Direction, k: AdjKey)
    ensures AtMost(AdjDirStart(node, dir), EncodeAdj(k)) && AtMost(EncodeAdj(k), AdjDirEnd(node, dir)) <==>
              k.src == node && k.dir == dir
  {
    hide EncodeAdj, Less;
    AdjOrder(k, AdjKey(node, dir, 0, 0, 0));
    AdjOrder(AdjKey(node, dir, U32 - 1, U64 - 1, U64 - 1), k);
  }

  // ----- label keys -----

  datatype LabelKey = LabelKey(hash: u32, node: u64)

  function EncodeLabel(k: LabelKey): (s: seq<byte>)
    ensures |s| == LABEL_KEY_LEN
  {
    BE(k.hash, 4) + BE(k.node, 8)
  }

  function DecodeLabel(s: seq<byte>): LabelKey
    requires |s| == LABEL_KEY_LEN
  {
    LabelKey(U32At(s, 0), U64At(s, 4))
  }

  method EncodeLabelKey(labelHash: u32, nodeId: u64) returns (key: seq<byte>)
    ensures key == EncodeLabel(LabelKey(labelHash, nodeId))
  {
    hide BE;
    var buf := new byte[LABEL_KEY_LEN](_ => 0);
    CopyInto(buf, 0, BE(labelHash, 4));
    CopyInto(buf, 4, BE(nodeId, 8));
    key := buf[..];
  }

  lemma LabelRoundTrip(k: LabelKey, s: seq<byte>)
    ensures DecodeLabel(EncodeLabel(k)) == k
    ensures |s| == LABEL_KEY_LEN ==> EncodeLabel(DecodeLabel(s)) == s
  {
    hide BE, FromBE;
    Widths();
    BERoundTrip(k.hash, 4);
    BERoundTrip(k.node, 8);
    assert EncodeLabel(k)[0..4] == BE(k.hash, 4) && EncodeLabel(k)[4..12] == BE(k.node, 8);
    if |s| == LABEL_KEY_LEN {
      BEInverse(s[0..4]);
      BEInverse(s[4..12]);
      assert s == s[0..4] + s[4..12];
    }
  }

  lemma LabelOrder(a: LabelKey, c: LabelKey)
    ensures Less(EncodeLabel(a), EncodeLabel(c)) <==> a.hash < c.hash || (a.hash == c.hash && a.node < c.node)
  {
    Widths();
    BEOrder(a.hash, c.hash, 4);
    BEOrder(a.node, c.node, 8);
    hide BE, Less;
    LessConcat(BE(a.hash, 4), BE(a.node, 8), BE(c.hash, 4), BE(c.node, 8));
  }

  function LabelPrefixStart(labelHash: u32): seq<byte>
  {
    EncodeLabel(LabelKey(labelHash, 0))
  }

  function LabelPrefixEnd(labelHash: u32): seq<byte>
  {
    EncodeLabel(LabelKey(labelHash, U64 - 1))
  }

  /** A scan between these bounds meets exactly the keys of that label. */
  lemma LabelPrefixRange(labelHash: u32, k: LabelKey)
    ensures (&& AtMost(LabelPrefixStart(labelHash), EncodeLabel(k))
             && AtMost(EncodeLabel(k), LabelPrefixEnd(labelHash)))
       <==> k.hash == labelHash
  {
    hide EncodeLabel, Less;
    LabelOrder(k, LabelKey(labelHash, 0));
    LabelOrder(LabelKey(labelHash, U64 - 1), k);
  }
}
