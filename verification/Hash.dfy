/** The hash that labels and edge types are indexed under. */
module NameHashes {
  import opened Bytes

  /** Exclusive or of two bytes. */
  function Xor(a: byte, b: byte): byte
  {
    ((a as bv8) ^ (b as bv8)) as int
  }

  /** One round: exclusive or into the low byte, then a multiplication that wraps at 32 bits. */
  function HashStep(h: u32, b: byte): u32
  {
    ((h - h % 256 + Xor(h % 256, b)) * 0x0100_0193) % U32
  }

  function HashFrom(h: u32, s: seq<byte>): u32
    decreases |s|
  {
    if s == [] then h else HashFrom(HashStep(h, s[0]), s[1..])
  }

  /** The hash of a name's bytes. */
  function HashOf(s: seq<byte>): u32
  {
    HashFrom(0x811c_9dc5, s)
  }

  method HashStr(s: seq<byte>) returns (h: u32)
    ensures h == HashOf(s)
  {
    h := 0x811c_9dc5;
    for i := 0 to |s|
      invariant HashFrom(h, s[i..]) == HashOf(s)
    {
      assert s[i..][1..] == s[i + 1..];
      h := HashStep(h, s[i]);
    }
  }

  predicate IsAscii(s: string)
  {
    forall i :: 0 <= i < |s| ==> s[i] < 128 as char
  }

  /** The bytes of an ASCII text. */
  function AsciiBytes(s: string): (bs: seq<byte>)
    requires IsAscii(s)
    ensures |bs| == |s|
  {
    seq(|s|, i requires 0 <= i < |s| => s[i] as int)
  }

  /** One round by hand: `h` is `256 * high + low`, and the product `q` wraps and a rest. */
  lemma Round(h: u32, b: byte, high: nat, low: byte, q: nat, next: u32)
    requires h == 256 * high + low && (256 * high + Xor(low, b)) * 0x0100_0193 == q * U32 + next
    ensures HashStep(h, b) == next
  {
    hide Xor;
    assert h % 256 == low && h - low == 256 * high;
    Rest(q, next);
  }

  lemma Rest(q: nat, r: u32)
    ensures (q * U32 + r) % U32 == r
  {
  }

  lemma HashMore(h: u32, s: seq<byte>, i: nat, next: u32)
    requires i < |s| && HashStep(h, s[i]) == next
    ensures HashFrom(h, s[i..]) == HashFrom(next, s[i + 1..])
  {
    hide HashStep;
    assert s[i..][0] == s[i] && s[i..][1..] == s[i + 1..];
  }

  lemma HashEnd(h: u32, s: seq<byte>)
    ensures HashFrom(h, s[|s|..]) == h
  {
  }

  lemma CostarringXors()
    ensures Xor(197, 99) == 166
         && Xor(82, 111) == 61
         && Xor(7, 115) == 116
         && Xor(156, 116) == 232
         && Xor(56, 97) == 89
         && Xor(27, 114) == 105
         && Xor(75, 114) == 57
         && Xor(187, 105) == 210
         && Xor(150, 110) == 248
         && Xor(104, 103) == 15
  {
  }

  lemma HashOfCostarring(bs: seq<byte>)
    requires bs == [99, 111, 115, 116, 97, 114, 114, 105, 110, 103]
    ensures HashOf(bs) == 0x5e4d_aa9d
  {
    hide HashStep, HashFrom, Xor;
    CostarringXors();
    assert bs[0..] == bs;
    Round(0x811c_9dc5, 99, 8461469, 197, 8461672, 0xe60c_2c52);
    HashMore(0x811c_9dc5, bs, 0, 0xe60c_2c52);
    Round(0xe60c_2c52, 111, 15076396, 82, 15076758, 0x6229_a407);
    HashMore(0xe60c_2c52, bs, 1, 0x6229_a407);
    Round(0x6229_a407, 115, 6433188, 7, 6433342, 0xfb8d_e29c);
    HashMore(0x6229_a407, bs, 2, 0xfb8d_e29c);
    Round(0xfb8d_e29c, 116, 16485858, 156, 16486254, 0xe85c_3338);
    HashMore(0xfb8d_e29c, bs, 3, 0xe85c_3338);
    Round(0xe85c_3338, 97, 15227955, 56, 15228321, 0x2224_d51b);
    HashMore(0xe85c_3338, bs, 4, 0x2224_d51b);
    Round(0x2224_d51b, 114, 2237653, 27, 2237707, 0x28fb_f44b);
    HashMore(0x2224_d51b, bs, 5, 0x28fb_f44b);
    Round(0x28fb_f44b, 114, 2685940, 75, 2686004, 0xbda1_75bb);
    HashMore(0x28fb_f44b, bs, 6, 0xbda1_75bb);
    Round(0xbda1_75bb, 105, 12427637, 187, 12427936, 0x572c_7996);
    HashMore(0xbda1_75bb, bs, 7, 0x572c_7996);
    Round(0x572c_7996, 110, 5713017, 150, 5713155, 0x3304_0168);
    HashMore(0x572c_7996, bs, 8, 0x3304_0168);
    Round(0x3304_0168, 103, 3343361, 104, 3343441, 0x5e4d_aa9d);
    HashMore(0x3304_0168, bs, 9, 0x5e4d_aa9d);
    HashEnd(0x5e4d_aa9d, bs);
  }

  lemma LiquidXors()
    ensures Xor(197, 108) == 169
         && Xor(11, 105) == 98
         && Xor(70, 113) == 55
         && Xor(149, 117) == 224
         && Xor(160, 105) == 201
         && Xor(107, 100) == 15
  {
  }

  lemma HashOfLiquid(bs: seq<byte>)
    requires bs == [108, 105, 113, 117, 105, 100]
    ensures HashOf(bs) == 0x5e4d_aa9d
  {
    hide HashStep, HashFrom, Xor;
    LiquidXors();
    assert bs[0..] == bs;
    Round(0x811c_9dc5, 108, 8461469, 197, 8461672, 0xe90c_310b);
    HashMore(0x811c_9dc5, bs, 0, 0xe90c_310b);
    Round(0xe90c_310b, 105, 15273009, 11, 15273376, 0x4031_bd46);
    HashMore(0xe90c_310b, bs, 1, 0x4031_bd46);
    Round(0x4031_bd46, 113, 4207037, 70, 4207138, 0x454c_dd95);
    HashMore(0x4031_bd46, bs, 2, 0x454c_dd95);
    Round(0x454c_dd95, 117, 4541661, 149, 4541770, 0xf801_47a0);
    HashMore(0x454c_dd95, bs, 3, 0xf801_47a0);
    Round(0xf801_47a0, 105, 16253255, 160, 16253646, 0x3304_016b);
    HashMore(0xf801_47a0, bs, 4, 0x3304_016b);
    Round(0x3304_016b, 100, 3343361, 107, 3343441, 0x5e4d_aa9d);
    HashMore(0x3304_016b, bs, 5, 0x5e4d_aa9d);
    HashEnd(0x5e4d_aa9d, bs);
  }

  /** Two names with one hash. */
  lemma NamesCollide()
    ensures HashOf(AsciiBytes("costarring")) == HashOf(AsciiBytes("liquid"))
  {
    hide HashOf;
    var a: seq<byte> := [99, 111, 115, 116, 97, 114, 114, 105, 110, 103];
    var b: seq<byte> := [108, 105, 113, 117, 105, 100];
    HashOfCostarring(a);
    HashOfLiquid(b);
    assert AsciiBytes("costarring") == a;
    assert AsciiBytes("liquid") == b;
  }
}
