/** Bytes, fixed-width integers in both byte orders, and the lexicographic order on byte strings. */
module Bytes {

  type byte = b: int | 0 <= b < 256

  function Pow256(n: nat): (p: nat)
    ensures p > 0
  {
    if n == 0 then 1 else 256 * Pow256(n - 1)
  }

  const U16 := 0x1_0000
  const U32 := 0x1_0000_0000
  const U64 := 0x1_0000_0000_0000_0000

  type u32 = n: int | 0 <= n < U32
  type u64 = n: int | 0 <= n < U64

  lemma Widths()
    ensures Pow256(2) == U16 && Pow256(4) == U32 && Pow256(8) == U64
  {
    assert Pow256(2) == 256 * Pow256(1);
    assert Pow256(3) == 256 * Pow256(2);
    assert Pow256(4) == 256 * Pow256(3);
    assert Pow256(5) == 256 * Pow256(4);
    assert Pow256(6) == 256 * Pow256(5);
    assert Pow256(7) == 256 * Pow256(6);
  }

  // ----- little endian -----

  /** The `n` low bytes of `v`, least significant first. */
  function LE(v: nat, n: nat): (s: seq<byte>)
    ensures |s| == n
    decreases n
  {
    if n == 0 then [] else [v % 256] + LE(v / 256, n - 1)
  }

  function FromLE(s: seq<byte>): nat
  {
    if s == [] then 0 else s[0] + 256 * FromLE(s[1..])
  }

  lemma {:induction false} LERoundTrip(v: nat, n: nat)
    requires v < Pow256(n)
    ensures FromLE(LE(v, n)) == v
    decreases n
  {
    if n > 0 {
      LERoundTrip(v / 256, n - 1);
      assert LE(v, n)[1..] == LE(v / 256, n - 1);
    }
  }

  lemma {:induction false} LEInverse(s: seq<byte>)
    ensures FromLE(s) < Pow256(|s|)
    ensures LE(FromLE(s), |s|) == s
  {
    if s != [] {
      LEInverse(s[1..]);
      assert FromLE(s) / 256 == FromLE(s[1..]);
      assert s == [s[0]] + s[1..];
    }
  }

  lemma DivideTwice(v: nat, p: nat)
    requires p > 0
    ensures v / 256 / p == v / (256 * p)
  {
    var d := 256 * p;
    var q, r := v / d, v % d;
    assert v == d * q + r && 0 <= r < d;
    assert v / 256 == p * q + r / 256 && 0 <= r / 256 < p by {
      assert v == 256 * (p * q) + r;
    }
    QuotientIs(v / 256, p, q, r / 256);
  }

  lemma QuotientIs(v: nat, p: nat, q: nat, r: nat)
    requires v == p * q + r && r < p
    ensures v / p == q
  {
    assert p * (v / p) <= v < p * (v / p) + p;
    if v / p < q {
      MoreTimes(p, v / p, q);
    } else if v / p > q {
      MoreTimes(p, q, v / p);
    }
  }

  lemma {:induction false} MoreTimes(p: nat, a: nat, b: nat)
    requires a < b
    ensures p * a + p <= p * b
    decreases b
  {
    if a + 1 < b {
      MoreTimes(p, a, b - 1);
    }
  }

  /** Which byte stands where: the byte of weight 256^i is byte `i` of the little-endian code. */
  lemma {:induction false} LEDigit(v: nat, n: nat, i: nat)
    requires i < n
    ensures LE(v, n)[i] == v / Pow256(i) % 256
    decreases n
  {
    if i > 0 {
      LEDigit(v / 256, n - 1, i - 1);
      DivideTwice(v, Pow256(i - 1));
    }
  }

  // ----- big endian -----

  /** The `n` low bytes of `v`, most significant first. */
  function BE(v: nat, n: nat): (s: seq<byte>)
    ensures |s| == n
    decreases n
  {
    if n == 0 then [] else BE(v / 256, n - 1) + [v % 256]
  }

  function FromBE(s: seq<byte>): nat
  {
    if s == [] then 0 else 256 * FromBE(s[..|s| - 1]) + s[|s| - 1]
  }

  lemma {:induction false} BERoundTrip(v: nat, n: nat)
    requires v < Pow256(n)
    ensures FromBE(BE(v, n)) == v
    decreases n
  {
    if n > 0 {
      BERoundTrip(v / 256, n - 1);
      assert BE(v, n)[..n - 1] == BE(v / 256, n - 1);
    }
  }

  lemma {:induction false} BEInverse(s: seq<byte>)
    ensures FromBE(s) < Pow256(|s|)
    ensures BE(FromBE(s), |s|) == s
  {
    if s != [] {
      BEInverse(s[..|s| - 1]);
      assert s == s[..|s| - 1] + [s[|s| - 1]];
    }
  }

  // ----- lexicographic order -----

  /** `a` sorts before `b`, looking from byte `i` on. */
  predicate LessFrom(a: seq<byte>, b: seq<byte>, i: nat)
    decreases |a| - i
  {
    i < |b| && (i >= |a| || a[i] < b[i] || (a[i] == b[i] && LessFrom(a, b, i + 1)))
  }

  /** The order Rust gives byte slices: lexicographic, a proper prefix first. */
  predicate Less(a: seq<byte>, b: seq<byte>)
  {
    LessFrom(a, b, 0)
  }

  predicate AtMost(a: seq<byte>, b: seq<byte>)
  {
    !Less(b, a)
  }

  lemma {:induction false} LessIrreflexive(a: seq<byte>, i: nat)
    ensures !LessFrom(a, a, i)
    decreases |a| - i
  {
    if i < |a| {
      LessIrreflexive(a, i + 1);
    }
  }

  lemma {:induction false} LessTransitive(a: seq<byte>, b: seq<byte>, c: seq<byte>, i: nat)
    requires LessFrom(a, b, i) && LessFrom(b, c, i)
    ensures LessFrom(a, c, i)
    decreases |a| - i
  {
    if i < |a| && a[i] == b[i] == c[i] {
      LessTransitive(a, b, c, i + 1);
    }
  }

  lemma {:induction false} LessTotal(a: seq<byte>, b: seq<byte>, i: nat)
    requires i <= |a| && i <= |b| && a[..i] == b[..i]
    ensures LessFrom(a, b, i) || a == b || LessFrom(b, a, i)
    decreases |a| - i
  {
    if i < |a| && i < |b| && a[i] == b[i] {
      assert a[..i + 1] == a[..i] + [a[i]] && b[..i + 1] == b[..i] + [b[i]];
      LessTotal(a, b, i + 1);
    } else if i == |a| && i == |b| {
      assert a == a[..i] && b == b[..i];
    }
  }

  /** `Less` is a strict total order. */
  lemma Order()
    ensures forall a: seq<byte> {:trigger Less(a, a)} :: !Less(a, a)
    ensures forall a: seq<byte>, b: seq<byte>, c: seq<byte> {:trigger Less(a, b), Less(b, c)} ::
              Less(a, b) && Less(b, c) ==> Less(a, c)
    ensures forall a: seq<byte>, b: seq<byte> {:trigger Less(a, b)} :: Less(a, b) || a == b || Less(b, a)
  {
    forall a: seq<byte> ensures !Less(a, a) { LessIrreflexive(a, 0); }
    forall a: seq<byte>, b: seq<byte>, c: seq<byte> | Less(a, b) && Less(b, c) ensures Less(a, c) {
      LessTransitive(a, b, c, 0);
    }
    forall a: seq<byte>, b: seq<byte> ensures Less(a, b) || a == b || Less(b, a) { LessTotal(a, b, 0); }
  }

  lemma {:induction false} LessShift(a: seq<byte>, b: seq<byte>, c: seq<byte>, d: seq<byte>, i: nat)
    requires |a| == |c|
    ensures LessFrom(a + b, c + d, |a| + i) <==> LessFrom(b, d, i)
    decreases |b| - i
  {
    if i < |b| && i < |d| {
      LessShift(a, b, c, d, i + 1);
    }
  }

  lemma {:induction false} LessConcatFrom(a: seq<byte>, b: seq<byte>, c: seq<byte>, d: seq<byte>, i: nat)
    requires |a| == |c| && i <= |a|
    ensures LessFrom(a + b, c + d, i) <==> LessFrom(a, c, i) || (a[i..] == c[i..] && Less(b, d))
    decreases |a| - i
  {
    if i == |a| {
      LessShift(a, b, c, d, 0);
    } else {
      LessConcatFrom(a, b, c, d, i + 1);
      assert a[i..] == [a[i]] + a[i + 1..] && c[i..] == [c[i]] + c[i + 1..];
    }
  }

  /** Concatenations whose first parts have one length compare first part first. */
  lemma LessConcat(a: seq<byte>, b: seq<byte>, c: seq<byte>, d: seq<byte>)
    requires |a| == |c|
    ensures Less(a + b, c + d) <==> Less(a, c) || (a == c && Less(b, d))
  {
    LessConcatFrom(a, b, c, d, 0);
  }

  /** Big-endian encodings of one width are ordered as their numbers are. */
  lemma {:induction false} BEOrder(v: nat, w: nat, n: nat)
    requires v < Pow256(n) && w < Pow256(n)
    ensures Less(BE(v, n), BE(w, n)) <==> v < w
    ensures BE(v, n) == BE(w, n) <==> v == w
    decreases n
  {
    if n > 0 {
      BEOrder(v / 256, w / 256, n - 1);
      LessConcat(BE(v / 256, n - 1), [v % 256], BE(w / 256, n - 1), [w % 256]);
      assert Less([v % 256], [w % 256]) <==> v % 256 < w % 256 by {
        assert !LessFrom([v % 256], [w % 256], 1);
      }
      BERoundTrip(v, n);
      BERoundTrip(w, n);
    }
  }
}
