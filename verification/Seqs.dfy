/** Sequences without repeats, and facts about slices, each stated once so that callers need no index reasoning. */
module Seqs {
  ghost predicate NoRepeats<T>(s: seq<T>)
  {
    forall i, j :: 0 <= i < j < |s| ==> s[i] != s[j]
  }

  lemma TakeDrop<T>(s: seq<T>, m: nat)
    requires m <= |s|
    ensures s[..m] + s[m..] == s
  {
  }

  /** Cutting a three-part sequence inside its middle part. */
  lemma CutMiddle<T>(a: seq<T>, m: seq<T>, c: seq<T>, j: nat)
    requires j <= |m|
    ensures (a + m + c)[..|a| + j] == a + m[..j]
    ensures (a + m + c)[|a| + j..] == m[j..] + c
  {
  }

  lemma AppendOne<T>(a: seq<T>, x: T, c: seq<T>)
    ensures a + ([x] + c) == (a + [x]) + c
  {
  }

  lemma Assoc4<T>(a: seq<T>, b: seq<T>, c: seq<T>, d: seq<T>)
    ensures (a + b) + (c + d) == a + (b + c) + d
  {
  }

  lemma Assoc5<T>(a: seq<T>, b: seq<T>, x: seq<T>, c: seq<T>, d: seq<T>)
    ensures (a + b) + x + (c + d) == a + (b + x + c) + d
  {
  }

  lemma UpdateMiddle<T>(a: seq<T>, m: seq<T>, c: seq<T>, j: nat, x: T)
    requires j < |m|
    ensures (a + m + c)[|a| + j := x] == a + m[j := x] + c
    ensures (a + m + c)[|a| + j] == m[j]
  {
  }

  lemma TakeOneMore<T>(s: seq<T>, i: nat)
    requires i < |s|
    ensures s[..i + 1] == s[..i] + [s[i]]
  {
  }

  lemma SubSlice<T>(s: seq<T>, a: nat, b: nat, c: nat, d: nat)
    requires a <= b <= |s| && c <= d <= b - a
    ensures s[a..b][c..d] == s[a + c..a + d]
  {
    var l, r := s[a..b][c..d], s[a + c..a + d];
    assert forall j :: 0 <= j < d - c ==> l[j] == r[j];
  }

  lemma Around<T>(s: seq<T>, i: nat)
    requires i < |s|
    ensures s[..i] + [s[i]] + s[i + 1..] == s
  {
  }

  lemma InsertAtIndex<T>(s: seq<T>, i: nat, x: T)
    requires i <= |s|
    ensures forall j :: 0 <= j <= |s| ==>
              (s[..i] + [x] + s[i..])[j] == if j < i then s[j] else if j == i then x else s[j - 1]
  {
  }

  lemma ReplaceIndex<T>(s: seq<T>, i: nat, x: T, y: T)
    requires i < |s|
    ensures forall j :: 0 <= j <= |s| ==>
              (s[..i] + [x, y] + s[i + 1..])[j] ==
              if j < i then s[j] else if j == i then x else if j == i + 1 then y else s[j - 1]
  {
  }

  /** Beginning with three parts is having each of them in its place. */
  lemma ThreeParts<T>(s: seq<T>, a: seq<T>, b: seq<T>, c: seq<T>)
    ensures |a + b + c| <= |s| && s[..|a + b + c|] == a + b + c <==>
              |a| + |b| + |c| <= |s| && s[..|a|] == a && s[|a|..|a| + |b|] == b
              && s[|a| + |b|..|a| + |b| + |c|] == c
  {
    var n, m := |a| + |b| + |c|, |a| + |b|;
    if n <= |s| {
      assert s[..n] == s[..|a|] + s[|a|..m] + s[m..n];
      if s[..n] == a + b + c {
        assert s[..|a|] == (a + b + c)[..|a|] && s[|a|..m] == (a + b + c)[|a|..m] && s[m..n] == (a + b + c)[m..n];
      }
    }
  }

  lemma Regroup3<T>(a: seq<T>, b: seq<T>, c: seq<T>)
    ensures a + b + c == a + (b + c)
  {
  }

  lemma Regroup4<T>(a: seq<T>, b: seq<T>, c: seq<T>, d: seq<T>)
    ensures a + b + c + d == a + (b + (c + d))
  {
    Regroup3(a + b, c, d);
    Regroup3(a, b, c + d);
  }

  lemma Regroup5<T>(a: seq<T>, b: seq<T>, c: seq<T>, d: seq<T>, e: seq<T>)
    ensures a + b + c + d + e == a + (b + (c + (d + e)))
  {
    Regroup3(a + b + c, d, e);
    Regroup4(a, b, c, d + e);
  }

  lemma Regroup6<T>(a: seq<T>, b: seq<T>, c: seq<T>, d: seq<T>, e: seq<T>, f: seq<T>)
    ensures a + b + c + d + e + f == a + (b + (c + (d + (e + f))))
  {
    Regroup3(a + b + c + d, e, f);
    Regroup5(a, b, c, d, e + f);
  }
}
