/** The string primitives of diff_match_patch.py and Python's slices. */
module Strings {
  import opened Edits

  /** Python's `t[:n]` and `t[n:]` for n >= 0, which never fail. */
  function Take(t: Text, n: nat): Text {
    if n <= |t| then t[..n] else t
  }

  function Drop(t: Text, n: nat): Text {
    if n <= |t| then t[n..] else []
  }

  /** Python's `t[-n:]` and `t[:-n]`: for n = 0 these are the whole and the empty text. */
  function TakeLast(t: Text, n: nat): Text {
    if n == 0 || n >= |t| then t else t[|t| - n..]
  }

  function DropLast(t: Text, n: nat): Text {
    if n == 0 || n >= |t| then [] else t[..|t| - n]
  }

  function Min(a: nat, b: nat): nat {
    if a < b then a else b
  }

  ghost predicate OccursAt(p: Text, t: Text, i: nat) {
    i + |p| <= |t| && t[i..i + |p|] == p
  }

  /** `t.find(p, start)`: the first occurrence from start on, or -1. */
  function Find(t: Text, p: Text, start: nat): (r: int)
    ensures r == -1 || (start <= r && OccursAt(p, t, r))
    ensures forall i: nat :: start <= i && (r == -1 || i < r) ==> !OccursAt(p, t, i)
    decreases if start <= |t| then |t| - start + 1 else 0
  {
    if start + |p| > |t| then -1
    else if t[start..start + |p|] == p then start
    else Find(t, p, start + 1)
  }

  predicate StartsWith(t: Text, p: Text) {
    |p| <= |t| && t[..|p|] == p
  }

  predicate EndsWith(t: Text, p: Text) {
    |p| <= |t| && t[|t| - |p|..] == p
  }

  /** The texts agree in their first n characters. */
  ghost predicate SameFirst(a: Text, b: Text, n: nat) {
    n <= |a| && n <= |b| && a[..n] == b[..n]
  }

  /** The texts agree in their last n characters. */
  ghost predicate SameLast(a: Text, b: Text, n: nat) {
    n <= |a| && n <= |b| && a[|a| - n..] == b[|b| - n..]
  }

  /** n is the length of the longest common prefix (suffix). */
  ghost predicate LongestPrefix(a: Text, b: Text, n: nat) {
    SameFirst(a, b, n) && forall k: nat {:trigger SameFirst(a, b, k)} :: SameFirst(a, b, k) ==> k <= n
  }

  ghost predicate LongestSuffix(a: Text, b: Text, n: nat) {
    SameLast(a, b, n) && forall k: nat {:trigger SameLast(a, b, k)} :: SameLast(a, b, k) ==> k <= n
  }

  lemma ExtendPrefix(a: Text, b: Text, min: nat, mid: nat)
    requires min <= mid <= |a| && mid <= |b| && SameFirst(a, b, min)
    ensures a[min..mid] == b[min..mid] <==> SameFirst(a, b, mid)
  {
    assert a[..mid] == a[..min] + a[min..mid] && b[..mid] == b[..min] + b[min..mid];
    assert a[min..mid] == a[..mid][min..] && b[min..mid] == b[..mid][min..];
  }

  lemma ExtendSuffix(a: Text, b: Text, min: nat, mid: nat)
    requires min <= mid <= |a| && mid <= |b| && SameLast(a, b, min)
    ensures a[|a| - mid..|a| - min] == b[|b| - mid..|b| - min] <==> SameLast(a, b, mid)
  {
    var (u, v, w, x) := (a[|a| - mid..|a| - min], a[|a| - min..], b[|b| - mid..|b| - min], b[|b| - min..]);
    assert a[|a| - mid..] == u + v && b[|b| - mid..] == w + x;
    assert u == (u + v)[..mid - min] && w == (w + x)[..mid - min];
  }

  lemma OneMoreFirst(a: Text, b: Text, n: nat)
    requires SameFirst(a, b, n) && n < |a| && n < |b|
    ensures SameFirst(a, b, n + 1) <==> a[n] == b[n]
  {
    assert a[..n + 1] == a[..n] + [a[n]] && b[..n + 1] == b[..n] + [b[n]];
  }

  lemma OneMoreLast(a: Text, b: Text, n: nat)
    requires SameLast(a, b, n) && n < |a| && n < |b|
    ensures SameLast(a, b, n + 1) <==> a[|a| - n - 1] == b[|b| - n - 1]
  {
    assert a[|a| - n - 1..] == [a[|a| - n - 1]] + a[|a| - n..] && b[|b| - n - 1..] == [b[|b| - n - 1]] + b[|b| - n..];
  }

  lemma ShorterFirst(a: Text, b: Text, n: nat, k: nat)
    requires SameFirst(a, b, k) && n <= k
    ensures SameFirst(a, b, n)
  {
    assert a[..n] == a[..k][..n] && b[..n] == b[..k][..n];
  }

  lemma ShorterLast(a: Text, b: Text, n: nat, k: nat)
    requires SameLast(a, b, k) && n <= k
    ensures SameLast(a, b, n)
  {
    assert a[|a| - n..] == a[|a| - k..][k - n..] && b[|b| - n..] == b[|b| - k..][k - n..];
  }

  /** n characters agree at one end, and no n + 1 do. */
  lemma FirstEnd(a: Text, b: Text, n: nat)
    requires SameFirst(a, b, n) && !SameFirst(a, b, n + 1)
    ensures LongestPrefix(a, b, n)
  {
    forall k: nat | SameFirst(a, b, k) ensures k <= n {
      if k > n { ShorterFirst(a, b, n + 1, k); }
    }
  }

  lemma LastEnd(a: Text, b: Text, n: nat)
    requires SameLast(a, b, n) && !SameLast(a, b, n + 1)
    ensures LongestSuffix(a, b, n)
  {
    forall k: nat | SameLast(a, b, k) ensures k <= n {
      if k > n { ShorterLast(a, b, n + 1, k); }
    }
  }

  /** `diff_commonPrefix`, by binary search. */
  method CommonPrefix(text1: Text, text2: Text) returns (n: nat)
    ensures LongestPrefix(text1, text2, n)
  {
    if text1 == [] || text2 == [] || text1[0] != text2[0] {
      NothingFirst(text1, text2);
      return 0;
    }
    var min, max := 0, Min(|text1|, |text2|);
    var mid, start := max, 0;
    while min < mid
      invariant 0 <= min <= mid <= max <= Min(|text1|, |text2|) && start == min
      invariant SameFirst(text1, text2, min)
      invariant max == mid == Min(|text1|, |text2|) || !SameFirst(text1, text2, max)
      invariant mid == max || mid - min == (max - min) / 2
      decreases 2 * (max - min) + mid - min
    {
      ExtendPrefix(text1, text2, min, mid);
      if text1[start..mid] == text2[start..mid] {
        min := mid;
        start := min;
      } else {
        max := mid;
      }
      mid := (max - min) / 2 + min;
    }
    FirstEnd(text1, text2, mid);
    return mid;
  }

  lemma NothingFirst(a: Text, b: Text)
    requires a == [] || b == [] || a[0] != b[0]
    ensures LongestPrefix(a, b, 0)
  {
    if a != [] && b != [] { OneMoreFirst(a, b, 0); }
    FirstEnd(a, b, 0);
  }

  lemma NothingLast(a: Text, b: Text)
    requires a == [] || b == [] || a[|a| - 1] != b[|b| - 1]
    ensures LongestSuffix(a, b, 0)
  {
    if a != [] && b != [] { OneMoreLast(a, b, 0); }
    LastEnd(a, b, 0);
  }

  /** `diff_commonSuffix`, by binary search. */
  method CommonSuffix(text1: Text, text2: Text) returns (n: nat)
    ensures LongestSuffix(text1, text2, n)
  {
    if text1 == [] || text2 == [] || text1[|text1| - 1] != text2[|text2| - 1] {
      NothingLast(text1, text2);
      return 0;
    }
    var min, max := 0, Min(|text1|, |text2|);
    var mid, end := max, 0;
    while min < mid
      invariant 0 <= min <= mid <= max <= Min(|text1|, |text2|) && end == min
      invariant SameLast(text1, text2, min)
      invariant max == mid == Min(|text1|, |text2|) || !SameLast(text1, text2, max)
      invariant mid == max || mid - min == (max - min) / 2
      decreases 2 * (max - min) + mid - min
    {
      ExtendSuffix(text1, text2, min, mid);
      if text1[|text1| - mid..|text1| - end] == text2[|text2| - mid..|text2| - end] {
        min := mid;
        end := min;
      } else {
        max := mid;
      }
      mid := (max - min) / 2 + min;
    }
    LastEnd(text1, text2, mid);
    return mid;
  }

  /** The last n characters of a are the first n of b. */
  ghost predicate Overlap(a: Text, b: Text, n: nat) {
    n <= |a| && n <= |b| && a[|a| - n..] == b[..n]
  }

  ghost predicate LongestOverlap(a: Text, b: Text, best: nat) {
    Overlap(a, b, best) && forall n: nat :: Overlap(a, b, n) ==> n <= best
  }

  /** `diff_commonOverlap`: the longest overlap of the end of one text with the start of another. */
  method CommonOverlap(text1: Text, text2: Text) returns (best: nat)
    ensures LongestOverlap(text1, text2, best)
  {
    if text1 == [] || text2 == [] {
      EmptyOverlap(text1, text2);
      return 0;
    }
    var l := Min(|text1|, |text2|);
    var a, b := TakeLast(text1, l), Take(text2, l);
    if a == b {
      FullOverlap(a);
      best := l;
    } else {
      best := GrowOverlap(a, b);
    }
    TrimmedLongest(text1, text2, a, b, best);
  }

  lemma EmptyOverlap(a: Text, b: Text)
    requires a == [] || b == []
    ensures LongestOverlap(a, b, 0)
  {
    assert a[|a| - 0..] == [] && b[..0] == [];
  }

  lemma FullOverlap(a: Text)
    ensures LongestOverlap(a, a, |a|)
  {
    assert a[|a| - |a|..] == a && a[..|a|] == a;
  }

  lemma TrimmedLongest(text1: Text, text2: Text, a: Text, b: Text, best: nat)
    requires var l := Min(|text1|, |text2|); l > 0 && a == TakeLast(text1, l) && b == Take(text2, l)
    requires LongestOverlap(a, b, best)
    ensures LongestOverlap(text1, text2, best)
  {
    OverlapTrimmed(text1, text2, a, b, best);
    forall n: nat | Overlap(text1, text2, n) ensures n <= best {
      OverlapTrimmed(text1, text2, a, b, n);
    }
  }

  /** The loop of `diff_commonOverlap`, for two texts of equal length. */
  method GrowOverlap(a: Text, b: Text) returns (best: nat)
    requires |a| == |b| > 0 && a != b
    ensures LongestOverlap(a, b, best)
  {
    best := 0;
    var length := 1;
    while true
      invariant 1 <= length <= |a| && best < length && Overlap(a, b, best)
      invariant forall n: nat :: Overlap(a, b, n) && n > best ==> n >= length
      decreases |a| - length
    {
      var found := Find(b, TakeLast(a, length), 0);
      OverlapsBeyond(a, b, length, found);
      if found == -1 {
        return;
      }
      length := length + found;
      OverlapTest(a, b, length);
      if found == 0 || TakeLast(a, length) == Take(b, length) {
        best := length;
        length := length + 1;
      }
    }
  }

  lemma OverlapTest(a: Text, b: Text, length: nat)
    requires |a| == |b| && a != b && 1 <= length <= |a|
    ensures Overlap(a, b, length) <==> TakeLast(a, length) == Take(b, length)
    ensures Overlap(a, b, length) ==> length < |a|
    ensures OccursAt(TakeLast(a, length), b, 0) ==> Overlap(a, b, length)
  {
    assert a[0..] == a && b[..|b|] == b;
  }

  /** No overlap of at least this length ends before the first occurrence of the pattern does. */
  lemma OverlapsBeyond(a: Text, b: Text, length: nat, found: int)
    requires |a| == |b| && 1 <= length <= |a| && found == Find(b, TakeLast(a, length), 0)
    ensures found != -1 ==> found >= 0 && length + found <= |a| && OccursAt(TakeLast(a, length), b, found)
    ensures forall n: nat :: Overlap(a, b, n) && n >= length ==> found != -1 && length + found <= n
  {
    assert |TakeLast(a, length)| == length;
    forall n: nat | Overlap(a, b, n) && n >= length ensures found != -1 && length + found <= n {
      OverlapOccurs(a, b, n, length);
    }
  }

  /** Cutting the longer text to the length of the shorter keeps the overlaps. */
  lemma OverlapTrimmed(text1: Text, text2: Text, a: Text, b: Text, n: nat)
    requires var l := Min(|text1|, |text2|); l > 0 && a == TakeLast(text1, l) && b == Take(text2, l)
    ensures Overlap(text1, text2, n) <==> Overlap(a, b, n)
  {
    var l := Min(|text1|, |text2|);
    if n <= l {
      assert a == text1[|text1| - l..] && b == text2[..l];
      assert a[l - n..] == text1[|text1| - n..] && b[..n] == text2[..n];
    }
  }

  /** A shorter suffix of the first text occurs in the second inside any longer overlap. */
  lemma OverlapOccurs(a: Text, b: Text, n: nat, length: nat)
    requires Overlap(a, b, n) && 1 <= length <= n && |a| == |b|
    ensures OccursAt(TakeLast(a, length), b, n - length)
  {
    assert b[n - length..n] == b[..n][n - length..] == a[|a| - n..][n - length..] == a[|a| - length..];
  }
}
