/** `diff_halfMatch`: a substring of both texts at least half as long as the longer one. */
module HalfMatch {
  import opened Types
  import opened Edits
  import opened Strings

  /** The two texts around their common middle: the source's five-element tuple. */
  datatype Half = Half(a1: Text, b1: Text, a2: Text, b2: Text, common: Text) {
    function Swapped(): Half {
      Half(a2, b2, a1, b1, common)
    }
  }

  ghost predicate Matches(h: Half, text1: Text, text2: Text) {
    text1 == h.a1 + h.common + h.b1 && text2 == h.a2 + h.common + h.b2
  }

  ghost predicate HalfOf(h: Half, text1: Text, text2: Text) {
    && Matches(h, text1, text2) && h.common != []
    && 2 * |h.common| >= |text1| && 2 * |h.common| >= |text2|
  }

  /** Extending a common seed at i and j as far as the texts agree. */
  lemma Extended(long: Text, short: Text, i: nat, j: nat, p: nat, q: nat)
    requires i <= |long| && j <= |short|
    requires SameFirst(long[i..], short[j..], p) && SameLast(long[..i], short[..j], q)
    ensures p <= |long| - i && p <= |short| - j && q <= i && q <= j
    ensures Matches(Half(long[..i - q], long[i + p..], short[..j - q], short[j + p..], short[j - q..j] + short[j..j + p]),
                    long, short)
  {
    SameAfter(long, short, i, j, p);
    SameBefore(long, short, i, j, q);
    Pieces(long, i - q, i, i + p);
    Pieces(short, j - q, j, j + p);
  }

  lemma SameAfter(long: Text, short: Text, i: nat, j: nat, p: nat)
    requires i <= |long| && j <= |short| && SameFirst(long[i..], short[j..], p)
    ensures i + p <= |long| && j + p <= |short| && long[i..i + p] == short[j..j + p]
  {
    assert long[i..][..p] == long[i..i + p] && short[j..][..p] == short[j..j + p];
  }

  lemma SameBefore(long: Text, short: Text, i: nat, j: nat, q: nat)
    requires i <= |long| && j <= |short| && SameLast(long[..i], short[..j], q)
    ensures q <= i && q <= j && long[i - q..i] == short[j - q..j]
  {
    assert long[..i][i - q..] == long[i - q..i] && short[..j][j - q..] == short[j - q..j];
  }

  lemma Pieces(t: Text, a: nat, b: nat, c: nat)
    requires a <= b <= c <= |t|
    ensures t == t[..a] + (t[a..b] + t[b..c]) + t[c..]
  {}

  // ---------------------------------------------------------------------------
  // Common substrings

  ghost predicate Occurs(c: Text, t: Text) {
    exists i: nat :: OccursAt(c, t, i)
  }

  ghost predicate Shared(c: Text, a: Text, b: Text) {
    Occurs(c, a) && Occurs(c, b)
  }

  /** A common substring at least half as long as each text. */
  ghost predicate HalfShared(c: Text, a: Text, b: Text) {
    Shared(c, a, b) && 2 * |c| >= |a| && 2 * |c| >= |b|
  }

  lemma OccursInside(c: Text, a: Text, b: Text, e: Text)
    requires Occurs(c, b)
    ensures Occurs(c, a + b + e)
  {
    var i: nat :| OccursAt(c, b, i);
    assert (a + b + e)[|a| + i..|a| + i + |c|] == b[i..i + |c|];
    assert OccursAt(c, a + b + e, |a| + i);
  }

  lemma SharedInside(c: Text, prefix: Text, a: Text, b: Text, suffix: Text)
    requires Shared(c, a, b)
    ensures Shared(c, prefix + a + suffix, prefix + b + suffix)
  {
    OccursInside(c, prefix, a, suffix);
    OccursInside(c, prefix, b, suffix);
  }

  lemma SharedParts(c: Text, a1: Text, b1: Text, a2: Text, b2: Text)
    requires Shared(c, a1, a2) || Shared(c, b1, b2)
    ensures Shared(c, a1 + b1, a2 + b2)
  {
    Ends(a1, b1);
    Ends(a2, b2);
    if Shared(c, a1, a2) {
      OccursInside(c, [], a1, b1);
      OccursInside(c, [], a2, b2);
    } else {
      OccursInside(c, a1, b1, []);
      OccursInside(c, a2, b2, []);
    }
  }

  lemma Ends(a: Text, b: Text)
    ensures [] + a + b == a + b && a + b + [] == a + b
  {}

  lemma SharedBefore(c: Text, h: Half, text1: Text, text2: Text)
    requires Matches(h, text1, text2) && Shared(c, h.a1, h.a2)
    ensures Shared(c, text1, text2)
  {
    SharedParts(c, h.a1, h.common, h.a2, h.common);
    SharedParts(c, h.a1 + h.common, h.b1, h.a2 + h.common, h.b2);
  }

  lemma SharedBehind(c: Text, h: Half, text1: Text, text2: Text)
    requires Matches(h, text1, text2) && Shared(c, h.b1, h.b2)
    ensures Shared(c, text1, text2)
  {
    SharedParts(c, h.a1 + h.common, h.b1, h.a2 + h.common, h.b2);
  }

  /** m characters from s on in the one text, and from t on in the other, are the same. */
  ghost predicate Shares(a: Text, b: Text, s: nat, t: nat, m: nat) {
    s + m <= |a| && t + m <= |b| && a[s..s + m] == b[t..t + m]
  }

  /** They contain n characters of the first text from i on. */
  ghost predicate Covers(a: Text, b: Text, i: nat, n: nat, s: nat, t: nat, m: nat) {
    Shares(a, b, s, t, m) && s <= i && i + n <= s + m
  }

  lemma SharesPart(a: Text, b: Text, s: nat, t: nat, m: nat, p: nat, n: nat)
    requires Shares(a, b, s, t, m) && p + n <= m
    ensures Shares(a, b, s + p, t + p, n)
  {
    Inner(a, s, m, p, n);
    Inner(b, t, m, p, n);
  }

  lemma Inner(a: Text, s: nat, m: nat, p: nat, n: nat)
    requires s + m <= |a| && p + n <= m
    ensures a[s..s + m][p..p + n] == a[s + p..s + p + n]
  {
    assert (s + p) + n == s + (p + n);
    var u, v := a[s..s + m][p..p + n], a[s + p..s + p + n];
    assert |u| == |v| && forall k :: 0 <= k < n ==> u[k] == v[k];
  }

  /** A substring that covers the seed shows where the seed occurs, and is no longer than its extension there. */
  lemma SeedThere(long: Text, short: Text, i: nat, n: nat, s: nat, t: nat, m: nat)
    requires Covers(long, short, i, n, s, t, m)
    ensures OccursAt(Take(Drop(long, i), n), short, t + (i - s))
  {
    SharesPart(long, short, s, t, m, i - s, n);
    assert long[i..][..n] == long[i..i + n];
  }

  lemma Reaches(long: Text, short: Text, i: nat, n: nat, s: nat, t: nat, m: nat, p: nat, q: nat)
    requires Covers(long, short, i, n, s, t, m)
    requires i <= |long| && t + (i - s) <= |short| && LongestPrefix(Drop(long, i), Drop(short, t + (i - s)), p)
    requires LongestSuffix(Take(long, i), Take(short, t + (i - s)), q)
    ensures m <= p + q
  {
    var j, k := t + (i - s), s + m - i;
    SharesPart(long, short, s, t, m, i - s, k);
    assert long[i..][..k] == long[i..i + k] && short[j..][..k] == short[j..j + k];
    assert SameFirst(Drop(long, i), Drop(short, j), k);
    SharesPart(long, short, s, t, m, 0, i - s);
    assert long[..i][s..] == long[s..i] && short[..j][t..] == short[t..j];
    assert SameLast(Take(long, i), Take(short, j), i - s);
  }

  /** All that covers the seed and begins before j in the shorter text has been found. */
  ghost predicate FoundBefore(long: Text, short: Text, i: nat, n: nat, j: int, found: nat) {
    forall s: nat, t: nat, m: nat {:trigger Covers(long, short, i, n, s, t, m)} ::
      Covers(long, short, i, n, s, t, m) && (j == -1 || t + (i - s) < j) ==> m <= found
  }

  lemma FoundThere(long: Text, short: Text, i: nat, n: nat, j: nat, next: int, found: nat, p: nat, q: nat, best: nat)
    requires FoundBefore(long, short, i, n, j, found) && i <= |long| && j <= |short|
    requires LongestPrefix(Drop(long, i), Drop(short, j), p) && LongestSuffix(Take(long, i), Take(short, j), q)
    requires next == Find(short, Take(Drop(long, i), n), j + 1) && best >= found && best >= p + q
    ensures FoundBefore(long, short, i, n, next, best)
  {
    forall s: nat, t: nat, m: nat {:trigger Covers(long, short, i, n, s, t, m)} |
      Covers(long, short, i, n, s, t, m) && (next == -1 || t + (i - s) < next)
      ensures m <= best
    {
      SeedThere(long, short, i, n, s, t, m);
      if t + (i - s) == j { Reaches(long, short, i, n, s, t, m, p, q); }
    }
  }

  lemma NothingFound(long: Text, short: Text, i: nat, n: nat, first: int)
    requires first == Find(short, Take(Drop(long, i), n), 0)
    ensures FoundBefore(long, short, i, n, first, 0)
  {
    forall s: nat, t: nat, m: nat {:trigger Covers(long, short, i, n, s, t, m)} | Covers(long, short, i, n, s, t, m)
      ensures OccursAt(Take(Drop(long, i), n), short, t + (i - s))
    {
      SeedThere(long, short, i, n, s, t, m);
    }
  }

  /** The longest common extension of a quarter of the longer text, if long enough: nothing in common that
      contains this quarter is longer. */
  method HalfMatchAt(long: Text, short: Text, i: nat) returns (r: Option<Half>)
    requires |short| <= |long| && 4 <= |long| && i <= |long|
    ensures r.Some? ==> HalfOf(r.value, long, short)
    ensures FoundBefore(long, short, i, |long| / 4, -1, if r.Some? then |r.value.common| else (|long| - 1) / 2)
  {
    var seed := Take(Drop(long, i), |long| / 4);
    var best := Half([], [], [], [], []);
    var j := Find(short, seed, 0);
    NothingFound(long, short, i, |long| / 4, j);
    while j != -1
      invariant j == -1 || (0 <= j && OccursAt(seed, short, j))
      invariant best.common == [] || Matches(best, long, short)
      invariant FoundBefore(long, short, i, |long| / 4, j, |best.common|)
      decreases if j == -1 then 0 else |short| + 1 - j
    {
      var prefix := CommonPrefix(Drop(long, i), Drop(short, j));
      var suffix := CommonSuffix(Take(long, i), Take(short, j));
      Extended(long, short, i, j, prefix, suffix);
      ghost var (j0, found) := (j, |best.common|);
      if |best.common| < suffix + prefix {
        best := Half(long[..i - suffix], long[i + prefix..], short[..j - suffix], short[j + prefix..],
                     short[j - suffix..j] + short[j..j + prefix]);
      }
      j := Find(short, seed, j + 1);
      FoundThere(long, short, i, |long| / 4, j0, j, found, prefix, suffix, |best.common|);
    }
    if |best.common| * 2 >= |long| {
      r := Some(best);
    } else {
      r := None;
    }
  }

  /** What is half as long as the longer text contains its second or its third quarter. */
  lemma ContainsQuarter(long: Text, short: Text, s: nat, t: nat, m: nat)
    requires Shares(long, short, s, t, m) && 2 * m >= |long|
    ensures Covers(long, short, (|long| + 3) / 4, |long| / 4, s, t, m) || Covers(long, short, (|long| + 1) / 2, |long| / 4, s, t, m)
  {}

  /** The longest common substring, if it is half as long as the longer text; unless there is no time limit or
      the texts are short. */
  method FindHalf(unlimited: bool, text1: Text, text2: Text) returns (r: Option<Half>)
    ensures r.Some? ==> HalfOf(r.value, text1, text2) && |r.value.common| >= 2
    ensures r.Some? <==> !unlimited && (|text1| >= 4 || |text2| >= 4) && exists c :: HalfShared(c, text1, text2)
    ensures r.Some? ==> forall c :: Shared(c, text1, text2) ==> |c| <= |r.value.common|
  {
    if unlimited { return None; }
    var long, short := if |text1| > |text2| then text1 else text2, if |text1| > |text2| then text2 else text1;
    if |long| < 4 || |short| * 2 < |long| {
      NotTooLong(text1, text2);
      return None;
    }
    var hm1 := HalfMatchAt(long, short, (|long| + 3) / 4);
    var hm2 := HalfMatchAt(long, short, (|long| + 1) / 2);
    ghost var most := Most(hm1, hm2, long);
    AllFound(long, short, hm1, hm2);
    BothWays(text1, text2, long, short, most);
    if hm1.None? && hm2.None? {
      return None;
    }
    var hm := if hm2.None? then hm1.value
              else if hm1.None? then hm2.value
              else if |hm1.value.common| > |hm2.value.common| then hm1.value else hm2.value;
    r := Some(if |text1| > |text2| then hm else hm.Swapped());
    HalfIsShared(r.value, text1, text2);
  }

  /** The length of the longer match, or just less than half of the text. */
  ghost function Most(hm1: Option<Half>, hm2: Option<Half>, long: Text): nat {
    var a := if hm1.Some? then |hm1.value.common| else 0;
    var b := if hm2.Some? then |hm2.value.common| else 0;
    if hm1.None? && hm2.None? then if long == [] then 0 else (|long| - 1) / 2 else Max(a, b)
  }

  function Max(a: nat, b: nat): nat {
    if a > b then a else b
  }

  lemma AllFound(long: Text, short: Text, hm1: Option<Half>, hm2: Option<Half>)
    requires 4 <= |long| && (hm1.Some? ==> HalfOf(hm1.value, long, short)) && (hm2.Some? ==> HalfOf(hm2.value, long, short))
    requires FoundBefore(long, short, (|long| + 3) / 4, |long| / 4, -1, if hm1.Some? then |hm1.value.common| else (|long| - 1) / 2)
    requires FoundBefore(long, short, (|long| + 1) / 2, |long| / 4, -1, if hm2.Some? then |hm2.value.common| else (|long| - 1) / 2)
    ensures forall c :: Shared(c, long, short) ==> |c| <= Most(hm1, hm2, long)
  {
    forall c | Shared(c, long, short) ensures |c| <= Most(hm1, hm2, long) {
      var s: nat :| OccursAt(c, long, s);
      var t: nat :| OccursAt(c, short, t);
      assert Shares(long, short, s, t, |c|);
      if 2 * |c| >= |long| { ContainsQuarter(long, short, s, t, |c|); }
    }
  }

  lemma BothWays(text1: Text, text2: Text, long: Text, short: Text, most: nat)
    requires (long, short) == (text1, text2) || (long, short) == (text2, text1)
    requires forall c :: Shared(c, long, short) ==> |c| <= most
    ensures forall c :: Shared(c, text1, text2) ==> |c| <= most
  {
    forall c | Shared(c, text1, text2) ensures |c| <= most { assert Shared(c, long, short); }
  }

  lemma NotTooLong(text1: Text, text2: Text)
    ensures forall c :: Shared(c, text1, text2) ==> |c| <= |text1| && |c| <= |text2|
  {}

  lemma HalfIsShared(h: Half, text1: Text, text2: Text)
    requires HalfOf(h, text1, text2)
    ensures HalfShared(h.common, text1, text2)
  {
    assert OccursAt(h.common, text1, |h.a1|);
    assert OccursAt(h.common, text2, |h.a2|);
  }
}
