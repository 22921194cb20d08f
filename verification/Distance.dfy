/** The least number of characters to delete and insert between two texts, over the grid of their
    prefixes. A point (x, y) stands for the first x characters of one text and y of the other. */
module Distance {
  import opened Edits
  import opened Strings

  /** From the empty prefixes to the point. */
  function To(a: Text, b: Text, x: nat, y: nat): nat
    requires x <= |a| && y <= |b|
    decreases x + y
  {
    if x == 0 then y
    else if y == 0 then x
    else if a[x - 1] == b[y - 1] then To(a, b, x - 1, y - 1)
    else 1 + Min(To(a, b, x - 1, y), To(a, b, x, y - 1))
  }

  function Dist(a: Text, b: Text): nat {
    To(a, b, |a|, |b|)
  }

  /** Neighbours differ by one at most. */
  lemma {:induction false} Near(a: Text, b: Text, x: nat, y: nat)
    requires x <= |a| && y <= |b|
    ensures x < |a| ==> -1 <= To(a, b, x + 1, y) - To(a, b, x, y) <= 1
    ensures y < |b| ==> -1 <= To(a, b, x, y + 1) - To(a, b, x, y) <= 1
    decreases x + y
  {
    if x > 0 { Near(a, b, x - 1, y); }
    if y > 0 { Near(a, b, x, y - 1); }
  }

  /** Along a diagonal the distance does not fall, and over equal characters it stays. */
  lemma Diagonal(a: Text, b: Text, x: nat, y: nat)
    requires x < |a| && y < |b|
    ensures To(a, b, x, y) <= To(a, b, x + 1, y + 1)
    ensures a[x] == b[y] ==> To(a, b, x + 1, y + 1) == To(a, b, x, y)
  {
    Near(a, b, x, y);
  }

  lemma {:induction false} FurtherOn(a: Text, b: Text, x: nat, y: nat, j: nat)
    requires x + j <= |a| && y + j <= |b|
    ensures To(a, b, x, y) <= To(a, b, x + j, y + j)
    decreases j
  {
    if j > 0 {
      FurtherOn(a, b, x, y, j - 1);
      Diagonal(a, b, x + j - 1, y + j - 1);
    }
  }

  /** What is not edited are c characters of both. */
  lemma {:induction false} Common(a: Text, b: Text, x: nat, y: nat) returns (c: nat)
    requires x <= |a| && y <= |b|
    ensures c <= x && c <= y && To(a, b, x, y) == x + y - 2 * c
    decreases x + y
  {
    if x == 0 || y == 0 {
      c := 0;
    } else if a[x - 1] == b[y - 1] {
      c := Common(a, b, x - 1, y - 1);
      c := c + 1;
    } else if To(a, b, x - 1, y) < To(a, b, x, y - 1) {
      c := Common(a, b, x - 1, y);
    } else {
      c := Common(a, b, x, y - 1);
    }
  }

  // ---------------------------------------------------------------------------
  // From a point to the end

  function Reversed(a: Text): (r: Text)
    ensures |r| == |a| && forall i :: 0 <= i < |a| ==> r[i] == a[|a| - 1 - i]
  {
    seq(|a|, i requires 0 <= i < |a| => a[|a| - 1 - i])
  }

  lemma ReversedTwice(a: Text)
    ensures Reversed(Reversed(a)) == a
  {}

  /** The same for what is left of the texts at the point. */
  function From(a: Text, b: Text, x: nat, y: nat): nat
    requires x <= |a| && y <= |b|
  {
    To(Reversed(a), Reversed(b), |a| - x, |b| - y)
  }

  lemma FromStep(a: Text, b: Text, x: nat, y: nat)
    requires x <= |a| && y <= |b|
    ensures x == |a| ==> From(a, b, x, y) == |b| - y
    ensures y == |b| ==> From(a, b, x, y) == |a| - x
    ensures x < |a| && y < |b| ==>
              From(a, b, x, y) == if a[x] == b[y] then From(a, b, x + 1, y + 1)
                                  else 1 + Min(From(a, b, x + 1, y), From(a, b, x, y + 1))
  {}

  /** Through a point there is no shorter way. */
  lemma {:induction false} Through(a: Text, b: Text, x: nat, y: nat)
    requires x <= |a| && y <= |b|
    ensures Dist(a, b) <= To(a, b, x, y) + From(a, b, x, y)
    decreases |a| - x + |b| - y
  {
    FromStep(a, b, x, y);
    Near(a, b, x, y);
    if x < |a| && y < |b| {
      Diagonal(a, b, x, y);
      if a[x] == b[y] { Through(a, b, x + 1, y + 1); }
      Through(a, b, x + 1, y);
      Through(a, b, x, y + 1);
    } else if x < |a| {
      FromStep(a, b, x + 1, y);
      Through(a, b, x + 1, y);
    } else if y < |b| {
      FromStep(a, b, x, y + 1);
      Through(a, b, x, y + 1);
    }
  }

  /** Turned around, the two distances change places. */
  lemma TurnedAround(a: Text, b: Text, x: nat, y: nat)
    requires x <= |a| && y <= |b|
    ensures To(Reversed(a), Reversed(b), |a| - x, |b| - y) == From(a, b, x, y)
    ensures From(Reversed(a), Reversed(b), |a| - x, |b| - y) == To(a, b, x, y)
  {
    ReversedTwice(a);
    ReversedTwice(b);
  }

  lemma DistTurned(a: Text, b: Text)
    ensures Dist(Reversed(a), Reversed(b)) == Dist(a, b) == From(a, b, 0, 0)
  {
    Through(a, b, 0, 0);
    Through(Reversed(a), Reversed(b), 0, 0);
    TurnedAround(a, b, |a|, |b|);
  }

  // ---------------------------------------------------------------------------
  // Points on shortest ways

  ghost predicate Best(a: Text, b: Text, x: nat, y: nat) {
    x <= |a| && y <= |b| && To(a, b, x, y) + From(a, b, x, y) == Dist(a, b)
  }

  lemma BestTurned(a: Text, b: Text, x: nat, y: nat)
    requires Best(a, b, x, y)
    ensures Best(Reversed(a), Reversed(b), |a| - x, |b| - y)
  {
    TurnedAround(a, b, x, y);
    DistTurned(a, b);
  }

  /** From (x, y) on, the characters are equal up to x1. */
  ghost predicate SameRun(a: Text, b: Text, x: nat, y: nat, x1: nat)
    requires x <= x1 <= |a| && y + (x1 - x) <= |b|
  {
    forall i: nat {:trigger a[i]} :: x <= i < x1 ==> a[i] == b[y + (i - x)]
  }

  /** Before a best point, over equal characters, comes one that a single edit leads to. */
  lemma {:induction false} LastEdit(a: Text, b: Text, x: nat, y: nat) returns (x0: nat, y0: nat, right: bool)
    requires Best(a, b, x, y) && To(a, b, x, y) > 0
    ensures x0 <= x && y0 <= y && x - x0 == y - y0 && SameRun(a, b, x0, y0, x)
    ensures right ==> x0 > 0 && Best(a, b, x0 - 1, y0) && To(a, b, x0 - 1, y0) == To(a, b, x, y) - 1
    ensures !right ==> y0 > 0 && Best(a, b, x0, y0 - 1) && To(a, b, x0, y0 - 1) == To(a, b, x, y) - 1
    decreases x
  {
    if x > 0 && y > 0 && a[x - 1] == b[y - 1] {
      FromStep(a, b, x - 1, y - 1);
      x0, y0, right := LastEdit(a, b, x - 1, y - 1);
    } else {
      x0, y0 := x, y;
      right := y == 0 || (x > 0 && To(a, b, x - 1, y) == To(a, b, x, y) - 1);
      if right { OneBefore(a, b, x, y, x - 1, y); } else { OneBefore(a, b, x, y, x, y - 1); }
    }
  }

  lemma OneBefore(a: Text, b: Text, x: nat, y: nat, x0: nat, y0: nat)
    requires Best(a, b, x, y) && x0 <= x && y0 <= y && x0 + y0 + 1 == x + y && To(a, b, x0, y0) == To(a, b, x, y) - 1
    ensures Best(a, b, x0, y0)
  {
    Through(a, b, x0, y0);
    FromNear(a, b, x0, y0);
  }

  lemma FromNear(a: Text, b: Text, x: nat, y: nat)
    requires x <= |a| && y <= |b|
    ensures x < |a| ==> -1 <= From(a, b, x, y) - From(a, b, x + 1, y) <= 1
    ensures y < |b| ==> -1 <= From(a, b, x, y) - From(a, b, x, y + 1) <= 1
  {
    if x < |a| { Near(Reversed(a), Reversed(b), |a| - x - 1, |b| - y); }
    if y < |b| { Near(Reversed(a), Reversed(b), |a| - x, |b| - y - 1); }
  }

  /** At each distance there is a best point. */
  lemma {:induction false} BestAt(a: Text, b: Text, c: nat) returns (x: nat, y: nat)
    requires c <= Dist(a, b)
    ensures Best(a, b, x, y) && To(a, b, x, y) == c
    decreases Dist(a, b) - c
  {
    if c == Dist(a, b) {
      x, y := |a|, |b|;
      FromStep(a, b, x, y);
    } else {
      x, y := BestAt(a, b, c + 1);
      var x0, y0, right := LastEdit(a, b, x, y);
      x, y := if right then x0 - 1 else x0, if right then y0 else y0 - 1;
    }
  }

  /** From a best point above a diagonal that is not below the end's, a shortest way crosses it. */
  lemma {:induction false} Crossing(a: Text, b: Text, x: nat, y: nat, k: int) returns (x1: nat, y1: nat)
    requires Best(a, b, x, y) && x - y >= k >= |a| - |b|
    ensures Best(a, b, x1, y1) && x1 - y1 == k && To(a, b, x1, y1) >= To(a, b, x, y)
    decreases |a| - x + |b| - y
  {
    if x - y == k {
      x1, y1 := x, y;
    } else {
      FromStep(a, b, x, y);
      assert y < |b|;
      if x < |a| && a[x] == b[y] {
        Diagonal(a, b, x, y);
        x1, y1 := Crossing(a, b, x + 1, y + 1, k);
      } else if x < |a| && From(a, b, x + 1, y) < From(a, b, x, y) {
        OneRight(a, b, x, y);
        x1, y1 := Crossing(a, b, x + 1, y, k);
      } else {
        FromStep(a, b, x, y + 1);
        OneDown(a, b, x, y);
        x1, y1 := Crossing(a, b, x, y + 1, k);
      }
    }
  }

  lemma OneRight(a: Text, b: Text, x: nat, y: nat)
    requires Best(a, b, x, y) && x < |a| && From(a, b, x + 1, y) == From(a, b, x, y) - 1
    ensures Best(a, b, x + 1, y) && To(a, b, x + 1, y) == To(a, b, x, y) + 1
  {
    Through(a, b, x + 1, y);
    Near(a, b, x, y);
  }

  lemma OneDown(a: Text, b: Text, x: nat, y: nat)
    requires Best(a, b, x, y) && y < |b| && From(a, b, x, y + 1) == From(a, b, x, y) - 1
    ensures Best(a, b, x, y + 1) && To(a, b, x, y + 1) == To(a, b, x, y) + 1
  {
    Through(a, b, x, y + 1);
    Near(a, b, x, y);
  }

  // ---------------------------------------------------------------------------
  // Points outside the grid

  function Over(x: nat, n: nat): nat {
    if x > n then x - n else 0
  }

  /** The search goes on outside the grid, where every step is an edit. */
  function Outside(a: Text, b: Text, x: nat, y: nat): nat {
    To(a, b, Min(x, |a|), Min(y, |b|)) + Over(x, |a|) + Over(y, |b|)
  }

  lemma OutsideStep(a: Text, b: Text, x: nat, y: nat)
    ensures Outside(a, b, x + 1, y) <= Outside(a, b, x, y) + 1
    ensures Outside(a, b, x, y + 1) <= Outside(a, b, x, y) + 1
    ensures x < |a| && y < |b| && a[x] == b[y] ==> Outside(a, b, x + 1, y + 1) == Outside(a, b, x, y)
  {
    Near(a, b, Min(x, |a|), Min(y, |b|));
    if x < |a| && y < |b| { Diagonal(a, b, x, y); }
  }

  predicate OnGrid(a: Text, b: Text, x: int, y: int) {
    0 <= x <= |a| && 0 <= y <= |b|
  }

  /** Where a point outside the grid can be reached, the way over the edge of the grid is shorter than any
      that comes to its diagonal inside. */
  lemma BeyondEdge(a: Text, b: Text, x: nat, y: nat, x0: nat, y0: nat)
    requires !OnGrid(a, b, x, y) && OnGrid(a, b, x0, y0) && x - y == x0 - y0
    ensures Dist(a, b) <= Outside(a, b, x, y) + From(a, b, x0, y0) - 2
  {
    if x > |a| && y > |b| {
    } else if x > |a| {
      var i := x - |a|;
      FurtherFrom(a, b, x0, y0, |a| - x0);
      FromStep(a, b, |a|, y - i);
      FromStep(a, b, |a|, y);
      Through(a, b, |a|, y);
    } else {
      var i := y - |b|;
      FurtherFrom(a, b, x0, y0, |b| - y0);
      FromStep(a, b, x - i, |b|);
      FromStep(a, b, x, |b|);
      Through(a, b, x, |b|);
    }
  }

  lemma FurtherFrom(a: Text, b: Text, x: nat, y: nat, j: nat)
    requires x + j <= |a| && y + j <= |b|
    ensures From(a, b, x + j, y + j) <= From(a, b, x, y)
  {
    FurtherOn(Reversed(a), Reversed(b), |a| - x - j, |b| - y - j, j);
  }

  // ---------------------------------------------------------------------------
  // Parts of texts

  /** The distance depends on the prefixes alone. */
  lemma {:induction false} SamePrefixes(a: Text, b: Text, c: Text, d: Text, x: nat, y: nat)
    requires x <= |a| && x <= |c| && y <= |b| && y <= |d|
    requires (forall i {:trigger a[i]} :: 0 <= i < x ==> a[i] == c[i]) && (forall i {:trigger b[i]} :: 0 <= i < y ==> b[i] == d[i])
    ensures To(a, b, x, y) == To(c, d, x, y)
    decreases x + y
  {
    if x > 0 && y > 0 {
      SamePrefixes(a, b, c, d, x - 1, y - 1);
      SamePrefixes(a, b, c, d, x - 1, y);
      SamePrefixes(a, b, c, d, x, y - 1);
    }
  }

  lemma PrefixDist(a: Text, b: Text, x: nat, y: nat)
    requires x <= |a| && y <= |b|
    ensures To(a, b, x, y) == Dist(a[..x], b[..y])
  {
    SamePrefixes(a, b, a[..x], b[..y], x, y);
  }

  lemma SuffixDist(a: Text, b: Text, x: nat, y: nat)
    requires x <= |a| && y <= |b|
    ensures From(a, b, x, y) == Dist(a[x..], b[y..])
  {
    PrefixDist(Reversed(a), Reversed(b), |a| - x, |b| - y);
    assert Reversed(a)[..|a| - x] == Reversed(a[x..]) && Reversed(b)[..|b| - y] == Reversed(b[y..]);
    DistTurned(a[x..], b[y..]);
  }

  /** Cut at a point on a shortest way, the distances of the parts add up. */
  lemma BestSplit(a: Text, b: Text, x: nat, y: nat)
    requires Best(a, b, x, y)
    ensures Dist(a, b) == Dist(a[..x], b[..y]) + Dist(a[x..], b[y..])
  {
    PrefixDist(a, b, x, y);
    SuffixDist(a, b, x, y);
  }

  lemma DistBound(a: Text, b: Text)
    ensures |a| - |b| <= Dist(a, b) && |b| - |a| <= Dist(a, b) <= |a| + |b| && Dist(a, a) == 0
  {
    var c := Common(a, b, |a|, |b|);
    SameText(a, |a|);
  }

  lemma {:induction false} SameText(a: Text, x: nat)
    requires x <= |a|
    ensures To(a, a, x, x) == 0
    decreases x
  {
    if x > 0 { SameText(a, x - 1); }
  }

  lemma {:induction false} CommonTail(a: Text, b: Text, t: Text)
    ensures Dist(a + t, b + t) == Dist(a, b)
    decreases |t|
  {
    if t == [] {
      assert a + t == a && b + t == b;
    } else {
      var t0 := t[..|t| - 1];
      CommonTail(a, b, t0);
      var c, d := a + t, b + t;
      PrefixDist(c, d, |c| - 1, |d| - 1);
      assert c[..|c| - 1] == a + t0 && d[..|d| - 1] == b + t0;
      Diagonal(c, d, |c| - 1, |d| - 1);
    }
  }

  lemma CommonHead(h: Text, a: Text, b: Text)
    ensures Dist(h + a, h + b) == Dist(a, b)
  {
    assert Reversed(h + a) == Reversed(a) + Reversed(h) && Reversed(h + b) == Reversed(b) + Reversed(h);
    CommonTail(Reversed(a), Reversed(b), Reversed(h));
    DistTurned(h + a, h + b);
    DistTurned(a, b);
  }

  lemma {:induction false} LongerLeft(a: Text, b: Text, t: Text)
    ensures Dist(a + t, b) <= Dist(a, b) + |t|
    decreases |t|
  {
    if t == [] {
      assert a + t == a;
    } else {
      var t0, c := t[..|t| - 1], a + t;
      LongerLeft(a, b, t0);
      PrefixDist(c, b, |c| - 1, |b|);
      assert c[..|c| - 1] == a + t0 && b[..|b|] == b;
      Near(c, b, |c| - 1, |b|);
    }
  }

  lemma {:induction false} LongerRight(a: Text, b: Text, t: Text)
    ensures Dist(a, b + t) <= Dist(a, b) + |t|
    decreases |t|
  {
    if t == [] {
      assert b + t == b;
    } else {
      var t0, c := t[..|t| - 1], b + t;
      LongerRight(a, b, t0);
      PrefixDist(a, c, |a|, |c| - 1);
      assert c[..|c| - 1] == b + t0 && a[..|a|] == a;
      Near(a, c, |a|, |c| - 1);
    }
  }

  // ---------------------------------------------------------------------------
  // Edit lists

  /** No list that spells two texts changes fewer characters than their distance. */
  lemma {:induction false} AtLeast(d: seq<Edit>)
    ensures Dist(Text1(d), Text2(d)) <= Edited(d)
    decreases |d|
  {
    if d != [] {
      var d0, e := d[..|d| - 1], d[|d| - 1];
      AtLeast(d0);
      assert d == d0 + [e];
      match e.op
      case Equal => CommonTail(Text1(d0), Text2(d0), e.text);
      case Delete =>
        LongerLeft(Text1(d0), Text2(d0), e.text);
        assert Text2(d0) + [] == Text2(d0);
      case Insert =>
        LongerRight(Text1(d0), Text2(d0), e.text);
        assert Text1(d0) + [] == Text1(d0);
    }
  }

  /** A list is a shortest one for two texts. */
  ghost predicate Shortest(d: seq<Edit>, a: Text, b: Text) {
    Spells(d, a, b) && forall e {:trigger Spells(e, a, b)} :: Spells(e, a, b) ==> Edited(d) <= Edited(e)
  }

  lemma IsShortest(d: seq<Edit>, a: Text, b: Text)
    requires Spells(d, a, b) && Edited(d) <= Dist(a, b)
    ensures Shortest(d, a, b)
  {
    forall e | Spells(e, a, b) ensures Edited(d) <= Edited(e) { AtLeast(e); }
  }
}
