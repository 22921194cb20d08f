/** What the furthest points of the search say: what they cost, which best points they have passed, and why
    the diagonals that are no longer visited do not matter. */
module Furthest {
  import opened Edits
  import opened Strings
  import opened Distance

  /** The cell of diagonal i - off holds a point that d edits lead to, or d - 1 on the diagonals that step d
      does not visit. */
  ghost predicate CostOk(s: Text, t: Text, v: seq<int>, off: nat, d: int, i: nat)
    requires i < |v|
  {
    var y := v[i] - (i - off);
    v[i] >= 0 && y >= 0 ==> Outside(s, t, v[i], y) <= if (i - off - d) % 2 == 0 then d else d - 1
  }

  ghost predicate Costs(s: Text, t: Text, v: seq<int>, off: nat, d: int) {
    forall i: nat {:trigger CostOk(s, t, v, off, d, i)} :: i < |v| ==> CostOk(s, t, v, off, d, i)
  }

  lemma CostsNext(s: Text, t: Text, v: seq<int>, off: nat, d: int)
    requires Costs(s, t, v, off, d)
    ensures Costs(s, t, v, off, d + 1)
  {
    var next := d + 1;
    forall i: nat | i < |v| ensures CostOk(s, t, v, off, next, i) {
      assert CostOk(s, t, v, off, d, i);
    }
  }

  /** A best point at distance c. */
  ghost predicate Level(s: Text, t: Text, x: nat, y: nat, c: int) {
    Best(s, t, x, y) && To(s, t, x, y) == c
  }

  ghost predicate Passed(v: seq<int>, off: nat, x: nat, y: nat) {
    0 <= off + x - y < |v| && v[off + x - y] >= x
  }

  /** The best points at distance c on diagonals before k have been passed. */
  ghost predicate AllPassed(s: Text, t: Text, v: seq<int>, off: nat, c: int, k: int) {
    forall x: nat, y: nat {:trigger Level(s, t, x, y, c)} :: Level(s, t, x, y, c) && x - y < k ==> Passed(v, off, x, y)
  }

  /** A distance and its diagonal. */
  lemma OnDiagonal(s: Text, t: Text, x: nat, y: nat)
    requires x <= |s| && y <= |t|
    ensures var c: int := To(s, t, x, y); -c <= x - y <= c && (x - y - c) % 2 == 0
  {
    var c := Common(s, t, x, y);
    var half: int := c - y;
    assert x - y - To(s, t, x, y) == 2 * half;
  }

  // ---------------------------------------------------------------------------
  // Diagonals cut off

  ghost predicate OverRight(s: Text, t: Text, x: nat, y: nat, c: int) {
    x > |s| && Outside(s, t, x, y) <= c
  }

  /** Where diagonals are cut off at the end, one further down has left the grid on the right. */
  ghost predicate RightCut(s: Text, t: Text, d: int, end: int) {
    end == 0 || SomeRight(s, t, d - 1, d - end + 1)
  }

  ghost predicate SomeRight(s: Text, t: Text, c: int, k: int) {
    exists x: nat, y: nat :: OverRight(s, t, x, y, c) && x - y <= k
  }

  ghost predicate OverLeft(s: Text, t: Text, x: nat, y: nat, c: int) {
    y > |t| && Outside(s, t, x, y) <= c
  }

  ghost predicate LeftCut(s: Text, t: Text, d: int, start: int) {
    start == 0 || SomeLeft(s, t, d - 1, start - d - 1)
  }

  ghost predicate SomeLeft(s: Text, t: Text, c: int, k: int) {
    exists x: nat, y: nat :: OverLeft(s, t, x, y, c) && x - y >= k
  }

  /** No best point lies on a diagonal beyond one that has left the grid. */
  lemma NotBeyondRight(s: Text, t: Text, x: nat, y: nat, d: int, x0: nat, y0: nat)
    requires OverRight(s, t, x, y, d - 1) && Level(s, t, x0, y0, d)
    ensures x0 - y0 < x - y
  {
    FromStep(s, t, |s|, |t|);
    if x0 - y0 >= x - y && y <= |t| {
      var x1, y1 := Crossing(s, t, x0, y0, x - y);
      BeyondEdge(s, t, x, y, x1, y1);
    }
  }

  lemma {:induction false} Swapped(s: Text, t: Text, x: nat, y: nat)
    requires x <= |s| && y <= |t|
    ensures To(t, s, y, x) == To(s, t, x, y)
    decreases x + y
  {
    if x > 0 && y > 0 {
      Swapped(s, t, x - 1, y - 1);
      Swapped(s, t, x - 1, y);
      Swapped(s, t, x, y - 1);
    }
  }

  lemma SwappedLevel(s: Text, t: Text, x: nat, y: nat, c: int)
    requires Level(s, t, x, y, c)
    ensures Level(t, s, y, x, c)
  {
    Swapped(s, t, x, y);
    Swapped(s, t, |s|, |t|);
    Swapped(Reversed(s), Reversed(t), |s| - x, |t| - y);
  }

  lemma NotBeyondLeft(s: Text, t: Text, x: nat, y: nat, d: int, x0: nat, y0: nat)
    requires OverLeft(s, t, x, y, d - 1) && Level(s, t, x0, y0, d)
    ensures x0 - y0 > x - y
  {
    SwappedLevel(s, t, x0, y0, d);
    Swapped(s, t, Min(x, |s|), Min(y, |t|));
    NotBeyondRight(t, s, y, x, d, y0, x0);
  }

  /** Step d visits the diagonals of all best points at distance d. */
  lemma Visited(s: Text, t: Text, d: int, start: int, end: int, x: nat, y: nat)
    requires RightCut(s, t, d, end) && LeftCut(s, t, d, start) && start % 2 == 0 && end % 2 == 0 && Level(s, t, x, y, d)
    ensures start - d <= x - y <= d - end && (x - y - d) % 2 == 0
  {
    OnDiagonal(s, t, x, y);
    if end != 0 {
      var c, k := d - 1, d - end + 1;
      var x1: nat, y1: nat :| OverRight(s, t, x1, y1, c) && x1 - y1 <= k;
      NotBeyondRight(s, t, x1, y1, d, x, y);
    }
    if start != 0 {
      var c, k := d - 1, start - d - 1;
      var x1: nat, y1: nat :| OverLeft(s, t, x1, y1, c) && x1 - y1 >= k;
      NotBeyondLeft(s, t, x1, y1, d, x, y);
    }
  }

  // ---------------------------------------------------------------------------
  // One visit

  /** Over a run of equal characters a point costs the same. */
  lemma {:induction false} RunCost(s: Text, t: Text, x: nat, y: nat, x1: nat)
    requires x <= x1 <= |s| && y + (x1 - x) <= |t| && SameRun(s, t, x, y, x1)
    ensures Outside(s, t, x1, y + (x1 - x)) == Outside(s, t, x, y)
    decreases x1 - x
  {
    if x < x1 {
      RunCost(s, t, x, y, x1 - 1);
      assert s[x1 - 1] == t[y + (x1 - 1 - x)];
      OutsideStep(s, t, x1 - 1, y + (x1 - 1 - x));
    }
  }

  /** Where the walk on diagonal k starts in step d, from what the neighbouring cells hold. */
  ghost predicate StartsAt(v: seq<int>, off: nat, d: nat, k: int, x: int) {
    && (k + d > 0 ==> 0 <= off + k - 1 < |v| && x >= v[off + k - 1] + 1)
    && (k < d ==> 0 <= off + k + 1 < |v| && x >= v[off + k + 1])
    && x >= 0
  }

  /** The run from (x, y) of equal characters ends at x1. */
  ghost predicate Runs(s: Text, t: Text, x: nat, y: nat, x1: int) {
    && x1 >= x
    && (x <= |s| && y <= |t| ==> x1 <= |s| && y + (x1 - x) <= |t| && SameRun(s, t, x, y, x1))
    && (!(x <= |s| && y <= |t|) ==> x1 == x)
    && (x1 < |s| && y + (x1 - x) < |t| ==> s[x1] != t[y + (x1 - x)])
  }

  /** The best points at distance d on the diagonal have been passed. */
  lemma PassesBest(s: Text, t: Text, v: seq<int>, off: nat, d: nat, k: int, x: nat, x1: int, x0: nat, y0: nat)
    requires AllPassed(s, t, v, off, d - 1, d) && StartsAt(v, off, d, k, x) && x >= k && Runs(s, t, x, x - k, x1)
    requires Level(s, t, x0, y0, d) && x0 - y0 == k
    ensures x1 >= x0
  {
    if d == 0 {
      AllEqual(s, t, x0, y0);
    } else {
      var xs, ys, right := LastEdit(s, t, x0, y0);
      if right {
        assert Level(s, t, xs - 1, ys, d - 1);
        OnDiagonal(s, t, xs - 1, ys);
      } else {
        assert Level(s, t, xs, ys - 1, d - 1);
        OnDiagonal(s, t, xs, ys - 1);
      }
      assert x >= xs;
    }
  }

  lemma {:induction false} AllEqual(s: Text, t: Text, x: nat, y: nat)
    requires x <= |s| && y <= |t| && To(s, t, x, y) == 0
    ensures x == y && SameRun(s, t, 0, 0, x)
    decreases x
  {
    if x > 0 && y > 0 { AllEqual(s, t, x - 1, y - 1); }
  }

  // ---------------------------------------------------------------------------
  // Where the two searches meet

  /** Two points on one diagonal that d and e edits lead to from the two ends, of which the first has passed
      the second: both are on shortest ways. */
  lemma Meeting(s: Text, t: Text, d: nat, e: nat, x: nat, y: nat, x2: nat, y2: nat)
    requires Dist(s, t) >= d + e && x - y == |s| - |t| - (x2 - y2) && x >= |s| - x2
    requires OnGrid(s, t, x, y) && Outside(s, t, x, y) <= d
    requires Outside(Reversed(s), Reversed(t), x2, y2) <= e
    ensures Level(s, t, x, y, d) && From(s, t, x, y) == e
    ensures Level(Reversed(s), Reversed(t), x2, y2, e) && To(s, t, |s| - x2, |t| - y2) == d
  {
    var rs, rt := Reversed(s), Reversed(t);
    DistTurned(s, t);
    TurnedAround(s, t, x, y);
    if !OnGrid(rs, rt, x2, y2) { BeyondEdge(rs, rt, x2, y2, |s| - x, |t| - y); }
    var x0, y0 := |s| - x2, |t| - y2;
    TurnedAround(s, t, x0, y0);
    FurtherFrom(s, t, x0, y0, x - x0);
    FurtherOn(s, t, x0, y0, x - x0);
    Through(s, t, x, y);
    Through(s, t, x0, y0);
  }

  /** If a best point at distance d from one end and e from the other is on the diagonal, and both searches
      have passed it, they have met inside the grid. */
  lemma MustMeet(s: Text, t: Text, d: nat, e: nat, x: nat, y: nat, x0: nat, y0: nat)
    requires Level(s, t, x0, y0, d) && From(s, t, x0, y0) == e && x - y == x0 - y0 && x >= x0
    requires Outside(s, t, x, y) <= d
    ensures OnGrid(s, t, x, y)
  {
    if !OnGrid(s, t, x, y) { BeyondEdge(s, t, x, y, x0, y0); }
  }
}
