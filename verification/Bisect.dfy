/** `diff_bisect`: the search for the middle snake over two arrays of furthest points, and the
    clock that may end it. Every index it uses is in range and none is negative, so Python's
    wrap-around of negative indices never happens; and the point where the two paths meet lies on a
    shortest way from the one text to the other. */
module Bisect {
  import opened Edits
  import opened Types
  import opened Distance
  import opened Furthest
  import opened Sealing

  /** What each reading of the clock says: whether the deadline has passed. */
  class Clock {
    const late: nat -> bool
    var now: nat

    constructor (late: nat -> bool)
      ensures this.late == late
    {
      this.late, now := late, 0;
    }

    method IsLate() returns (b: bool)
      modifies this
      ensures b == late(old(now))
    {
      b := late(now);
      now := now + 1;
    }

    /** There is no deadline. */
    ghost predicate Never() {
      forall i :: !late(i)
    }
  }

  /** The cell of diagonal k holds a point of the grid with x >= 0 and y = x - k >= 0. */
  ghost predicate Known(v: seq<int>, off: nat, k: int) {
    0 <= off + k < |v| && v[off + k] >= 0 && v[off + k] >= k
  }

  ghost predicate CellOk(v: seq<int>, off: nat, d: nat, i: nat)
    requires i < |v|
  {
    v[i] == -1 || Known(v, off, i - off) || (d <= 1 && i == off + 1 && v[i] == 0)
  }

  /** Before step d each cell is unset or known, but for the sentinel at diagonal 1 until step 2. */
  ghost predicate Cells(v: seq<int>, off: nat, d: nat) {
    && |v| == 2 * off && off >= 2 && (d == 0 ==> v[off + 1] == 0)
    && forall i: nat {:trigger CellOk(v, off, d, i)} :: i < |v| ==> CellOk(v, off, d, i)
  }

  ghost predicate At(v: seq<int>, off: nat, lo: int, i: nat) {
    Known(v, off, lo + 2 * i)
  }

  /** The n diagonals lo, lo + 2, ... have been visited. */
  ghost predicate Walked(v: seq<int>, off: nat, lo: int, n: nat) {
    forall i: nat {:trigger At(v, off, lo, i)} :: i < n ==> At(v, off, lo, i)
  }

  /** The diagonals of the previous step, and those of this step among their neighbours. */
  datatype Steps = Steps(d: nat, last: int, count: nat, lo: int, n: nat) {
    ghost predicate Valid() {
      && 1 <= n <= d + 1 && 0 <= lo + d && lo + 2 * n - 2 <= d
      && (d <= 1 ==> lo + d == 0 && n == d + 1)
      && (d > 0 ==> exists c: nat :: Offset(c))
    }

    ghost predicate Offset(c: nat) {
      lo == last - 1 + 2 * c && c + n <= count + 1 && 0 < last + d && last + 2 * count - 2 < d && 1 <= count
    }
  }

  /** Before diagonal number i of a step. */
  ghost predicate Walking(v: seq<int>, off: nat, s: Steps, i: nat) {
    && s.Valid() && i <= s.n && s.d < off
    && Cells(v, off, s.d)
    && (s.d > 0 ==> Walked(v, off, s.last, s.count))
    && Walked(v, off, s.lo, i)
  }

  /** Where the walk on diagonal k starts. */
  method Start(v: array<int>, off: nat, ghost p: Steps, ghost i: nat, d: int, k: int) returns (x: int)
    requires Walking(v[..], off, p, i) && i < p.n && d == p.d && k == p.lo + 2 * i
    ensures x >= 0 && x >= k && StartsAt(v[..], off, p.d, k, x) && StartOf(v[..], off, p.d, k, x)
  {
    NeighboursKnown(v[..], off, p, i);
    assert CellOk(v[..], off, d, off + k - 1);
    if k == -d || (k != d && v[off + k - 1] < v[off + k + 1]) {
      x := v[off + k + 1];
    } else {
      x := v[off + k - 1] + 1;
    }
  }

  /** The neighbouring cell that the walk comes from. */
  ghost predicate StartOf(v: seq<int>, off: nat, d: nat, k: int, x: int) {
    || (d == 0 && x == 0)
    || (d > 0 && Known(v, off, k + 1) && x == v[off + k + 1])
    || (d > 0 && Known(v, off, k - 1) && x == v[off + k - 1] + 1)
  }

  lemma NeighboursKnown(v: seq<int>, off: nat, s: Steps, i: nat)
    requires Walking(v, off, s, i) && i < s.n
    ensures var k := s.lo + 2 * i;
            && (s.d > 0 && k + s.d == 0 ==> Known(v, off, k + 1)) && (s.d > 0 && k == s.d ==> Known(v, off, k - 1))
            && (s.d > 0 ==> Known(v, off, k + 1) || Known(v, off, k - 1))
            && off + k >= 1 && off + k + 1 <= |v| && (k != s.d ==> off + k + 1 < |v|)
  {
    var k := s.lo + 2 * i;
    if s.d > 0 {
      var c: nat :| s.Offset(c);
      if c + i < s.count { assert At(v, off, s.last, c + i); }
      if c + i > 0 { assert At(v, off, s.last, c + i - 1); }
    }
  }

  // The run of equal characters from (x, y) on, forwards or backwards from the ends.

  method Snake(text1: Text, text2: Text, x: int, y: int) returns (x1: int, y1: int)
    requires x >= 0 && y >= 0
    ensures x1 - x == y1 - y && Runs(text1, text2, x, y, x1)
  {
    x1, y1 := x, y;
    while x1 < |text1| && y1 < |text2| && text1[x1] == text2[y1]
      invariant x1 >= x && x1 - x == y1 - y
      invariant if x <= |text1| && y <= |text2| then x1 <= |text1| && y1 <= |text2| && SameRun(text1, text2, x, y, x1) else x1 == x
    {
      x1, y1 := x1 + 1, y1 + 1;
    }
  }

  /** The negative indices `-x2 - 1` and `-y2 - 1` count from the ends of the texts. */
  method SnakeBack(text1: Text, text2: Text, x: int, y: int) returns (x2: int, y2: int)
    requires x >= 0 && y >= 0
    ensures x2 - x == y2 - y && Runs(Reversed(text1), Reversed(text2), x, y, x2)
  {
    ghost var s, t := Reversed(text1), Reversed(text2);
    x2, y2 := x, y;
    while x2 < |text1| && y2 < |text2| && text1[|text1| - x2 - 1] == text2[|text2| - y2 - 1]
      invariant x2 >= x && x2 - x == y2 - y
      invariant if x <= |s| && y <= |t| then x2 <= |s| && y2 <= |t| && SameRun(s, t, x, y, x2) else x2 == x
    {
      assert s[x2] == t[y2];
      x2, y2 := x2 + 1, y2 + 1;
    }
  }

  /** Writing the point of diagonal number i. */
  lemma Visit(v: seq<int>, off: nat, s: Steps, i: nat, x: int)
    requires Walking(v, off, s, i) && i < s.n && x >= 0 && x >= s.lo + 2 * i
    requires 0 <= off + s.lo + 2 * i < |v|
    ensures Walking(v[off + s.lo + 2 * i := x], off, s, i + 1)
  {
    var p := off + s.lo + 2 * i;
    var w := v[p := x];
    forall j: nat | j < |w| ensures CellOk(w, off, s.d, j) {
      assert CellOk(v, off, s.d, j);
    }
    if s.d > 0 {
      var c: nat :| s.Offset(c);
      forall j: nat | j < s.count ensures At(w, off, s.last, j) {
        assert At(v, off, s.last, j);
      }
    }
    forall j: nat | j < i + 1 ensures At(w, off, s.lo, j) {
      if j < i { assert At(v, off, s.lo, j); }
    }
  }

  /** The steps after s when a and b more diagonals have been cut off at the two ends. */
  ghost function After(s: Steps, a: nat, b: nat): Steps
    requires a + b <= s.n
  {
    Steps(s.d + 1, s.lo, s.n, s.lo - 1 + 2 * a, s.n + 1 - a - b)
  }

  /** After the last diagonal of a step, with a and b more diagonals cut off at the two ends. */
  lemma NextStep(v: seq<int>, off: nat, s: Steps, a: nat, b: nat)
    requires Walking(v, off, s, s.n) && a + b <= s.n && (s.d == 0 ==> a == 0 && b == 0) && s.d + 1 < off
    ensures Walking(v, off, After(s, a, b), 0)
  {
    var next := After(s, a, b);
    assert next.Offset(a);
    var d := next.d;
    forall j: nat | j < |v| ensures CellOk(v, off, d, j) {
      assert CellOk(v, off, s.d, j);
      if s.d == 1 { assert At(v, off, s.lo, 1); }
    }
  }

  /** The front array after step d: only the sentinel of step 0 may be off. */
  ghost predicate FrontDone(v: seq<int>, off: nat, d: nat) {
    |v| == 2 * off && off >= 2 && forall i: nat {:trigger CellOk(v, off, d + 1, i)} :: i < |v| ==> CellOk(v, off, d + 1, i)
  }

  lemma StepDone(v: seq<int>, off: nat, s: Steps)
    requires Walking(v, off, s, s.n)
    ensures FrontDone(v, off, s.d)
  {
    var d := s.d + 1;
    forall i: nat | i < |v| ensures CellOk(v, off, d, i) {
      assert CellOk(v, off, s.d, i);
      if s.d == 1 { assert At(v, off, s.lo, 1); }
    }
  }

  /** Before step d, whose diagonals run from -d + start to d - end. */
  ghost predicate Ready(v: seq<int>, off: nat, d: int, start: int, end: int, s: Steps) {
    Walking(v, off, s, 0) && d == s.d && s.lo == start - d && s.lo + 2 * s.n - 2 == d - end
  }

  ghost predicate StepOver(v: seq<int>, off: nat, d: int, start: int, end: int, next: Steps) {
    d >= 0 && FrontDone(v, off, d) && (d + 1 < off ==> Ready(v, off, d + 1, start, end, next))
  }

  lemma Finish(v: seq<int>, off: nat, s: Steps, d: int, start: int, end: int, a: nat, b: nat)
    requires Walking(v, off, s, s.n) && a + b <= s.n && (s.d == 0 ==> a == 0 && b == 0)
    requires d == s.d && s.lo == start - d && s.lo + 2 * s.n - 2 == d - end
    ensures StepOver(v, off, d, start + 2 * a, end + 2 * b, After(s, a, b))
  {
    StepDone(v, off, s);
    if d + 1 < off { NextStep(v, off, s, a, b); }
  }

  // ---------------------------------------------------------------------------
  // What a step does for the search

  predicate Even(n: int) {
    n % 2 == 0
  }

  lemma EvenOn(lo: int, d: int, i: int)
    requires Even(lo - d)
    ensures Even(lo + 2 * i - d)
  {}

  /** Before step d, whose diagonals run from -d + start to d - end. */
  ghost predicate Search(s: Text, t: Text, v: seq<int>, off: nat, d: int, start: int, end: int) {
    start % 2 == 0 && end % 2 == 0 &&
    forall z: nat {:trigger Seal(z)} :: Seal(z) ==>
      Costs(s, t, v, off, d) && AllPassed(s, t, v, off, d - 1, d) && RightCut(s, t, d, end) && LeftCut(s, t, d, start)
  }

  /** In step d, before diagonal k. */
  ghost predicate Halfway(s: Text, t: Text, v: seq<int>, off: nat, d: int, k: int) {
    forall z: nat {:trigger Seal(z)} :: Seal(z) ==>
      Costs(s, t, v, off, d) && AllPassed(s, t, v, off, d - 1, d) && AllPassed(s, t, v, off, d, k)
  }

  lemma CellCost(s: Text, t: Text, v: seq<int>, off: nat, d: int, k: int)
    requires Costs(s, t, v, off, d) && Known(v, off, k)
    ensures var x := v[off + k]; Outside(s, t, x, x - k) <= if (k - d) % 2 == 0 then d else d - 1
  {
    assert CostOk(s, t, v, off, d, off + k);
  }

  /** The walk on a diagonal starts at a point that costs d edits. */
  lemma StartCost(s: Text, t: Text, v: seq<int>, off: nat, d: nat, k: int, x: int)
    requires Costs(s, t, v, off, d) && StartOf(v, off, d, k, x) && x >= 0 && x >= k && Even(k - d) && (d == 0 ==> k == 0)
    ensures Outside(s, t, x, x - k) <= d
  {
    if d == 0 {
    } else if Known(v, off, k + 1) && x == v[off + k + 1] {
      CellCost(s, t, v, off, d, k + 1);
      var y: nat := x - k - 1;
      OutsideStep(s, t, x, y);
      assert y + 1 == x - k;
    } else {
      CellCost(s, t, v, off, d, k - 1);
      var x0: nat := x - 1;
      OutsideStep(s, t, x0, x - k);
      assert x0 + 1 == x;
    }
  }

  /** So does the one where it ends. */
  lemma PointCost(s: Text, t: Text, v: seq<int>, off: nat, d: nat, k: int, x: int, x1: int)
    requires Costs(s, t, v, off, d) && StartOf(v, off, d, k, x) && x >= 0 && x >= k && Even(k - d) && (d == 0 ==> k == 0)
    requires Runs(s, t, x, x - k, x1)
    ensures Outside(s, t, x1, x1 - k) <= d
  {
    StartCost(s, t, v, off, d, k, x);
    if x <= |s| && x - k <= |t| {
      RunCost(s, t, x, x - k, x1);
      assert x - k + (x1 - x) == x1 - k;
    }
  }

  lemma VisitCost(s: Text, t: Text, v: seq<int>, off: nat, d: nat, k: int, x: int)
    requires Costs(s, t, v, off, d) && 0 <= off + k < |v| && x >= 0 && x >= k && Even(k - d) && Outside(s, t, x, x - k) <= d
    ensures Costs(s, t, v[off + k := x], off, d)
  {
    var w := v[off + k := x];
    forall i: nat | i < |w| ensures CostOk(s, t, w, off, d, i) {
      assert CostOk(s, t, v, off, d, i);
    }
  }

  lemma VisitPassed(s: Text, t: Text, v: seq<int>, off: nat, d: nat, k: int, x: int)
    requires AllPassed(s, t, v, off, d - 1, d) && AllPassed(s, t, v, off, d, k) && 0 <= off + k < |v| && Even(k - d)
    requires forall x0: nat, y0: nat {:trigger Level(s, t, x0, y0, d)} :: Level(s, t, x0, y0, d) && x0 - y0 == k ==> x >= x0
    ensures var w := v[off + k := x]; AllPassed(s, t, w, off, d - 1, d) && AllPassed(s, t, w, off, d, k + 2)
  {
    var w, before := v[off + k := x], d - 1;
    forall x0: nat, y0: nat | Level(s, t, x0, y0, before) && x0 - y0 < d ensures Passed(w, off, x0, y0) {
      OnDiagonal(s, t, x0, y0);
      assert Passed(v, off, x0, y0);
    }
    forall x0: nat, y0: nat | Level(s, t, x0, y0, d) && x0 - y0 < k + 2 ensures Passed(w, off, x0, y0) {
      OnDiagonal(s, t, x0, y0);
      if x0 - y0 < k { assert Passed(v, off, x0, y0); }
    }
  }

  /** Writing the point where the walk on diagonal k ends. */
  lemma VisitDone(s: Text, t: Text, v: seq<int>, off: nat, d: nat, k: int, x: int, x1: int)
    requires Halfway(s, t, v, off, d, k) && StartOf(v, off, d, k, x) && StartsAt(v, off, d, k, x) && x >= k
    requires Even(k - d) && (d == 0 ==> k == 0) && 0 <= off + k < |v| && Runs(s, t, x, x - k, x1)
    ensures Outside(s, t, x1, x1 - k) <= d && Halfway(s, t, v[off + k := x1], off, d, k + 2)
    ensures forall x0: nat, y0: nat {:trigger Level(s, t, x0, y0, d)} :: Level(s, t, x0, y0, d) && x0 - y0 == k ==> x1 >= x0
  {
    assert Seal(0);
    PointCost(s, t, v, off, d, k, x, x1);
    forall x0: nat, y0: nat | Level(s, t, x0, y0, d) && x0 - y0 == k ensures x1 >= x0 {
      PassesBest(s, t, v, off, d, k, x, x1, x0, y0);
    }
    VisitCost(s, t, v, off, d, k, x1);
    VisitPassed(s, t, v, off, d, k, x1);
  }

  // The diagonals cut off in this step: b at the end, where j is the first that has left the grid on the
  // right, and a at the start, where j is the last that has left it on the left.

  ghost predicate Rightmost(s: Text, t: Text, d: int, b: nat, j: int, k: int) {
    b == 0 || (SomeRight(s, t, d, j) && 2 * b <= k - j)
  }

  ghost predicate Leftmost(s: Text, t: Text, d: int, a: nat, j: int, lo: int, k: int) {
    a == 0 || (SomeLeft(s, t, d, j) && j < k && 2 * a <= j - lo + 2)
  }

  datatype Cuts = Cuts(a: nat, b: nat, jl: int, jr: int)

  /** After i diagonals of step d, which began at diagonal lo. */
  ghost predicate Cutting(s: Text, t: Text, d: int, lo: int, c: Cuts, k: int, i: nat) {
    && (forall z: nat {:trigger Seal(z)} :: Seal(z) ==>
          Rightmost(s, t, d, c.b, c.jr, k) && Leftmost(s, t, d, c.a, c.jl, lo, k) && (c.jl - lo) % 2 == 0)
    && k == lo + 2 * i && Even(lo - d) && c.a + c.b <= i && (d == 0 ==> c.a == 0 && c.b == 0)
  }

  /** The point (x, y) of diagonal k may have left the grid. */
  lemma CutNext(s: Text, t: Text, d: int, lo: int, c: Cuts, k: int, i: nat, x: nat, y: nat) returns (c': Cuts)
    requires Cutting(s, t, d, lo, c, k, i) && Outside(s, t, x, y) <= d && x - y == k
    ensures Cutting(s, t, d, lo, c', k + 2, i + 1)
    ensures c'.b == c.b + (if x > |s| then 1 else 0) && c'.a == c.a + (if x <= |s| && y > |t| then 1 else 0)
  {
    assert Seal(0);
    if x > |s| {
      assert OverRight(s, t, x, y, d);
      c' := c.(b := c.b + 1, jr := if c.b == 0 then k else c.jr);
    } else if y > |t| {
      assert OverLeft(s, t, x, y, d);
      c' := c.(a := c.a + 1, jl := k);
    } else {
      c' := c;
    }
  }

  lemma SearchOver(s: Text, t: Text, v: seq<int>, off: nat, d: nat, start: int, end: int, a: nat, b: nat, jl: int, jr: int, k: int)
    requires Costs(s, t, v, off, d) && RightCut(s, t, d, end) && LeftCut(s, t, d, start) && start % 2 == 0 && end % 2 == 0
    requires AllPassed(s, t, v, off, d, k) && k == d + 2 - end
    requires Rightmost(s, t, d, b, jr, k) && Leftmost(s, t, d, a, jl, start - d, k)
    ensures Search(s, t, v, off, d + 1, start + 2 * a, end + 2 * b)
  {
    CostsNext(s, t, v, off, d);
    forall x: nat, y: nat | Level(s, t, x, y, d) ensures Passed(v, off, x, y) {
      Visited(s, t, d, start, end, x, y);
    }
    RightNext(s, t, d, end, b, jr, k);
    LeftNext(s, t, d, start, a, jl, k);
  }

  lemma RightNext(s: Text, t: Text, d: nat, end: int, b: nat, j: int, k: int)
    requires RightCut(s, t, d, end) && Rightmost(s, t, d, b, j, k) && k == d + 2 - end
    ensures RightCut(s, t, d + 1, end + 2 * b)
  {
    if b > 0 {
      MoreRight(s, t, d, j, d, d + 2 - end - 2 * b);
    } else if end != 0 {
      MoreRight(s, t, d - 1, d - end + 1, d, d + 2 - end);
    }
  }

  lemma MoreRight(s: Text, t: Text, c: int, k: int, c1: int, k1: int)
    requires SomeRight(s, t, c, k) && c <= c1 && k <= k1
    ensures SomeRight(s, t, c1, k1)
  {
    var x: nat, y: nat :| OverRight(s, t, x, y, c) && x - y <= k;
    assert OverRight(s, t, x, y, c1);
  }

  lemma LeftNext(s: Text, t: Text, d: nat, start: int, a: nat, j: int, k: int)
    requires LeftCut(s, t, d, start) && Leftmost(s, t, d, a, j, start - d, k)
    ensures LeftCut(s, t, d + 1, start + 2 * a)
  {
    if a > 0 {
      MoreLeft(s, t, d, j, d, start + 2 * a - d - 2);
    } else if start != 0 {
      MoreLeft(s, t, d - 1, start - d - 1, d, start - d - 2);
    }
  }

  lemma MoreLeft(s: Text, t: Text, c: int, k: int, c1: int, k1: int)
    requires SomeLeft(s, t, c, k) && c <= c1 && k >= k1
    ensures SomeLeft(s, t, c1, k1)
  {
    var x: nat, y: nat :| OverLeft(s, t, x, y, c) && x - y >= k;
    assert OverLeft(s, t, x, y, c1);
  }

  // ---------------------------------------------------------------------------
  // Where the paths meet

  /** The cells of the path from the other end, which has passed all best points at distance e from there. */
  ghost predicate Facing(s: Text, t: Text, w: seq<int>, off: nat, d: int, e: int) {
    && |w| == 2 * off
    && forall z: nat {:trigger Seal(z)} :: Seal(z) ==>
      && (forall i: nat {:trigger CellSet(w, off, i)} :: i < |w| ==> CellSet(w, off, i))
      && Costs(Reversed(s), Reversed(t), w, off, d) && AllPassed(Reversed(s), Reversed(t), w, off, e, e + 1)
  }

  ghost predicate CellSet(w: seq<int>, off: nat, i: nat)
    requires i < |w|
  {
    w[i] == -1 || Known(w, off, i - off) || (i == off + 1 && w[i] == 0)
  }

  /** The point x on diagonal k has passed the cell that the other path has on it. */
  predicate Overlap(s: Text, t: Text, w: seq<int>, off: nat, k: int, x: int) {
    var other := off + |s| - |t| - k;
    OnGrid(s, t, x, x - k) && 0 <= other < |w| && w[other] != -1 && x >= |s| - w[other]
  }

  /** With an overlap, both points lie on shortest ways. */
  lemma Met(s: Text, t: Text, w: seq<int>, off: nat, d: nat, e: int, k: int, x: int, y: int, x2: int, y2: int)
    requires Facing(s, t, w, off, d, e) && Overlap(s, t, w, off, k, x) && Outside(s, t, x, x - k) <= d && Dist(s, t) >= d + e
    requires e == if (|s| - |t| - k - d) % 2 == 0 then d else d - 1
    requires y == x - k && x2 == w[off + |s| - |t| - k] && y2 == x2 - (|s| - |t| - k)
    ensures x2 >= 0 && y2 >= 0 && Level(s, t, x, y, d) && From(s, t, x, y) == e
    ensures Level(Reversed(s), Reversed(t), x2, y2, e) && To(s, t, |s| - x2, |t| - y2) == d
  {
    FacingCost(s, t, w, off, d, e, k, x);
    Meeting(s, t, d, e, x, y, x2, y2);
  }

  lemma FacingCost(s: Text, t: Text, w: seq<int>, off: nat, d: nat, e: int, k: int, x: int)
    requires Facing(s, t, w, off, d, e) && Overlap(s, t, w, off, k, x) && e == if (|s| - |t| - k - d) % 2 == 0 then d else d - 1
    ensures var k2 := |s| - |t| - k;
            Known(w, off, k2) && Outside(Reversed(s), Reversed(t), w[off + k2], w[off + k2] - k2) <= e && e >= 0
  {
    assert Seal(0);
    var k2 := |s| - |t| - k;
    assert CellSet(w, off, off + k2);
    CellCost(Reversed(s), Reversed(t), w, off, d, k2);
  }

  /** Without an overlap on diagonal k, no best point at these distances is on it. */
  ghost predicate NoMeeting(s: Text, t: Text, d: int, e: int, k: int) {
    forall x: nat, y: nat {:trigger Level(s, t, x, y, d)} :: Level(s, t, x, y, d) && x - y < k ==> From(s, t, x, y) != e
  }

  lemma NotMet(s: Text, t: Text, w: seq<int>, off: nat, d: nat, e: int, k: int, x: int)
    requires Facing(s, t, w, off, d, e) && !Overlap(s, t, w, off, k, x) && x >= 0 && x >= k && Outside(s, t, x, x - k) <= d
    requires NoMeeting(s, t, d, e, k) && Even(k - d)
    requires forall x0: nat, y0: nat {:trigger Level(s, t, x0, y0, d)} :: Level(s, t, x0, y0, d) && x0 - y0 == k ==> x >= x0
    ensures NoMeeting(s, t, d, e, k + 2)
  {
    forall x0: nat, y0: nat | Level(s, t, x0, y0, d) && x0 - y0 < k + 2 ensures From(s, t, x0, y0) != e {
      OnDiagonal(s, t, x0, y0);
      if x0 - y0 >= k && From(s, t, x0, y0) == e { MeetsThere(s, t, w, off, d, e, k, x, x0, y0); }
    }
  }

  lemma MeetsThere(s: Text, t: Text, w: seq<int>, off: nat, d: nat, e: int, k: int, x: int, x0: nat, y0: nat)
    requires Facing(s, t, w, off, d, e) && x >= 0 && x >= k && Outside(s, t, x, x - k) <= d
    requires Level(s, t, x0, y0, d) && x0 - y0 == k && From(s, t, x0, y0) == e && x >= x0
    ensures Overlap(s, t, w, off, k, x)
  {
    assert Seal(0);
    MustMeet(s, t, d, e, x, x - k, x0, y0);
    BestTurned(s, t, x0, y0);
    var x2, y2 := |s| - x0, |t| - y0;
    assert Level(Reversed(s), Reversed(t), x2, y2, e);
    OnDiagonal(Reversed(s), Reversed(t), x2, y2);
    assert Passed(w, off, x2, y2);
  }

  /** If no best point at distance d is at distance e from the end, the texts are further apart. */
  lemma FurtherApart(s: Text, t: Text, d: nat, e: int, k: int)
    requires NoMeeting(s, t, d, e, k) && d < k && e >= 0
    ensures Dist(s, t) != d + e
  {
    if Dist(s, t) == d + e {
      var x, y := BestAt(s, t, d);
      assert Level(s, t, x, y, d);
      OnDiagonal(s, t, x, y);
    }
  }

  lemma StepBegins(s: Text, t: Text, v: seq<int>, off: nat, d: nat, start: int, end: int, e: int)
    requires Search(s, t, v, off, d, start, end)
    ensures Halfway(s, t, v, off, d, start - d) && NoMeeting(s, t, d, e, start - d)
  {
    assert Seal(0);
    forall x: nat, y: nat | Level(s, t, x, y, d) ensures x - y >= start - d {
      Visited(s, t, d, start, end, x, y);
    }
  }

  lemma CellsFacing(s: Text, t: Text, w: seq<int>, off: nat, d: nat, start: int, end: int, p: Steps)
    requires Ready(w, off, d, start, end, p) && Search(Reversed(s), Reversed(t), w, off, d, start, end)
    ensures Facing(s, t, w, off, d, d - 1)
  {
    assert Seal(0);
    forall i: nat | i < |w| ensures CellSet(w, off, i) {
      assert CellOk(w, off, d, i);
    }
  }

  /** The two texts differ by an odd number of characters: the front path meets the reverse path. */
  predicate Odd(text1: Text, text2: Text) {
    (|text1| - |text2|) % 2 != 0
  }

  lemma DiagonalNotMet(s: Text, t: Text, w: seq<int>, off: nat, d: nat, e: int, lo: int, k: int, i: nat, x: int)
    requires Furthermost(s, t, d, k, x) && Facing(s, t, w, off, d, e) && k == lo + 2 * i && Even(lo - d)
    requires NoMeeting(s, t, d, e, k) && !Overlap(s, t, w, off, k, x)
    ensures NoMeeting(s, t, d, e, k + 2)
  {
    assert Seal(0);
    EvenOn(lo, d, i);
    NotMet(s, t, w, off, d, e, k, x);
  }

  /** After the last diagonal. */
  lemma StepEnds(s: Text, t: Text, d: nat, e: int, start: int, end: int, k: int)
    requires RightCut(s, t, d, end) && LeftCut(s, t, d, start) && start % 2 == 0 && end % 2 == 0
    requires NoMeeting(s, t, d, e, k) && k == d + 2 - end
    ensures NoMeeting(s, t, d, e, d + 1)
  {
    forall x: nat, y: nat | Level(s, t, x, y, d) ensures x - y < k { Visited(s, t, d, start, end, x, y); }
  }

  /** After step d. */
  ghost predicate Done(s: Text, t: Text, v: seq<int>, off: nat, d: nat, start: int, end: int, next: Steps) {
    forall z: nat {:trigger Unwrap(z)} :: Unwrap(z) ==>
      && StepOver(v, off, d, start, end, next) && Search(s, t, v, off, d + 1, start, end)
      && forall z: nat {:trigger Seal(z)} :: Seal(z) ==> Costs(s, t, v, off, d)
  }

  lemma FrontFacing(s: Text, t: Text, w: seq<int>, off: nat, d: nat, start: int, end: int, next: Steps)
    requires Done(s, t, w, off, d, start, end, next)
    ensures Facing(Reversed(s), Reversed(t), w, off, d, d)
  {
    assert Seal(0) && Unwrap(0);
    ReversedTwice(s);
    ReversedTwice(t);
    forall i: nat | i < |w| ensures CellSet(w, off, i) {
      assert CellOk(w, off, d + 1, i);
    }
  }

  lemma Finished(s: Text, t: Text, v0: seq<int>, v: seq<int>, off: nat, d: nat, e: int, start: int, end: int, p: Steps, c: Cuts,
                 k: int, meets: bool)
    requires Walking(v, off, p, p.n) && d == p.d && p.lo == start - d && p.lo + 2 * p.n - 2 == d - end
    requires Search(s, t, v0, off, d, start, end) && Halfway(s, t, v, off, d, k) && Cutting(s, t, d, start - d, c, k, p.n)
    requires meets ==> NoMeeting(s, t, d, e, k)
    ensures Done(s, t, v, off, d, start + 2 * c.a, end + 2 * c.b, After(p, c.a, c.b))
    ensures meets ==> NoMeeting(s, t, d, e, d + 1)
  {
    assert Seal(0);
    Finish(v, off, p, d, start, end, c.a, c.b);
    SearchOver(s, t, v, off, d, start, end, c.a, c.b, c.jl, c.jr, k);
    if meets { StepEnds(s, t, d, e, start, end, k); }
  }

  /** All best points at distance d on diagonal k have been passed by the point x, which costs d edits. */
  ghost predicate Furthermost(s: Text, t: Text, d: nat, k: int, x: int) {
    forall z: nat {:trigger Seal(z)} :: Seal(z) ==>
      && x >= 0 && x >= k && Outside(s, t, x, x - k) <= d
      && forall x0: nat, y0: nat {:trigger Level(s, t, x0, y0, d)} :: Level(s, t, x0, y0, d) && x0 - y0 == k ==> x >= x0
  }

  /** A diagonal is done, without a meeting if the two paths may meet in this step. */
  lemma DiagonalDone(s: Text, t: Text, w: seq<int>, off: nat, d: nat, e: int, lo: int, c: Cuts, k: int, i: nat, x: int, meets: bool)
      returns (c': Cuts)
    requires Furthermost(s, t, d, k, x) && x >= 0 && x >= k && Facing(s, t, w, off, d, e)
    requires meets ==> NoMeeting(s, t, d, e, k) && !Overlap(s, t, w, off, k, x)
    requires Cutting(s, t, d, lo, c, k, i)
    ensures meets ==> NoMeeting(s, t, d, e, k + 2)
    ensures Cutting(s, t, d, lo, c', k + 2, i + 1)
    ensures c'.b == c.b + (if x > |s| then 1 else 0) && c'.a == c.a + (if x <= |s| && x - k > |t| then 1 else 0)
  {
    FurthermostCost(s, t, d, k, x);
    if meets { DiagonalNotMet(s, t, w, off, d, e, lo, k, i, x); }
    c' := CutNext(s, t, d, lo, c, k, i, x, x - k);
  }

  /** In step d, before diagonal k, with the new bounds for the next step so far. */
  ghost predicate Going(s: Text, t: Text, v: seq<int>, off: nat, d: nat, e: int, start: int, p: Steps, c: Cuts, k: int, i: nat,
                        newStart: int, end: int, newEnd: int, meets: bool)
  {
    forall z: nat {:trigger Unwrap(z)} :: Unwrap(z) ==>
      && d == p.d && p.lo == start - d && p.lo + 2 * p.n - 2 == d - end && Even(p.lo - d)
      && k == p.lo + 2 * i && i <= p.n && Walking(v, off, p, i) && Halfway(s, t, v, off, d, k)
      && Cutting(s, t, d, start - d, c, k, i) && newStart == start + 2 * c.a && newEnd == end + 2 * c.b
      && (meets ==> NoMeeting(s, t, d, e, k))
  }

  /** What the visit of diagonal k has written. */
  ghost predicate Written(s: Text, t: Text, v: seq<int>, off: nat, d: nat, p: Steps, k: int, i: nat, x: int) {
    forall z: nat {:trigger Unwrap(z)} :: Unwrap(z) ==>
      Walking(v, off, p, i + 1) && Halfway(s, t, v, off, d, k + 2) && Furthermost(s, t, d, k, x)
  }

  lemma PointWritten(s: Text, t: Text, v: seq<int>, off: nat, d: nat, p: Steps, k: int, i: nat, x: int, x1: int)
    requires Walking(v, off, p, i) && i < p.n && d == p.d && k == p.lo + 2 * i && Even(p.lo - d) && Halfway(s, t, v, off, d, k)
    requires x >= 0 && x >= k && StartsAt(v, off, d, k, x) && StartOf(v, off, d, k, x) && Runs(s, t, x, x - k, x1)
    requires 0 <= off + k < |v|
    ensures Written(s, t, v[off + k := x1], off, d, p, k, i, x1)
  {
    EvenOn(p.lo, d, i);
    VisitDone(s, t, v, off, d, k, x, x1);
    Visit(v, off, p, i, x1);
  }

  /** One diagonal of the front path. */
  method FrontPoint(v: array<int>, text1: Text, text2: Text, off: nat, d: nat, k: int, ghost e: int, ghost start: int, ghost end: int,
                    ghost p: Steps, ghost c: Cuts, ghost i: nat, ghost newStart: int, ghost newEnd: int, ghost meets: bool)
      returns (x: int, y: int)
    requires Going(text1, text2, v[..], off, d, e, start, p, c, k, i, newStart, end, newEnd, meets) && k < d + 1 - end
    modifies v
    ensures Written(text1, text2, v[..], off, d, p, k, i, x) && x >= 0 && y >= 0 && y == x - k
  {
    assert Unwrap(0);
    var x0 := Start(v, off, p, i, d, k);
    NeighboursKnown(v[..], off, p, i);
    x, y := Snake(text1, text2, x0, x0 - k);
    PointWritten(text1, text2, v[..], off, d, p, k, i, x0, x);
    v[off + k] := x;
  }

  /** One diagonal of the reverse path. */
  method BackPoint(v: array<int>, text1: Text, text2: Text, off: nat, d: nat, k: int, ghost e: int, ghost start: int, ghost end: int,
                   ghost p: Steps, ghost c: Cuts, ghost i: nat, ghost newStart: int, ghost newEnd: int, ghost meets: bool)
      returns (x: int, y: int)
    requires Going(Reversed(text1), Reversed(text2), v[..], off, d, e, start, p, c, k, i, newStart, end, newEnd, meets)
    requires k < d + 1 - end
    modifies v
    ensures Written(Reversed(text1), Reversed(text2), v[..], off, d, p, k, i, x) && x >= 0 && y >= 0 && y == x - k
  {
    assert Unwrap(0);
    var x0 := Start(v, off, p, i, d, k);
    NeighboursKnown(v[..], off, p, i);
    x, y := SnakeBack(text1, text2, x0, x0 - k);
    PointWritten(Reversed(text1), Reversed(text2), v[..], off, d, p, k, i, x0, x);
    v[off + k] := x;
  }

  /** The front path has come to the reverse path. */
  lemma MetFront(text1: Text, text2: Text, v: seq<int>, v': seq<int>, w: seq<int>, off: nat, d: nat, start: int, p: Steps, c: Cuts,
                 k: int, i: nat, newStart: int, end: int, newEnd: int, x: nat, y: nat)
    requires Going(text1, text2, v, off, d, d - 1, start, p, c, k, i, newStart, end, newEnd, true)
    requires Facing(text1, text2, w, off, d, d - 1) && Written(text1, text2, v', off, d, p, k, i, x) && y == x - k
    requires Odd(text1, text2) && Dist(text1, text2) >= 2 * d - 1 && Overlap(text1, text2, w, off, k, x)
    ensures Level(text1, text2, x, y, d) && From(text1, text2, x, y) == d - 1
  {
    assert Unwrap(0);
    var k2 := |text1| - |text2| - k;
    var x2 := w[off + k2];
    var y2 := x2 - k2;
    FurthermostCost(text1, text2, d, k, x);
    EvenOn(p.lo, d, i);
    Met(text1, text2, w, off, d, d - 1, k, x, y, x2, y2);
  }

  /** The reverse path has come to the front path. Seen from the end of the texts, that is the other one. */
  lemma MetBack(text1: Text, text2: Text, v: seq<int>, v': seq<int>, w: seq<int>, off: nat, d: nat, start: int, p: Steps, c: Cuts,
                k: int, i: nat, newStart: int, end: int, newEnd: int, x2: nat, y2: nat, other: int, x: int, y: int)
    requires var (s, t) := (Reversed(text1), Reversed(text2));
      && Going(s, t, v, off, d, d, start, p, c, k, i, newStart, end, newEnd, true)
      && Facing(s, t, w, off, d, d) && Written(s, t, v', off, d, p, k, i, x2)
    requires !Odd(text1, text2) && Dist(text1, text2) >= 2 * d && y2 == x2 - k
    requires other == off + |text1| - |text2| - k && 0 <= other < |w| && w[other] != -1
    requires x2 <= |text1| && y2 <= |text2| && w[other] >= |text1| - x2 && x == w[other] && y == off + x - other
    ensures x >= 0 && y >= 0 && Level(text1, text2, x, y, d) && From(text1, text2, x, y) == d
  {
    assert Unwrap(0);
    var s, t := Reversed(text1), Reversed(text2);
    DistTurned(text1, text2);
    FurthermostCost(s, t, d, k, x2);
    EvenOn(p.lo, d, i);
    Met(s, t, w, off, d, d, k, x2, y2, x, y);
    FromEnd(text1, text2, x, y, d);
  }

  lemma FurthermostCost(s: Text, t: Text, d: nat, k: int, x: int)
    requires Furthermost(s, t, d, k, x)
    ensures x >= 0 && x >= k && Outside(s, t, x, x - k) <= d
  {
    assert Seal(0);
  }

  lemma FromEnd(text1: Text, text2: Text, x: nat, y: nat, d: nat)
    requires Level(Reversed(Reversed(text1)), Reversed(Reversed(text2)), x, y, d)
    requires To(Reversed(text1), Reversed(text2), |text1| - x, |text2| - y) == d
    ensures Level(text1, text2, x, y, d) && From(text1, text2, x, y) == d
  {
    ReversedTwice(text1);
    ReversedTwice(text2);
  }

  lemma GoingStarts(s: Text, t: Text, v: seq<int>, off: nat, d: nat, e: int, start: int, end: int, p: Steps, meets: bool)
    requires Ready(v, off, d, start, end, p) && Search(s, t, v, off, d, start, end)
    ensures Going(s, t, v, off, d, e, start, p, Cuts(0, 0, start - d, 0), start - d, 0, start, end, end, meets)
  {
    assert Unwrap(0);
    StepBegins(s, t, v, off, d, start, end, e);
  }

  /** One more diagonal has been written, without a meeting if the two paths may meet in this step. */
  lemma GoesOn(s: Text, t: Text, v: seq<int>, v': seq<int>, w: seq<int>, off: nat, d: nat, e: int, start: int, p: Steps, c: Cuts,
               k: int, i: nat, newStart: int, end: int, newEnd: int, meets: bool, x: int, newStart': int, newEnd': int)
      returns (c': Cuts)
    requires Going(s, t, v, off, d, e, start, p, c, k, i, newStart, end, newEnd, meets) && k < d + 1 - end
    requires Written(s, t, v', off, d, p, k, i, x) && x >= 0 && x >= k && Facing(s, t, w, off, d, e) && (meets ==> !Overlap(s, t, w, off, k, x))
    requires newEnd' == newEnd + (if x > |s| then 2 else 0)
    requires newStart' == newStart + (if x <= |s| && x - k > |t| then 2 else 0)
    ensures Going(s, t, v', off, d, e, start, p, c', k + 2, i + 1, newStart', end, newEnd', meets)
  {
    assert Unwrap(0);
    c' := DiagonalDone(s, t, w, off, d, e, start - d, c, k, i, x, meets);
  }

  lemma GoingEnds(s: Text, t: Text, v0: seq<int>, v: seq<int>, off: nat, d: nat, e: int, start: int, p: Steps, c: Cuts,
                  k: int, i: nat, newStart: int, end: int, newEnd: int, meets: bool) returns (next: Steps)
    requires Going(s, t, v, off, d, e, start, p, c, k, i, newStart, end, newEnd, meets) && k >= d + 1 - end
    requires Search(s, t, v0, off, d, start, end)
    ensures Done(s, t, v, off, d, newStart, newEnd, next)
    ensures meets ==> NoMeeting(s, t, d, e, d + 1)
  {
    CutsFit(s, t, v, off, d, e, start, p, c, k, i, newStart, end, newEnd, meets);
    next := After(p, c.a, c.b);
    assert Unwrap(0);
    assert i == p.n;
    Finished(s, t, v0, v, off, d, e, start, end, p, c, k, meets);
  }

  lemma CutsFit(s: Text, t: Text, v: seq<int>, off: nat, d: nat, e: int, start: int, p: Steps, c: Cuts, k: int, i: nat,
                newStart: int, end: int, newEnd: int, meets: bool)
    requires Going(s, t, v, off, d, e, start, p, c, k, i, newStart, end, newEnd, meets)
    ensures c.a + c.b <= p.n
  {
    assert Unwrap(0);
  }

  /** Whether the point x on diagonal k, inside the grid, has passed the other path. */
  method Overlaps(v: array<int>, text1: Text, text2: Text, off: nat, k: int, x: int) returns (b: bool)
    requires OnGrid(text1, text2, x, x - k)
    ensures b <==> Overlap(text1, text2, v[..], off, k, x)
  {
    var other := off + (|text1| - |text2|) - k;
    b := false;
    if other >= 0 && other < v.Length && v[other] != -1 {
      b := x >= |text1| - v[other];
    }
  }

  /** One diagonal of the front path, and whether it has come to the reverse path. */
  method FrontDiagonal(v1: array<int>, v2: array<int>, text1: Text, text2: Text, front: bool, off: nat, d: nat, k: int, start: int, end: int,
                       ghost start0: int, ghost end0: int, ghost p: Steps, ghost c: Cuts, ghost i: nat)
      returns (found: bool, x: int, y: int, newStart: int, newEnd: int, ghost c': Cuts)
    requires front == Odd(text1, text2) && v1 != v2 && v1.Length == v2.Length == 2 * off && k < d + 1 - end0
    requires Going(text1, text2, v1[..], off, d, d - 1, start0, p, c, k, i, start, end0, end, front)
    requires Facing(text1, text2, v2[..], off, d, d - 1) && (front ==> Dist(text1, text2) >= 2 * d - 1)
    modifies v1
    ensures found ==> x >= 0 && y >= 0 && Level(text1, text2, x, y, d) && From(text1, text2, x, y) == d - 1
    ensures !found ==> Going(text1, text2, v1[..], off, d, d - 1, start0, p, c', k + 2, i + 1, newStart, end0, newEnd, front)
  {
    found, newStart, newEnd, c' := false, start, end, c;
    ghost var v0 := v1[..];
    x, y := FrontPoint(v1, text1, text2, off, d, k, d - 1, start0, end0, p, c, i, start, end, front);
    if x > |text1| {
      newEnd := newEnd + 2;
    } else if y > |text2| {
      newStart := newStart + 2;
    } else if front {
      found := Overlaps(v2, text1, text2, off, k, x);
      if found {
        MetFront(text1, text2, v0, v1[..], v2[..], off, d, start0, p, c, k, i, start, end0, end, x, y);
        return;
      }
    }
    c' := GoesOn(text1, text2, v0, v1[..], v2[..], off, d, d - 1, start0, p, c, k, i, start, end0, end, front, x,
                 newStart, newEnd);
  }

  /** One diagonal of the reverse path, and whether it has come to the front path. */
  method BackDiagonal(v1: array<int>, v2: array<int>, text1: Text, text2: Text, front: bool, off: nat, d: nat, k: int, start: int, end: int,
                      ghost start0: int, ghost end0: int, ghost p: Steps, ghost c: Cuts, ghost i: nat)
      returns (found: bool, x: int, y: int, newStart: int, newEnd: int, ghost c': Cuts)
    requires front == Odd(text1, text2) && v1 != v2 && v1.Length == v2.Length == 2 * off && k < d + 1 - end0
    requires var (s, t) := (Reversed(text1), Reversed(text2));
      && Going(s, t, v2[..], off, d, d, start0, p, c, k, i, start, end0, end, !front)
      && Facing(s, t, v1[..], off, d, d) && (!front ==> Dist(text1, text2) >= 2 * d)
    modifies v2
    ensures found ==> x >= 0 && y >= 0 && Level(text1, text2, x, y, d) && From(text1, text2, x, y) == d
    ensures !found ==> Going(Reversed(text1), Reversed(text2), v2[..], off, d, d, start0, p, c', k + 2, i + 1, newStart, end0, newEnd,
                             !front)
  {
    found, x, y, newStart, newEnd, c' := false, 0, 0, start, end, c;
    var delta := |text1| - |text2|;
    ghost var v0 := v2[..];
    var x2, y2 := BackPoint(v2, text1, text2, off, d, k, d, start0, end0, p, c, i, start, end, !front);
    if x2 > |text1| {
      newEnd := newEnd + 2;
    } else if y2 > |text2| {
      newStart := newStart + 2;
    } else if !front {
      var other := off + delta - k;
      if other >= 0 && other < v1.Length && v1[other] != -1 {
        x := v1[other];
        y := off + x - other;
        if x >= |text1| - x2 {
          MetBack(text1, text2, v0, v2[..], v1[..], off, d, start0, p, c, k, i, start, end0, end, x2, y2, other, x, y);
          found := true;
          return;
        }
      }
    }
    c' := GoesOn(Reversed(text1), Reversed(text2), v0, v2[..], v1[..], off, d, d, start0, p, c, k, i, start, end0, end,
                 !front, x2, newStart, newEnd);
  }

  /** One step of the front path. */
  method WalkFront(v1: array<int>, v2: array<int>, text1: Text, text2: Text, front: bool, off: nat, d: nat, start: int, end: int,
                   ghost p: Steps)
      returns (found: bool, x: int, y: int, newStart: int, newEnd: int, ghost next: Steps)
    requires front == Odd(text1, text2) && v1 != v2 && v1.Length == v2.Length == 2 * off && Ready(v1[..], off, d, start, end, p)
    requires Search(text1, text2, v1[..], off, d, start, end) && Facing(text1, text2, v2[..], off, d, d - 1)
    requires front ==> Dist(text1, text2) >= 2 * d - 1
    modifies v1
    ensures found ==> x >= 0 && y >= 0 && Level(text1, text2, x, y, d) && From(text1, text2, x, y) == d - 1
    ensures !found ==> Done(text1, text2, v1[..], off, d, newStart, newEnd, next)
    ensures !found && front ==> NoMeeting(text1, text2, d, d - 1, d + 1)
  {
    found, x, y := false, 0, 0;
    newStart, newEnd, next := start, end, p;
    var k := start - d;
    ghost var i: nat, c, v0 := 0, Cuts(0, 0, start - d, 0), v1[..];
    GoingStarts(text1, text2, v0, off, d, d - 1, start, end, p, front);
    while k < d + 1 - end
      invariant Going(text1, text2, v1[..], off, d, d - 1, start, p, c, k, i, newStart, end, newEnd, front)
    {
      found, x, y, newStart, newEnd, c := FrontDiagonal(v1, v2, text1, text2, front, off, d, k, newStart, newEnd, start, end, p, c, i);
      if found { return; }
      k := k + 2;
      i := i + 1;
    }
    next := GoingEnds(text1, text2, v0, v1[..], off, d, d - 1, start, p, c, k, i, newStart, end, newEnd, front);
  }

  /** One step of the reverse path. */
  method WalkBack(v1: array<int>, v2: array<int>, text1: Text, text2: Text, front: bool, off: nat, d: nat, start: int, end: int,
                  ghost p: Steps)
      returns (found: bool, x: int, y: int, newStart: int, newEnd: int, ghost next: Steps)
    requires front == Odd(text1, text2) && v1 != v2 && v1.Length == v2.Length == 2 * off && Ready(v2[..], off, d, start, end, p)
    requires Search(Reversed(text1), Reversed(text2), v2[..], off, d, start, end)
    requires Facing(Reversed(text1), Reversed(text2), v1[..], off, d, d) && (!front ==> Dist(text1, text2) >= 2 * d)
    modifies v2
    ensures found ==> x >= 0 && y >= 0 && Level(text1, text2, x, y, d) && From(text1, text2, x, y) == d
    ensures !found ==> Done(Reversed(text1), Reversed(text2), v2[..], off, d, newStart, newEnd, next)
    ensures !found && !front ==> NoMeeting(Reversed(text1), Reversed(text2), d, d, d + 1)
  {
    ghost var s, t := Reversed(text1), Reversed(text2);
    found, x, y := false, 0, 0;
    newStart, newEnd, next := start, end, p;
    var k := start - d;
    ghost var i: nat, c, v0 := 0, Cuts(0, 0, start - d, 0), v2[..];
    GoingStarts(s, t, v0, off, d, d, start, end, p, !front);
    while k < d + 1 - end
      invariant Going(s, t, v2[..], off, d, d, start, p, c, k, i, newStart, end, newEnd, !front)
    {
      found, x, y, newStart, newEnd, c := BackDiagonal(v1, v2, text1, text2, front, off, d, k, newStart, newEnd, start, end, p, c, i);
      if found { return; }
      k := k + 2;
      i := i + 1;
    }
    next := GoingEnds(s, t, v0, v2[..], off, d, d, start, p, c, k, i, newStart, end, newEnd, !front);
  }

  // ---------------------------------------------------------------------------
  // The search

  lemma FirstStep(v: seq<int>, off: nat) returns (p: Steps)
    requires |v| == 2 * off && off >= 2
    requires forall i :: 0 <= i < |v| ==> v[i] == if i == off + 1 then 0 else -1
    ensures Ready(v, off, 0, 0, 0, p) && forall s, t :: Search(s, t, v, off, 0, 0, 0)
  {
    p := Steps(0, 0, 0, 0, 1);
    forall s, t ensures Search(s, t, v, off, 0, 0, 0) {
      forall i: nat | i < |v| ensures CostOk(s, t, v, off, 0, i) {}
    }
  }

  /** Neither empty, nor with a common first or last character. */
  predicate Apart(text1: Text, text2: Text) {
    text1 != [] && text2 != [] && text1[0] != text2[0] && text1[|text1| - 1] != text2[|text2| - 1]
  }

  lemma AtLeastTwo(text1: Text, text2: Text)
    requires Apart(text1, text2)
    ensures Dist(text1, text2) >= 2
  {
    var n, m := |text1|, |text2|;
    if To(text1, text2, n - 1, m) == 0 { AllEqual(text1, text2, n - 1, m); }
    if To(text1, text2, n, m - 1) == 0 { AllEqual(text1, text2, n, m - 1); }
  }

  /** Where the paths meet half way, both parts are shorter. */
  lemma ProperSplit(text1: Text, text2: Text, x: nat, y: nat)
    requires Best(text1, text2, x, y) && -1 <= To(text1, text2, x, y) - From(text1, text2, x, y) <= 1
    ensures Apart(text1, text2) ==> 0 < x + y < |text1| + |text2|
  {
    if Apart(text1, text2) {
      AtLeastTwo(text1, text2);
      FromStep(text1, text2, |text1|, |text2|);
    }
  }

  /** What is known of the distance before step d, if the paths have not met. */
  ghost predicate NotYet(text1: Text, text2: Text, front: bool, d: int) {
    Dist(text1, text2) >= if front then 2 * d - 1 else 2 * d
  }

  lemma StillApart(text1: Text, text2: Text, front: bool, d: nat)
    requires front == Odd(text1, text2) && NotYet(text1, text2, front, d)
    requires front ==> NoMeeting(text1, text2, d, d - 1, d + 1)
    requires !front ==> NoMeeting(Reversed(text1), Reversed(text2), d, d, d + 1)
    ensures NotYet(text1, text2, front, d + 1)
  {
    OnDiagonal(text1, text2, |text1|, |text2|);
    if front {
      if d > 0 { FurtherApart(text1, text2, d, d - 1, d + 1); }
    } else {
      DistTurned(text1, text2);
      FurtherApart(Reversed(text1), Reversed(text2), d, d, d + 1);
    }
  }

  /** Texts without anything in common. */
  lemma NothingInCommon(text1: Text, text2: Text, front: bool, d: nat)
    requires front == Odd(text1, text2) && NotYet(text1, text2, front, d) && d >= (|text1| + |text2| + 1) / 2
    ensures Dist(text1, text2) == |text1| + |text2|
  {
    var c := Common(text1, text2, |text1|, |text2|);
  }

  /** The bounds of the two paths before a step. */
  datatype Bounds = Bounds(start1: int, end1: int, start2: int, end2: int)

  ghost predicate Before(text1: Text, text2: Text, v1: seq<int>, v2: seq<int>, off: nat, d: nat, b: Bounds, p1: Steps, p2: Steps) {
    forall z: nat {:trigger Unwrap(z)} :: Unwrap(z) ==>
      && Ready(v1, off, d, b.start1, b.end1, p1) && Search(text1, text2, v1, off, d, b.start1, b.end1)
      && Ready(v2, off, d, b.start2, b.end2, p2) && Search(Reversed(text1), Reversed(text2), v2, off, d, b.start2, b.end2)
  }

  /** One step of both paths. */
  method Round(v1: array<int>, v2: array<int>, text1: Text, text2: Text, front: bool, off: nat, d: nat, b: Bounds,
               ghost p1: Steps, ghost p2: Steps)
      returns (found: bool, x: int, y: int, b': Bounds, ghost p1': Steps, ghost p2': Steps)
    requires front == Odd(text1, text2) && v1 != v2 && v1.Length == v2.Length == 2 * off
    requires Before(text1, text2, v1[..], v2[..], off, d, b, p1, p2) && NotYet(text1, text2, front, d)
    modifies v1, v2
    ensures found ==> x >= 0 && y >= 0 && Best(text1, text2, x, y) && (Apart(text1, text2) ==> 0 < x + y < |text1| + |text2|)
    ensures !found ==> NotYet(text1, text2, front, d + 1)
    ensures !found && d + 1 < off ==> Before(text1, text2, v1[..], v2[..], off, d + 1, b', p1', p2')
  {
    assert Unwrap(0);
    var start1, end1, start2, end2;
    b', p1', p2' := b, p1, p2;
    CellsFacing(text1, text2, v2[..], off, d, b.start2, b.end2, p2);
    found, x, y, start1, end1, p1' := WalkFront(v1, v2, text1, text2, front, off, d, b.start1, b.end1, p1);
    if found {
      ProperSplit(text1, text2, x, y);
      return;
    }
    FrontFacing(text1, text2, v1[..], off, d, start1, end1, p1');
    found, x, y, start2, end2, p2' := WalkBack(v1, v2, text1, text2, front, off, d, b.start2, b.end2, p2);
    if found {
      ProperSplit(text1, text2, x, y);
      return;
    }
    StillApart(text1, text2, front, d);
    b' := Bounds(start1, end1, start2, end2);
  }

  /** The two arrays of furthest points, with the sentinel at diagonal 1. */
  method NewPaths(text1: Text, text2: Text, off: nat)
      returns (v1: array<int>, v2: array<int>, b: Bounds, ghost p1: Steps, ghost p2: Steps)
    requires off >= 2
    ensures fresh(v1) && fresh(v2) && v1 != v2 && v1.Length == v2.Length == 2 * off
    ensures Before(text1, text2, v1[..], v2[..], off, 0, b, p1, p2)
  {
    v1 := new int[2 * off](_ => -1);
    v1[off + 1] := 0;
    v2 := new int[2 * off](i requires 0 <= i < v1.Length reads v1 => v1[i]);
    b := Bounds(0, 0, 0, 0);
    p1 := FirstStep(v1[..], off);
    p2 := FirstStep(v2[..], off);
  }

  /** `diff_bisect` up to the call of `diff_bisectSplit`: the split point, if the two paths meet before the
      deadline. It lies on a shortest way; and if they do not meet although there is no deadline, the texts
      have nothing in common. The source takes texts of at least three characters together for granted. */
  method MiddleSnake(clock: Clock, text1: Text, text2: Text) returns (found: bool, x: int, y: int)
    requires |text1| + |text2| >= 3
    modifies clock
    ensures found ==> x >= 0 && y >= 0 && Best(text1, text2, x, y)
    ensures found && Apart(text1, text2) ==> 0 < x + y < |text1| + |text2|
    ensures !found && clock.Never() ==> Dist(text1, text2) == |text1| + |text2|
  {
    var maxD := (|text1| + |text2| + 1) / 2;
    var v1, v2, b;
    ghost var p1, p2;
    v1, v2, b, p1, p2 := NewPaths(text1, text2, maxD);
    var front := (|text1| - |text2|) % 2 != 0;
    var d := 0;
    while d < maxD
      invariant 0 <= d <= maxD && NotYet(text1, text2, front, d)
      invariant d < maxD ==> Before(text1, text2, v1[..], v2[..], maxD, d, b, p1, p2)
    {
      var late := clock.IsLate();
      if late {
        found, x, y := false, 0, 0;
        return;
      }
      found, x, y, b, p1, p2 := Round(v1, v2, text1, text2, front, maxD, d, b, p1, p2);
      if found { return; }
      d := d + 1;
    }
    NothingInCommon(text1, text2, front, d);
    found, x, y := false, 0, 0;
  }
}
