/** `diff_cleanupSemanticLossless` and `diff_cleanupSemantic`. */
module Semantic {
  import opened Types
  import opened Edits
  import opened Strings
  import opened CleanupMerge
  import opened Cleanups
  import opened Sealing

  /** An edit t between the equalities x and y, moved to x', t', y': the text with the edit and the
      text without it stay the same. */
  ghost predicate Moved(x: Text, t: Text, y: Text, x': Text, t': Text, y': Text) {
    x' + t' + y' == x + t + y && x' + y' == x + y
  }

  lemma MovedLeft(a: Text, u: Text, s: Text, y: Text)
    ensures Moved(a + s, u + s, y, a, s + u, s + y)
  {
    assert (a + s) + (u + s) + y == a + (s + u) + (s + y);
    assert (a + s) + y == a + (s + y);
  }

  lemma MovedRight(x: Text, c: nat, v: Text, w: Text)
    ensures Moved(x, [c] + v, [c] + w, x + [c], v + [c], w)
  {
    assert x + ([c] + v) + ([c] + w) == (x + [c]) + (v + [c]) + w;
    assert x + ([c] + w) == (x + [c]) + w;
  }

  /** The edit t moved to where x' ends, with its length. */
  ghost predicate Position(x: Text, t: Text, y: Text, x': Text, t': Text, y': Text) {
    Moved(x, t, y, x', t', y') && |t'| == |t|
  }

  function Total(score: (Text, Text) -> int, x: Text, t: Text, y: Text): int {
    score(x, t) + score(t, y)
  }

  /** Of two positions, the text between them is the same before and behind the edit. */
  lemma Between(x: Text, t: Text, y: Text, a: Text, u: Text, b: Text, c: Text, v: Text, e: Text)
    requires Position(x, t, y, a, u, b) && Position(x, t, y, c, v, e) && |a| <= |c|
    ensures var w := x + t + y;
            && |c| + |t| <= |w| && forall k {:trigger w[k]} :: |a| <= k < |c| ==> w[k] == w[k + |t|]
  {
    var w, r := x + t + y, x + y;
    assert |r| == |w| - |t|;
    forall k {:trigger w[k]} | |a| <= k < |c| ensures w[k] == w[k + |t|] {
      assert r[k] == (a + b)[k] == b[k - |a|] && w[k + |t|] == (a + u + b)[k + |t|] == b[k - |a|];
      assert r[k] == (c + e)[k] == c[k] && w[k] == (c + v + e)[k] == c[k];
    }
  }

  /** Where a position ends, says all of it. */
  lemma OnePosition(x: Text, t: Text, y: Text, a: Text, u: Text, b: Text, c: Text, v: Text, e: Text)
    requires Position(x, t, y, a, u, b) && Position(x, t, y, c, v, e) && |a| == |c|
    ensures a == c && u == v && b == e
  {
    var w, n := x + t + y, |a|;
    assert a == w[..n] && c == w[..n];
    assert u == w[n..n + |t|] && v == w[n..n + |t|];
    assert b == w[n + |t|..] && e == w[n + |t|..];
  }

  /** No position is further to the right, if the character after the edit is not its first one. */
  lemma Rightmost(x: Text, t: Text, y: Text, a: Text, u: Text, b: Text, c: Text, v: Text, e: Text)
    requires Position(x, t, y, a, u, b) && Position(x, t, y, c, v, e) && t != []
    requires b == [] || u[0] != b[0]
    ensures |c| <= |a|
  {
    FirstAndNext(x, t, y, a, u, b);
    if |a| < |c| { Between(x, t, y, a, u, b, c, v, e); }
  }

  lemma FirstAndNext(x: Text, t: Text, y: Text, a: Text, u: Text, b: Text)
    requires Position(x, t, y, a, u, b) && t != []
    ensures var w := x + t + y;
            |w| == |a| + |t| + |b| && w[|a|] == u[0] && (b != [] ==> w[|a| + |t|] == b[0])
  {
    var w := x + t + y;
    assert w == a + u + b;
  }

  /** No position is further to the left than the common suffix of x and t reaches, and not by more than the
      length of t. */
  lemma Leftmost(x: Text, t: Text, y: Text, c: Text, v: Text, e: Text, common: nat)
    requires Position(x, t, y, c, v, e) && LongestSuffix(x, t, common) && |c| + |t| >= |x|
    ensures |c| + common >= |x|
  {
    if |c| < |x| {
      NotMoved(x, t, y);
      Between(x, t, y, c, v, e, x, t, y);
      var w, n := x + t + y, |x| - |c|;
      var (p, q) := (x[|x| - n..], t[|t| - n..]);
      forall k | 0 <= k < n ensures p[k] == q[k] { assert w[|c| + k] == w[|c| + k + |t|]; }
      assert p == q;
      assert SameLast(x, t, n);
    }
  }

  lemma NotMoved(x: Text, t: Text, y: Text)
    ensures Position(x, t, y, x, t, y)
  {}

  /** The common suffix is one with t, so that it is no longer: here a position further to the left is not
      tried, whatever the score. */
  lemma OutOfReach()
    ensures var x, t, y, c, e := [97, 97], [97], [98], [], [97, 97, 98];
            Position(x, t, y, c, t, e) && LongestSuffix(x, t, 1) && |c| < |x| - 1
  {
    var x, t, y, c: Text, e := [97, 97], [97], [98], [], [97, 97, 98];
    assert c + t + e == x + t + y && c + e == x + y;
    assert x[|x| - 1..] == t[|t| - 1..];
    LastEnd(x, t, 1);
  }

  /** The best of all positions from the leftmost one tried up to n, and the last one of the best. */
  ghost predicate BestUpTo(x: Text, t: Text, y: Text, score: (Text, Text) -> int, bestX: Text, best: int, n: nat) {
    forall c: Text, v: Text, e: Text {:trigger Position(x, t, y, c, v, e)} ::
      Position(x, t, y, c, v, e) && |c| + |t| >= |x| && |c| <= n ==>
        Total(score, c, v, e) <= best && (Total(score, c, v, e) == best ==> |c| <= |bestX|)
  }

  lemma BestNext(x: Text, t: Text, y: Text, score: (Text, Text) -> int, oldX: Text, oldScore: int, n: nat,
                 a: Text, u: Text, b: Text, bestX: Text, best: int)
    requires BestUpTo(x, t, y, score, oldX, oldScore, n) && Position(x, t, y, a, u, b) && |a| == n + 1 && |oldX| <= n
    requires if Total(score, a, u, b) >= oldScore then bestX == a && best == Total(score, a, u, b) else bestX == oldX && best == oldScore
    ensures BestUpTo(x, t, y, score, bestX, best, n + 1)
  {
    forall c: Text, v: Text, e: Text {:trigger Position(x, t, y, c, v, e)} |
      Position(x, t, y, c, v, e) && |c| + |t| >= |x| && |c| <= n + 1
      ensures Total(score, c, v, e) <= best && (Total(score, c, v, e) == best ==> |c| <= |bestX|)
    {
      if |c| == n + 1 { OnePosition(x, t, y, a, u, b, c, v, e); }
    }
  }

  lemma BestFirst(x: Text, t: Text, y: Text, score: (Text, Text) -> int, a: Text, u: Text, b: Text, common: nat)
    requires Position(x, t, y, a, u, b) && LongestSuffix(x, t, common) && |a| + common == |x|
    ensures BestUpTo(x, t, y, score, a, Total(score, a, u, b), |a|)
  {
    forall c: Text, v: Text, e: Text {:trigger Position(x, t, y, c, v, e)} |
      Position(x, t, y, c, v, e) && |c| + |t| >= |x| && |c| <= |a|
      ensures Total(score, c, v, e) <= Total(score, a, u, b)
    {
      Leftmost(x, t, y, c, v, e, common);
      OnePosition(x, t, y, a, u, b, c, v, e);
    }
  }

  lemma BestOfAll(x: Text, t: Text, y: Text, score: (Text, Text) -> int, bestX: Text, bestT: Text, bestY: Text, best: int,
                  a: Text, u: Text, b: Text)
    requires BestUpTo(x, t, y, score, bestX, best, |a|) && Position(x, t, y, a, u, b) && (b == [] || u == [] || u[0] != b[0])
    requires best == Total(score, bestX, bestT, bestY) && Position(x, t, y, bestX, bestT, bestY) && (t == [] ==> bestX == x && bestY == y)
    ensures BestMove(x, t, y, score, bestX, bestT, bestY)
  {
    if t != [] {
      forall n: nat ensures BestUpTo(x, t, y, score, bestX, best, n) {
        forall c: Text, v: Text, e: Text {:trigger Position(x, t, y, c, v, e)} | Position(x, t, y, c, v, e)
          ensures |c| <= |a|
        {
          Rightmost(x, t, y, a, u, b, c, v, e);
        }
      }
    }
  }

  /** Of all positions but those more than its own length to the left, this is one of the highest score, and the
      last one of these. An edit without text stays. */
  ghost predicate BestMove(x: Text, t: Text, y: Text, score: (Text, Text) -> int, x': Text, t': Text, y': Text) {
    && Position(x, t, y, x', t', y')
    && if t == [] then x' == x && y' == y
       else forall n: nat {:trigger BestUpTo(x, t, y, score, x', Total(score, x', t', y'), n)} :: BestUpTo(x, t, y, score, x', Total(score, x', t', y'), n)
  }

  /** Where the edit fits best: first to the left as far as it has a suffix in common, then right as long as it
      can move. */
  method BestFit(x: Text, t: Text, y: Text, score: (Text, Text) -> int) returns (bestX: Text, bestT: Text, bestY: Text)
    ensures BestMove(x, t, y, score, bestX, bestT, bestY)
  {
    var equality1, edit, equality2 := x, t, y;
    var common := CommonSuffix(equality1, edit);
    if common != 0 {
      var s := TakeLast(edit, common);
      assert equality1 == DropLast(equality1, common) + s && edit == DropLast(edit, common) + s;
      MovedLeft(DropLast(equality1, common), DropLast(edit, common), s, equality2);
      equality1 := DropLast(equality1, common);
      edit := s + DropLast(edit, common);
      equality2 := s + equality2;
    }
    bestX, bestT, bestY := equality1, edit, equality2;
    BestFirst(x, t, y, score, equality1, edit, equality2, common);
    var bestScore := score(equality1, edit) + score(edit, equality2);
    while edit != [] && equality2 != [] && edit[0] == equality2[0]
      invariant Position(x, t, y, equality1, edit, equality2) && Position(x, t, y, bestX, bestT, bestY)
      invariant bestScore == Total(score, bestX, bestT, bestY) && |bestX| <= |equality1|
      invariant t == [] ==> bestX == x && bestY == y
      invariant BestUpTo(x, t, y, score, bestX, bestScore, |equality1|)
      decreases |equality2|
    {
      StepRight(equality1, edit, equality2);
      ghost var (oldX, oldScore, n) := (bestX, bestScore, |equality1|);
      equality1 := equality1 + [edit[0]];
      edit := edit[1..] + [equality2[0]];
      equality2 := equality2[1..];
      var now := score(equality1, edit) + score(edit, equality2);
      if now >= bestScore {
        bestScore, bestX, bestT, bestY := now, equality1, edit, equality2;
      }
      BestNext(x, t, y, score, oldX, oldScore, n, equality1, edit, equality2, bestX, bestScore);
    }
    BestOfAll(x, t, y, score, bestX, bestT, bestY, bestScore, equality1, edit, equality2);
  }

  lemma StepRight(x: Text, t: Text, y: Text)
    requires t != [] && y != [] && t[0] == y[0]
    ensures Moved(x, t, y, x + [t[0]], t[1..] + [y[0]], y[1..])
  {
    assert t == [t[0]] + t[1..] && y == [y[0]] + y[1..];
    MovedRight(x, t[0], t[1..], y[1..]);
  }

  /** An equality, left out when it has no text. */
  function IfText(e: Edit): seq<Edit> {
    if e.text == [] then [] else [e]
  }

  lemma IfTextTexts(e: Edit)
    ensures Text1(IfText(e)) == Part(e, Insert) && Text2(IfText(e)) == Part(e, Delete)
  {
    TextsOf1(e);
  }

  lemma MovedTexts(x: Edit, t: Edit, y: Edit, nx: Text, nt: Text, ny: Text)
    requires x.op == Equal && y.op == Equal && Moved(x.text, t.text, y.text, nx, nt, ny)
    ensures SameTexts(IfText(Edit(x.op, nx)) + [Edit(t.op, nt)] + IfText(Edit(y.op, ny)), [x, t, y])
  {
    var e, f, h := Edit(x.op, nx), Edit(t.op, nt), Edit(y.op, ny);
    TextsOf3(x, t, y);
    TextsOf1(f);
    IfTextTexts(e);
    IfTextTexts(h);
    TextsConcat3(IfText(e), [f], IfText(h));
    NoText(nx, ny);
    NoText(x.text, y.text);
  }

  lemma NoText(a: Text, b: Text)
    ensures a + [] + b == a + b
  {}

  /** Gives the equality at index p new text, or removes it if there is none. */
  method SaveEquality(diffs: EditList, p: nat, text: Text, ghost head: seq<Edit>, ghost e: Edit, ghost tail: seq<Edit>)
    requires diffs.d == head + [e] + tail && p == |head|
    modifies diffs
    ensures diffs.d == head + IfText(Edit(e.op, text)) + tail
  {
    if text != [] {
      diffs.d := diffs.d[p := Edit(diffs.d[p].op, text)];
    } else {
      diffs.d := diffs.d[..p] + diffs.d[p + 1..];
    }
  }

  method SaveEdit(diffs: EditList, p: nat, text: Text, ghost head: seq<Edit>, ghost e: Edit, ghost tail: seq<Edit>)
    requires diffs.d == head + [e] + tail && p == |head|
    modifies diffs
    ensures diffs.d == head + [Edit(e.op, text)] + tail
  {
    diffs.d := diffs.d[p := Edit(diffs.d[p].op, text)];
  }

  /** The list with the edit at p moved, and equalities without text left out. */
  function Refitted(d: seq<Edit>, p: int, nx: Text, nt: Text, ny: Text): seq<Edit>
    requires 0 < p < |d| - 1
  {
    d[..p - 1] + (IfText(Edit(d[p - 1].op, nx)) + [Edit(d[p].op, nt)] + IfText(Edit(d[p + 1].op, ny))) + d[p + 2..]
  }

  /** Where the pointer is then. */
  function PlaceAfter(p: int, nx: Text, ny: Text): int {
    p - (if nx == [] then 1 else 0) - (if ny == [] then 1 else 0)
  }

  /** From place p on, r is what becomes of the list when every edit between two equalities is moved to where it
      fits best, from the front. */
  ghost predicate Aligned(d: seq<Edit>, p: int, r: seq<Edit>, score: (Text, Text) -> int)
    decreases |d| - p
  {
    p >= 1 &&
    if p >= |d| - 1 then r == d
    else if d[p - 1].op == Equal && d[p + 1].op == Equal then
      exists nx, nt, ny {:trigger Fits(d, p, score, nx, nt, ny)} ::
        && Fits(d, p, score, nx, nt, ny)
        && if nx == d[p - 1].text then Aligned(d, p + 1, r, score)
           else Aligned(Refitted(d, p, nx, nt, ny), PlaceAfter(p, nx, ny) + 1, r, score)
    else Aligned(d, p + 1, r, score)
  }

  ghost predicate Fits(d: seq<Edit>, p: int, score: (Text, Text) -> int, nx: Text, nt: Text, ny: Text) {
    0 < p < |d| - 1 && BestMove(d[p - 1].text, d[p].text, d[p + 1].text, score, nx, nt, ny)
  }

  /** What becomes of d from place p on becomes of d0. */
  ghost predicate Onward(d0: seq<Edit>, d: seq<Edit>, p: int, score: (Text, Text) -> int) {
    forall z: nat {:trigger Seal(z)} :: Seal(z) ==>
      forall r {:trigger Aligned(d, p, r, score)} :: Aligned(d, p, r, score) ==> Aligned(d0, 1, r, score)
  }

  lemma OnwardMoved(d0: seq<Edit>, d: seq<Edit>, p: int, score: (Text, Text) -> int, nx: Text, nt: Text, ny: Text)
    requires Onward(d0, d, p, score) && Fits(d, p, score, nx, nt, ny) && d[p - 1].op == Equal && d[p + 1].op == Equal
    ensures if nx == d[p - 1].text then Onward(d0, d, p + 1, score)
            else Onward(d0, Refitted(d, p, nx, nt, ny), PlaceAfter(p, nx, ny) + 1, score)
  {
    var (e, q) := if nx == d[p - 1].text then (d, p + 1) else (Refitted(d, p, nx, nt, ny), PlaceAfter(p, nx, ny) + 1);
    forall r | Aligned(e, q, r, score) ensures Aligned(d0, 1, r, score) {
      assert Aligned(d, p, r, score);
      assert Seal(0);
    }
  }

  lemma OnwardSkipped(d0: seq<Edit>, d: seq<Edit>, p: int, score: (Text, Text) -> int)
    requires Onward(d0, d, p, score) && 1 <= p < |d| - 1 && !(d[p - 1].op == Equal && d[p + 1].op == Equal)
    ensures Onward(d0, d, p + 1, score)
  {
    var q := p + 1;
    forall r | Aligned(d, q, r, score) ensures Aligned(d0, 1, r, score) {
      assert Aligned(d, p, r, score);
      assert Seal(0);
    }
  }

  lemma OnwardEnds(d0: seq<Edit>, d: seq<Edit>, p: int, score: (Text, Text) -> int)
    requires Onward(d0, d, p, score) && p >= 1 && p >= |d| - 1
    ensures Aligned(d0, 1, d, score)
  {
    assert Seal(0);
    assert Aligned(d, p, d, score);
  }

  /** Saves a better fit: equalities without text are removed, and the pointer moves back past them. */
  method SaveFit(diffs: EditList, pointer: int, nx: Text, nt: Text, ny: Text) returns (p: int)
    requires 0 < pointer < |diffs.d| - 1 && nx != diffs.d[pointer - 1].text
    requires diffs.d[pointer - 1].op == Equal && diffs.d[pointer + 1].op == Equal
    requires Moved(diffs.d[pointer - 1].text, diffs.d[pointer].text, diffs.d[pointer + 1].text, nx, nt, ny)
    modifies diffs
    ensures SameTexts(diffs.d, old(diffs.d)) && (Solid(old(diffs.d)) ==> Solid(diffs.d))
    ensures diffs.d == Refitted(old(diffs.d), pointer, nx, nt, ny) && p == PlaceAfter(pointer, nx, ny) >= 0
    ensures |diffs.d| - p <= |old(diffs.d)| - pointer
  {
    ghost var pre, x, t, y, rest := Around(diffs.d, pointer);
    ghost var (e, f, h) := (IfText(Edit(x.op, nx)), [Edit(t.op, nt)], IfText(Edit(y.op, ny)));
    FitKeeps(diffs.d, pre, x, t, y, rest, pointer, nx, nt, ny);
    Regroup(pre, [x], [t], [y], rest);
    SaveEquality(diffs, pointer - 1, nx, pre, x, [t] + [y] + rest);
    Regroup(pre, e, [t], [y], rest);
    p := if nx == [] then pointer - 1 else pointer;
    SaveEdit(diffs, p, nt, pre + e, t, [y] + rest);
    Regroup(pre, e, f, [y], rest);
    SaveEquality(diffs, p + 1, ny, pre + e + f, y, rest);
    Regroup(pre, e, f, h, rest);
    p := if ny == [] then p - 1 else p;
  }

  lemma Regroup(pre: seq<Edit>, a: seq<Edit>, b: seq<Edit>, c: seq<Edit>, rest: seq<Edit>)
    ensures pre + a + (b + c + rest) == pre + a + b + (c + rest) == pre + a + b + c + rest == pre + (a + b + c) + rest
  {}

  lemma FitKeeps(d: seq<Edit>, pre: seq<Edit>, x: Edit, t: Edit, y: Edit, rest: seq<Edit>, p: nat, nx: Text, nt: Text, ny: Text)
    requires 0 < p < |d| - 1 && d[p - 1] == x && d[p] == t && d[p + 1] == y && d == pre + [x, t, y] + rest && nx != x.text
    requires x.op == Equal && y.op == Equal && Moved(x.text, t.text, y.text, nx, nt, ny)
    ensures var r := pre + (IfText(Edit(x.op, nx)) + [Edit(t.op, nt)] + IfText(Edit(y.op, ny))) + rest;
            SameTexts(r, d) && (Solid(d) ==> Solid(r))
    ensures nx != [] || ny != []
    ensures [x] + [t] + [y] == [x, t, y]
  {
    MovedTexts(x, t, y, nx, nt, ny);
    SomeText(x.text, y.text, nx, ny);
    var r := IfText(Edit(x.op, nx)) + [Edit(t.op, nt)] + IfText(Edit(y.op, ny));
    TextsConcat3(pre, r, rest);
    TextsConcat3(pre, [x, t, y], rest);
    if Solid(d) {
      SolidFit(x, t, y, nx, nt, ny, d, p);
      InTheMiddle(pre, r, [x, t, y], rest);
    }
  }

  /** Two equalities that change have some text, before and after. */
  lemma SomeText(x: Text, y: Text, nx: Text, ny: Text)
    requires nx + ny == x + y && nx != x
    ensures nx != [] || ny != []
  {
    assert |nx + ny| == |x + y|;
  }

  lemma SolidFit(x: Edit, t: Edit, y: Edit, nx: Text, nt: Text, ny: Text, d: seq<Edit>, p: nat)
    requires 0 < p < |d| - 1 && Solid(d) && x == d[p - 1] && t == d[p] && y == d[p + 1]
    requires x.op == Equal && y.op == Equal && Moved(x.text, t.text, y.text, nx, nt, ny)
    ensures Solid(IfText(Edit(x.op, nx)) + [Edit(t.op, nt)] + IfText(Edit(y.op, ny)))
  {
    assert |nx + ny| == |x.text + y.text| && |nx + nt + ny| == |x.text + t.text + y.text|;
  }

  /** `diff_cleanupSemanticLossless`, for any score: shifts single edits between equalities. */
  method CleanupSemanticLossless(diffs: EditList, score: (Text, Text) -> int)
    modifies diffs
    ensures SameTexts(diffs.d, old(diffs.d)) && (Solid(old(diffs.d)) ==> Solid(diffs.d))
    ensures Aligned(old(diffs.d), 1, diffs.d, score)
  {
    ghost var d0 := diffs.d;
    var pointer := 1;
    while pointer < |diffs.d| - 1
      invariant 1 <= pointer && SameTexts(diffs.d, d0) && (Solid(d0) ==> Solid(diffs.d)) && Onward(d0, diffs.d, pointer, score)
      decreases |diffs.d| - pointer
    {
      if diffs.d[pointer - 1].op == Equal && diffs.d[pointer + 1].op == Equal {
        var x, t, y := BestFit(diffs.d[pointer - 1].text, diffs.d[pointer].text, diffs.d[pointer + 1].text, score);
        OnwardMoved(d0, diffs.d, pointer, score, x, t, y);
        if diffs.d[pointer - 1].text != x {
          pointer := SaveFit(diffs, pointer, x, t, y);
        }
      } else {
        OnwardSkipped(d0, diffs.d, pointer, score);
      }
      pointer := pointer + 1;
    }
    OnwardEnds(d0, diffs.d, pointer, score);
  }

  // ---------------------------------------------------------------------------
  // Overlaps

  /** A deletion before an insertion, one of them of nothing. */
  ghost predicate EmptyPair(d: seq<Edit>, i: nat) {
    && i + 1 < |d| && d[i].op == Delete && d[i + 1].op == Insert
    && (d[i].text == [] || d[i + 1].text == [])
  }

  /** What a deletion and the insertion after it become, for the lengths of their two overlaps. */
  function Extracted(deletion: Text, insertion: Text, n1: nat, n2: nat): seq<Edit>
    requires n1 <= |deletion| && n1 <= |insertion| && n2 <= |deletion| && n2 <= |insertion|
  {
    if n1 >= n2 && (2 * n1 >= |deletion| || 2 * n1 >= |insertion|) then
      [Edit(Delete, deletion[..|deletion| - n1]), Edit(Equal, insertion[..n1]), Edit(Insert, insertion[n1..])]
    else if n1 < n2 && (2 * n2 >= |deletion| || 2 * n2 >= |insertion|) then
      [Edit(Insert, insertion[..|insertion| - n2]), Edit(Equal, deletion[..n2]), Edit(Delete, deletion[n2..])]
    else
      [Edit(Delete, deletion), Edit(Insert, insertion)]
  }

  /** The length of the longest overlap of the end of a with the start of b, of n characters at most. */
  ghost function OverlapWithin(a: Text, b: Text, n: nat): (r: nat)
    ensures r <= |a| && r <= |b|
  {
    if Overlap(a, b, n) then n else if n == 0 then 0 else OverlapWithin(a, b, n - 1)
  }

  ghost function OverlapLength(a: Text, b: Text): (r: nat)
    ensures r <= |a| && r <= |b|
  {
    OverlapWithin(a, b, |a|)
  }

  lemma {:induction false} LongestWithin(a: Text, b: Text, best: nat, n: nat)
    requires LongestOverlap(a, b, best) && best <= n
    ensures OverlapWithin(a, b, n) == best
    decreases n
  {
    if best < n { LongestWithin(a, b, best, n - 1); }
  }

  /** What a deletion and the insertion after it become. */
  ghost function PairExtracted(deletion: Text, insertion: Text): seq<Edit> {
    Extracted(deletion, insertion, OverlapLength(deletion, insertion), OverlapLength(insertion, deletion))
  }

  /** The list with all overlaps extracted, pair by pair from the front. */
  ghost function AllExtracted(d: seq<Edit>): seq<Edit>
    decreases |d|
  {
    if |d| < 2 then d
    else if d[0].op == Delete && d[1].op == Insert then PairExtracted(d[0].text, d[1].text) + AllExtracted(d[2..])
    else [d[0]] + AllExtracted(d[1..])
  }

  /** An overlap is extracted exactly if it is at least half as long as one of the two edits; of two, the longer
      one, or that of the end of the deletion. It is then the text between what is left of the edits. */
  lemma OverlapTaken(deletion: Text, insertion: Text)
    ensures var (n1, n2, r) := (OverlapLength(deletion, insertion), OverlapLength(insertion, deletion), PairExtracted(deletion, insertion));
            var n := if n1 >= n2 then n1 else n2;
            if 2 * n >= |deletion| || 2 * n >= |insertion|
            then |r| == 3 && r[1].op == Equal && |r[1].text| == n && |r[0].text| + |r[2].text| == |deletion| + |insertion| - 2 * n
                 && (r[0].op == Delete <==> n1 >= n2) && (r[2].op == Insert <==> n1 >= n2) && r[0].op != Equal && r[2].op != Equal
            else r == [Edit(Delete, deletion), Edit(Insert, insertion)]
  {}

  /** Extracting overlaps keeps the texts; the equality it makes is empty exactly if one of the two
      edits was. */
  lemma ExtractedTexts(deletion: Text, insertion: Text, n1: nat, n2: nat)
    requires LongestOverlap(deletion, insertion, n1) && LongestOverlap(insertion, deletion, n2)
    ensures SameTexts(Extracted(deletion, insertion, n1, n2), [Edit(Delete, deletion), Edit(Insert, insertion)])
    ensures Solid(Extracted(deletion, insertion, n1, n2)) <==> deletion != [] && insertion != []
  {
    TextsOf2(Edit(Delete, deletion), Edit(Insert, insertion));
    if n1 >= n2 && (2 * n1 >= |deletion| || 2 * n1 >= |insertion|) {
      Rejoined(deletion, insertion, n1);
      TextsOf3(Edit(Delete, deletion[..|deletion| - n1]), Edit(Equal, insertion[..n1]), Edit(Insert, insertion[n1..]));
      SolidMiddleOf3(Edit(Delete, deletion[..|deletion| - n1]), Edit(Equal, insertion[..n1]), Edit(Insert, insertion[n1..]));
    } else if n1 < n2 && (2 * n2 >= |deletion| || 2 * n2 >= |insertion|) {
      Rejoined(insertion, deletion, n2);
      TextsOf3(Edit(Insert, insertion[..|insertion| - n2]), Edit(Equal, deletion[..n2]), Edit(Delete, deletion[n2..]));
      SolidMiddleOf3(Edit(Insert, insertion[..|insertion| - n2]), Edit(Equal, deletion[..n2]), Edit(Delete, deletion[n2..]));
    }
  }

  lemma SolidMiddleOf3(e: Edit, f: Edit, h: Edit)
    requires e.op != Equal && f.op == Equal && h.op != Equal
    ensures Solid([e, f, h]) <==> f.text != []
  {
    assert [e, f, h][1] == f;
  }

  lemma Rejoined(a: Text, b: Text, n: nat)
    requires Overlap(a, b, n)
    ensures a[..|a| - n] + b[..n] == a && b[..n] + b[n..] == b
  {
    assert a == a[..|a| - n] + a[|a| - n..];
  }

  /** Looks for overlaps in one deletion and the insertion after it. */
  method ExtractOverlap(diffs: EditList, pointer: nat, ghost head: seq<Edit>, ghost x: Edit, ghost y: Edit, ghost rest: seq<Edit>)
      returns (next: nat, ghost r: seq<Edit>)
    requires diffs.d == head + [x, y] + rest && pointer == |head| + 1 && x.op == Delete && y.op == Insert
    modifies diffs
    ensures diffs.d == head + r + rest && next == |head| + |r| - 1 && |r| >= 2
    ensures SameTexts(r, [x, y]) && (Solid(r) <==> x.text != [] && y.text != []) && r == PairExtracted(x.text, y.text)
  {
    var deletion, insertion := diffs.d[pointer - 1].text, diffs.d[pointer].text;
    var n1 := CommonOverlap(deletion, insertion);
    var n2 := CommonOverlap(insertion, deletion);
    ExtractedTexts(deletion, insertion, n1, n2);
    LongestWithin(deletion, insertion, n1, |deletion|);
    LongestWithin(insertion, deletion, n2, |insertion|);
    var edits := Extracted(deletion, insertion, n1, n2);
    r := edits;
    PairReplaced(head, x, y, rest, edits);
    diffs.d := diffs.d[..pointer - 1] + edits + diffs.d[pointer + 1..];
    next := pointer + |edits| - 2;
  }

  lemma PairReplaced(head: seq<Edit>, x: Edit, y: Edit, rest: seq<Edit>, r: seq<Edit>)
    ensures var d := head + [x, y] + rest;
            d[|head|] == x && d[|head| + 1] == y && d[..|head|] + r + d[|head| + 2..] == head + r + rest
  {}

  /** The overlap stage after q entries of d0: head stands for them, pointer - 1 is the entry after it. */
  ghost predicate Extracting(d: seq<Edit>, d0: seq<Edit>, head: seq<Edit>, q: nat, pointer: nat) {
    forall z: nat {:trigger Unroll(z)} :: Unroll(z) ==> Underway(d, d0, head, q, pointer)
  }

  ghost predicate Underway(d: seq<Edit>, d0: seq<Edit>, head: seq<Edit>, q: nat, pointer: nat) {
    && q <= |d0| && d == head + d0[q..] && pointer == |head| + 1 && SameTexts(head, d0[..q])
    && (Solid(d0) ==> (Solid(head) <==> NoEmptyPair(d0, q)))
  }

  ghost predicate NoEmptyPair(d: seq<Edit>, q: nat) {
    forall i: nat {:trigger EmptyPair(d, i)} :: i < q ==> !EmptyPair(d, i)
  }

  lemma SkipEntry(d: seq<Edit>, d0: seq<Edit>, head: seq<Edit>, q: nat, pointer: nat)
    requires Extracting(d, d0, head, q, pointer) && q < |d0| && !(q + 1 < |d0| && d0[q].op == Delete && d0[q + 1].op == Insert)
    ensures Extracting(d, d0, head + [d0[q]], q + 1, pointer + 1)
  {
    assert Unroll(0);
    assert d0[q..] == [d0[q]] + d0[q + 1..] && d0[..q + 1] == d0[..q] + [d0[q]];
    assert head + ([d0[q]] + d0[q + 1..]) == head + [d0[q]] + d0[q + 1..];
    TextsSnoc(head, d0[q]);
    TextsSnoc(d0[..q], d0[q]);
    if Solid(d0) { SolidAppend(head, [d0[q]]); }
  }

  /** After q entries, head is what has become of them. */
  ghost predicate UpTo(d0: seq<Edit>, head: seq<Edit>, q: nat) {
    forall z: nat {:trigger Seal(z)} :: Seal(z) ==> q <= |d0| && head + AllExtracted(d0[q..]) == AllExtracted(d0)
  }

  lemma UpToStart(d0: seq<Edit>)
    ensures UpTo(d0, [], 0)
  {
    assert d0[0..] == d0 && [] + AllExtracted(d0) == AllExtracted(d0);
  }

  lemma UpToSkip(d0: seq<Edit>, head: seq<Edit>, q: nat)
    requires q < |d0| && !(q + 1 < |d0| && d0[q].op == Delete && d0[q + 1].op == Insert) && UpTo(d0, head, q)
    ensures UpTo(d0, head + [d0[q]], q + 1)
  {
    assert Seal(0);
    assert d0[q..][1..] == d0[q + 1..];
    Reassociate(head, [d0[q]], AllExtracted(d0[q + 1..]));
  }

  lemma UpToPair(d0: seq<Edit>, head: seq<Edit>, q: nat)
    requires q + 1 < |d0| && d0[q].op == Delete && d0[q + 1].op == Insert && UpTo(d0, head, q)
    ensures UpTo(d0, head + PairExtracted(d0[q].text, d0[q + 1].text), q + 2)
  {
    assert Seal(0);
    assert d0[q..][2..] == d0[q + 2..];
    Reassociate(head, PairExtracted(d0[q].text, d0[q + 1].text), AllExtracted(d0[q + 2..]));
  }

  /** The entries at the pointer. */
  lemma AtPair(d: seq<Edit>, d0: seq<Edit>, head: seq<Edit>, q: nat, pointer: nat)
    requires Extracting(d, d0, head, q, pointer) && 1 <= pointer < |d|
    ensures q + 1 < |d0| && d[pointer - 1] == d0[q] && d[pointer] == d0[q + 1] && pointer == |head| + 1
    ensures d == head + [d0[q], d0[q + 1]] + d0[q + 2..]
  {
    assert Unroll(0);
    TakePair(d0, q);
    Reassociate(head, [d0[q], d0[q + 1]], d0[q + 2..]);
  }

  lemma ExtractingStarts(d: seq<Edit>)
    ensures Extracting(d, d, [], 0, 1)
  {
    assert d[0..] == d && [] + d == d && d[..0] == [];
  }

  lemma UpToEnd(d: seq<Edit>, d0: seq<Edit>, head: seq<Edit>, q: nat, pointer: nat)
    requires Extracting(d, d0, head, q, pointer) && pointer >= |d| && UpTo(d0, head, q)
    ensures d == AllExtracted(d0)
  {
    assert Unroll(0);
    assert Seal(0);
  }

  lemma SolidAppend(a: seq<Edit>, b: seq<Edit>)
    ensures Solid(a + b) <==> Solid(a) && Solid(b)
  {
    if Solid(a + b) {
      assert forall i :: 0 <= i < |a| ==> (a + b)[i] == a[i];
      assert forall i :: 0 <= i < |b| ==> (a + b)[|a| + i] == b[i];
    }
  }

  lemma TakePair(d0: seq<Edit>, q: nat)
    requires q + 1 < |d0|
    ensures d0[q..] == [d0[q], d0[q + 1]] + d0[q + 2..] && d0[..q + 2] == d0[..q] + [d0[q], d0[q + 1]]
  {}

  lemma PairDone(d: seq<Edit>, d0: seq<Edit>, head: seq<Edit>, q: nat, pointer: nat, r: seq<Edit>)
    requires Extracting(d, d0, head, q, pointer) && q + 1 < |d0| && d0[q].op == Delete && d0[q + 1].op == Insert
    requires SameTexts(r, [d0[q], d0[q + 1]]) && (Solid(r) <==> d0[q].text != [] && d0[q + 1].text != [])
    ensures Extracting(head + r + d0[q + 2..], d0, head + r, q + 2, |head| + |r| + 1)
  {
    assert Unroll(0);
    TakePair(d0, q);
    TextsConcat(head, r);
    TextsConcat(d0[..q], [d0[q], d0[q + 1]]);
    SolidAppend(head, r);
    assert NoEmptyPair(d0, q + 2) <==> NoEmptyPair(d0, q) && !EmptyPair(d0, q) by {
      assert !EmptyPair(d0, q + 1);
    }
  }

  lemma StageDone(d: seq<Edit>, d0: seq<Edit>, head: seq<Edit>, q: nat, pointer: nat)
    requires Extracting(d, d0, head, q, pointer) && pointer >= |d|
    ensures SameTexts(d, d0) && (Solid(d0) ==> (Solid(d) <==> NoEmptyPair(d0, |d0|)))
  {
    assert Unroll(0);
    assert d0 == d0[..q] + d0[q..];
    TextsConcat(head, d0[q..]);
    TextsConcat(d0[..q], d0[q..]);
    SolidAppend(head, d0[q..]);
  }

  /** The last stage of `diff_cleanupSemantic`. */
  method ExtractOverlaps(diffs: EditList)
    modifies diffs
    ensures SameTexts(diffs.d, old(diffs.d))
    ensures Solid(old(diffs.d)) ==> (Solid(diffs.d) <==> NoEmptyPair(old(diffs.d), |old(diffs.d)|))
    ensures diffs.d == AllExtracted(old(diffs.d))
  {
    ghost var d0, head := diffs.d, [];
    ghost var q: nat := 0;
    var pointer := 1;
    UpToStart(d0);
    ExtractingStarts(d0);
    while pointer < |diffs.d|
      invariant 1 <= pointer && Extracting(diffs.d, d0, head, q, pointer) && UpTo(d0, head, q)
      decreases |d0| - q
    {
      AtPair(diffs.d, d0, head, q, pointer);
      if diffs.d[pointer - 1].op == Delete && diffs.d[pointer].op == Insert {
        ghost var d, p, r := diffs.d, pointer, [];
        pointer, r := ExtractOverlap(diffs, pointer, head, d0[q], d0[q + 1], d0[q + 2..]);
        PairDone(d, d0, head, q, p, r);
        UpToPair(d0, head, q);
        pointer := pointer + 1;
        head, q := head + r, q + 2;
      } else {
        SkipEntry(diffs.d, d0, head, q, pointer);
        UpToSkip(d0, head, q);
        head, q := head + [d0[q]], q + 1;
      }
      pointer := pointer + 1;
    }
    StageDone(diffs.d, d0, head, q, pointer);
    UpToEnd(diffs.d, d0, head, q, pointer);
  }

  lemma Reassociate(a: seq<Edit>, b: seq<Edit>, c: seq<Edit>)
    ensures a + (b + c) == a + b + c
  {}

  /** `diff_cleanupSemantic`: eliminates outweighed equalities, and if there are any merges what is left; then
      moves edits to where they fit best, and extracts overlaps. Only the last stage can leave an equality without
      text. */
  method CleanupSemantic(diffs: EditList, score: (Text, Text) -> int) returns (ghost merged: seq<Edit>, ghost aligned: seq<Edit>)
    modifies diffs
    ensures Solid(old(diffs.d)) ==> SameTexts(diffs.d, old(diffs.d))
    ensures if Settled(old(diffs.d), None) then merged == old(diffs.d) else Chain(merged) && NoShift(merged)
    ensures Aligned(merged, 1, aligned, score) && diffs.d == AllExtracted(aligned)
  {
    var changes := EliminateEqualities(diffs);
    if changes { CleanupMerge.CleanupMerge(diffs); }
    merged := diffs.d;
    CleanupSemanticLossless(diffs, score);
    aligned := diffs.d;
    ExtractOverlaps(diffs);
  }
}
