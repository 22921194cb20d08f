/** `diff_cleanupEfficiency` and the first stage of `diff_cleanupSemantic`: both turn small
    equalities into a deletion and an insertion, remember candidate equalities on a stack of
    indices, and jump back after each change. */
module Cleanups {
  import opened Types
  import opened Edits
  import opened CleanupMerge
  import opened Sealing

  /** The stack holds indices of equalities, increasing, all below bound. */
  ghost predicate StackOk(d: seq<Edit>, stack: seq<nat>, bound: int) {
    stack == [] ||
    var top := stack[|stack| - 1];
    top < bound && top < |d| && d[top].op == Equal && StackOk(d, stack[..|stack| - 1], top)
  }

  /** The saved equality is the text at the top of the stack. */
  ghost predicate Saved(d: seq<Edit>, stack: seq<nat>, last: Option<Text>) {
    last.Some? ==> stack != [] && stack[|stack| - 1] < |d| && last.value == d[stack[|stack| - 1]].text
  }

  /** The equality at e becomes a deletion and an insertion of its text. */
  function SplitEquality(d: seq<Edit>, e: nat): seq<Edit>
    requires e < |d|
  {
    d[..e] + [Edit(Delete, d[e].text), Edit(Insert, d[e].text)] + d[e + 1..]
  }

  lemma {:induction false} StackKept(d: seq<Edit>, r: seq<Edit>, stack: seq<nat>, bound: nat)
    requires StackOk(d, stack, bound) && bound <= |d| && bound <= |r| && d[..bound] == r[..bound]
    ensures StackOk(r, stack, bound)
  {
    if stack != [] {
      var top := stack[|stack| - 1];
      assert d[..bound][top] == r[..bound][top];
      assert d[..top] == d[..bound][..top] && r[..top] == r[..bound][..top];
      StackKept(d, r, stack[..|stack| - 1], top);
    }
  }

  lemma StackBound(d: seq<Edit>, stack: seq<nat>, b: int, c: int)
    requires StackOk(d, stack, b) && b <= c
    ensures StackOk(d, stack, c)
  {}

  lemma Push(d: seq<Edit>, stack: seq<nat>, p: nat)
    requires StackOk(d, stack, p) && p < |d| && d[p].op == Equal
    ensures StackOk(d, stack + [p], p + 1)
  {
    assert (stack + [p])[..|stack|] == stack;
  }

  /** Splitting an equality keeps both texts and removes one equality. */
  lemma SplitTexts(d: seq<Edit>, e: nat)
    requires e < |d| && d[e].op == Equal
    ensures SameTexts(SplitEquality(d, e), d) && Equalities(SplitEquality(d, e)) == Equalities(d) - 1
    ensures Solid(d) ==> Solid(SplitEquality(d, e))
  {
    CutAt(d, e);
    SplitParts(d[..e], d[e], d[e + 1..]);
  }

  lemma CutAt(d: seq<Edit>, e: nat)
    requires e < |d|
    ensures d == d[..e] + [d[e]] + d[e + 1..]
  {}

  lemma SplitParts(pre: seq<Edit>, x: Edit, rest: seq<Edit>)
    requires x.op == Equal
    ensures var r := pre + [Edit(Delete, x.text), Edit(Insert, x.text)] + rest;
            && SameTexts(r, pre + [x] + rest) && Equalities(r) == Equalities(pre + [x] + rest) - 1
            && (Solid(pre + [x] + rest) ==> Solid(r))
  {
    var both := [Edit(Delete, x.text), Edit(Insert, x.text)];
    SplitOne(x);
    InTheMiddle(pre, both, [x], rest);
    EqualitiesConcat3(pre, both, rest);
    EqualitiesConcat3(pre, [x], rest);
  }

  lemma SplitOne(x: Edit)
    requires x.op == Equal
    ensures var both := [Edit(Delete, x.text), Edit(Insert, x.text)];
            SameTexts(both, [x]) && Equalities(both) == 0 && Equalities([x]) == 1
  {
    var y, z := Edit(Delete, x.text), Edit(Insert, x.text);
    TextsOf1(x);
    TextsOf2(y, z);
    EqualitiesSnoc([y], z);
    EqualitiesSnoc([], y);
    EqualitiesSnoc([], x);
    assert [y] + [z] == [y, z] && [] + [y] == [y] && [] + [x] == [x];
  }

  lemma EqualitiesSnoc(d: seq<Edit>, e: Edit)
    ensures Equalities(d + [e]) == Equalities(d) + if e.op == Equal then 1 else 0
  {
    assert (d + [e])[..|d|] == d;
  }

  lemma EqualitiesConcat3(a: seq<Edit>, b: seq<Edit>, c: seq<Edit>)
    ensures Equalities(a + b + c) == Equalities(a) + Equalities(b) + Equalities(c)
  {
    EqualitiesConcat(a + b, c);
    EqualitiesConcat(a, b);
  }

  // ---------------------------------------------------------------------------
  // Which equalities are eliminated

  ghost predicate NoEquality(d: seq<Edit>, a: int, b: int) {
    0 <= a && b <= |d| && forall i :: a <= i < b ==> d[i].op != Equal
  }

  /** How much the edits right before place p insert, and delete. */
  ghost function Inserted(d: seq<Edit>, p: nat): nat
    requires p <= |d|
  {
    if p == 0 || d[p - 1].op == Equal then 0 else Inserted(d, p - 1) + if d[p - 1].op == Insert then |d[p - 1].text| else 0
  }

  ghost function Deleted(d: seq<Edit>, p: nat): nat
    requires p <= |d|
  {
    if p == 0 || d[p - 1].op == Equal then 0 else Deleted(d, p - 1) + if d[p - 1].op == Delete then |d[p - 1].text| else 0
  }

  /** Among the edits right before place p is one of this kind. */
  ghost predicate Has(d: seq<Edit>, p: nat, op: Op)
    requires p <= |d|
  {
    p > 0 && d[p - 1].op != Equal && (d[p - 1].op == op || Has(d, p - 1, op))
  }

  /** The equality at e has text, and p is a place behind it and before the next one. */
  ghost predicate Behind(d: seq<Edit>, e: nat, p: nat) {
    e < p <= |d| && d[e].op == Equal && d[e].text != [] && NoEquality(d, e + 1, p)
  }

  /** The equality is no longer than the edits before it, and those behind it up to place p. */
  ghost predicate Outweighed(d: seq<Edit>, e: nat, p: nat) {
    && Behind(d, e, p)
    && |d[e].text| <= Max(Inserted(d, e), Deleted(d, e)) && |d[e].text| <= Max(Inserted(d, p), Deleted(d, p))
  }

  /** One of the five patterns: edits of both kinds on both sides, or all but one of the four if the text is
      shorter than half the cost. */
  ghost predicate FivePatterns(preIns: bool, preDel: bool, postIns: bool, postDel: bool, n: nat, editCost: int) {
    || (preIns && preDel && postIns && postDel)
    || (2 * n < editCost &&
        ((preIns && preDel && postIns != postDel) || (preIns != preDel && postIns && postDel)))
  }

  /** The test for them. */
  predicate Pattern(preIns: bool, preDel: bool, postIns: bool, postDel: bool, n: nat, editCost: int) {
    || (preIns && preDel && postIns && postDel)
    || (2 * n < editCost && Count(preIns) + Count(preDel) + Count(postIns) + Count(postDel) == 3)
  }

  /** The equality is short and has, with the edits up to place p, one of the five patterns around it. */
  ghost predicate Costly(d: seq<Edit>, e: nat, p: nat, editCost: int) {
    && Behind(d, e, p) && |d[e].text| < editCost
    && FivePatterns(Has(d, e, Insert), Has(d, e, Delete), Has(d, p, Insert), Has(d, p, Delete), |d[e].text|, editCost)
  }

  /** Equalities that one clean-up or the other eliminates; a cost says which. */
  ghost predicate Eliminable(d: seq<Edit>, e: nat, p: nat, editCost: Option<int>) {
    match editCost
    case Some(c) => Costly(d, e, p, c)
    case None => Outweighed(d, e, p)
  }

  ghost predicate NoneUpTo(d: seq<Edit>, q: int, editCost: Option<int>) {
    forall e: nat, p: nat {:trigger Eliminable(d, e, p, editCost)} :: p <= q ==> !Eliminable(d, e, p, editCost)
  }

  /** Nothing is left to eliminate. */
  ghost predicate Settled(d: seq<Edit>, editCost: Option<int>) {
    forall e: nat, p: nat {:trigger Eliminable(d, e, p, editCost)} :: !Eliminable(d, e, p, editCost)
  }

  /** The list r comes from d by splitting equalities that are to be eliminated, one after another. */
  ghost predicate Eliminated(d: seq<Edit>, r: seq<Edit>, editCost: Option<int>, n: nat)
    decreases n
  {
    if n == 0 then r == d
    else exists m, e: nat, p: nat {:trigger OneSplit(m, r, e, p, editCost)} :: OneSplit(m, r, e, p, editCost) && Eliminated(d, m, editCost, n - 1)
  }

  ghost predicate OneSplit(m: seq<Edit>, r: seq<Edit>, e: nat, p: nat, editCost: Option<int>) {
    Eliminable(m, e, p, editCost) && e < |m| && r == SplitEquality(m, e)
  }

  /** What a clean-up does to a list: it eliminates what is to be eliminated and nothing else. */
  ghost predicate Cleaned(d: seq<Edit>, r: seq<Edit>, editCost: Option<int>) {
    Settled(r, editCost) && exists n: nat :: Eliminated(d, r, editCost, n)
  }

  lemma {:induction false} RunPrefix(d: seq<Edit>, r: seq<Edit>, p: nat)
    requires p <= |d| && p <= |r| && d[..p] == r[..p]
    ensures Inserted(d, p) == Inserted(r, p) && Deleted(d, p) == Deleted(r, p)
    ensures Has(d, p, Insert) == Has(r, p, Insert) && Has(d, p, Delete) == Has(r, p, Delete)
    decreases p
  {
    if p > 0 {
      assert d[..p][p - 1] == r[..p][p - 1] && d[..p - 1] == d[..p][..p - 1] && r[..p - 1] == r[..p][..p - 1];
      RunPrefix(d, r, p - 1);
    }
  }

  /** Only what is before place p matters there. */
  lemma EliminablePrefix(d: seq<Edit>, r: seq<Edit>, e: nat, p: nat, editCost: Option<int>)
    requires p <= |d| && p <= |r| && d[..p] == r[..p]
    ensures Eliminable(d, e, p, editCost) == Eliminable(r, e, p, editCost)
  {
    if e < p {
      assert forall i :: 0 <= i < p ==> d[i] == d[..p][i] && r[i] == r[..p][i];
      assert d[..e] == d[..p][..e] && r[..e] == r[..p][..e];
      RunPrefix(d, r, p);
      RunPrefix(d, r, e);
    }
  }

  /** A split at e changes nothing before it. */
  lemma SplitUpTo(d: seq<Edit>, e: nat, q: int, editCost: Option<int>)
    requires e < |d| && NoneUpTo(d, q, editCost) && e <= q
    ensures NoneUpTo(SplitEquality(d, e), e, editCost)
  {
    var r := SplitEquality(d, e);
    forall x: nat, p: nat {:trigger Eliminable(r, x, p, editCost)} | p <= e ensures !Eliminable(r, x, p, editCost) {
      assert d[..p] == r[..p];
      EliminablePrefix(d, r, x, p, editCost);
    }
  }

  /** At an equality, no other is behind which the place after it is. */
  lemma PastEquality(d: seq<Edit>, q: nat, editCost: Option<int>)
    requires NoneUpTo(d, q, editCost) && q < |d| && d[q].op == Equal
    ensures NoneUpTo(d, q + 1, editCost)
  {
    var next := q + 1;
    assert Inserted(d, next) == 0 && Deleted(d, next) == 0 && !Has(d, next, Insert) && !Has(d, next, Delete);
    forall e: nat ensures !Eliminable(d, e, next, editCost) {
      if Behind(d, e, next) { OneLast(d, e, q, next); }
    }
  }

  lemma AllPlaces(d: seq<Edit>, q: int, editCost: Option<int>)
    requires NoneUpTo(d, q, editCost) && q >= |d|
    ensures Settled(d, editCost)
  {}

  /** In the loops. */
  ghost predicate Reached(d0: seq<Edit>, d: seq<Edit>, editCost: Option<int>) {
    forall z: nat {:trigger Unroll(z)} :: Unroll(z) ==> exists n: nat :: Eliminated(d0, d, editCost, n)
  }

  lemma NothingSplit(d: seq<Edit>, editCost: Option<int>)
    ensures Reached(d, d, editCost)
  {
    assert Eliminated(d, d, editCost, 0);
  }

  lemma SplitMore(d0: seq<Edit>, d: seq<Edit>, e: nat, p: nat, editCost: Option<int>)
    requires Reached(d0, d, editCost) && Eliminable(d, e, p, editCost)
    ensures e < |d| && Reached(d0, SplitEquality(d, e), editCost)
  {
    assert Unroll(0);
    var n: nat :| Eliminated(d0, d, editCost, n);
    assert OneSplit(d, SplitEquality(d, e), e, p, editCost);
    assert Eliminated(d0, SplitEquality(d, e), editCost, n + 1);
  }

  /** What the loops keep of the list d0. */
  ghost predicate Course(d0: seq<Edit>, d: seq<Edit>, editCost: Option<int>, changes: bool) {
    forall z: nat {:trigger Unwrap(z)} :: Unwrap(z) ==>
      && SameTexts(d, d0) && (Solid(d0) ==> Solid(d)) && Reached(d0, d, editCost)
      && if changes then !Settled(d0, editCost) else d == d0
  }

  lemma CourseStarts(d: seq<Edit>, editCost: Option<int>)
    ensures Course(d, d, editCost, false)
  {
    NothingSplit(d, editCost);
  }

  lemma CourseReached(d0: seq<Edit>, d: seq<Edit>, editCost: Option<int>, changes: bool)
    requires Course(d0, d, editCost, changes)
    ensures Reached(d0, d, editCost)
  {
    assert Unwrap(0);
  }

  lemma CourseGoesOn(d0: seq<Edit>, d: seq<Edit>, r: seq<Edit>, editCost: Option<int>, changes: bool)
    requires Course(d0, d, editCost, changes) && SameTexts(r, d) && (Solid(d) ==> Solid(r)) && Reached(d0, r, editCost)
    requires !Settled(d, editCost)
    ensures Course(d0, r, editCost, true)
  {
    assert Unwrap(0);
  }

  lemma CourseEnds(d0: seq<Edit>, d: seq<Edit>, editCost: Option<int>, changes: bool)
    requires Course(d0, d, editCost, changes) && Settled(d, editCost)
    ensures SameTexts(d, d0) && (Solid(d0) ==> Solid(d)) && Cleaned(d0, d, editCost)
    ensures (changes <==> !Settled(d0, editCost)) && (!changes ==> d == d0)
  {
    assert Unwrap(0);
    AllDone(d0, d, editCost);
  }

  lemma AllDone(d0: seq<Edit>, d: seq<Edit>, editCost: Option<int>)
    requires Reached(d0, d, editCost) && Settled(d, editCost)
    ensures Cleaned(d0, d, editCost)
  {
    assert Unroll(0);
  }

  // ---------------------------------------------------------------------------

  /** Splits the equality at the top of the stack and pops it. */
  method SplitTop(diffs: EditList, stack: seq<nat>, last: Text, ghost pointer: nat) returns (below: seq<nat>)
    requires stack != [] && StackOk(diffs.d, stack, pointer) && pointer < |diffs.d| && Saved(diffs.d, stack, Some(last))
    modifies diffs
    ensures SameTexts(diffs.d, old(diffs.d)) && (Solid(old(diffs.d)) ==> Solid(diffs.d))
    ensures Equalities(diffs.d) < Equalities(old(diffs.d)) && |diffs.d| == |old(diffs.d)| + 1
    ensures below == stack[..|stack| - 1] && StackOk(diffs.d, below, pointer)
    ensures var top := stack[|stack| - 1];
            top < |old(diffs.d)| && diffs.d == SplitEquality(old(diffs.d), top) && StackOk(diffs.d, below, top)
  {
    var top := stack[|stack| - 1];
    ghost var d := diffs.d;
    diffs.d := diffs.d[..top] + [Edit(Delete, last)] + diffs.d[top..];
    diffs.d := diffs.d[top + 1 := Edit(Insert, diffs.d[top + 1].text)];
    assert diffs.d == SplitEquality(d, top);
    SplitTexts(d, top);
    below := stack[..|stack| - 1];
    StackKept(d, diffs.d, below, top);
    StackBound(diffs.d, below, top, pointer);
  }

  /** Pops one more index and goes back to the one below it, or to before the list. */
  method GoBack(ghost d: seq<Edit>, stack: seq<nat>, ghost pointer: nat) returns (below: seq<nat>, back: int)
    requires StackOk(d, stack, pointer) && pointer < |d|
    ensures -1 <= back < |d| && StackOk(d, below, back + 1)
    ensures below == (if stack == [] then [] else stack[..|stack| - 1]) && back == (if below == [] then -1 else below[|below| - 1])
  {
    below := if |stack| > 0 then stack[..|stack| - 1] else stack;
    back := if |below| > 0 then below[|below| - 1] else -1;
  }

  /** `diff_cleanupEfficiency`: eliminates short equalities until none of the patterns is left, and cleans up
      if there were any. */
  method CleanupEfficiency(diffs: EditList, editCost: int) returns (ghost changes: bool)
    modifies diffs
    ensures Solid(old(diffs.d)) ==> SameTexts(diffs.d, old(diffs.d)) && Solid(diffs.d)
    ensures changes <==> !Settled(old(diffs.d), Some(editCost))
    ensures if changes then Chain(diffs.d) && NoShift(diffs.d) else diffs.d == old(diffs.d)
  {
    var changed := EliminateShort(diffs, editCost);
    changes := changed;
    if changed { CleanupMerge.CleanupMerge(diffs); }
  }

  /** The state of the scan for short equalities. */
  ghost predicate Scanning(d: seq<Edit>, equalities: seq<nat>, last: Option<Text>, pointer: int, limit: int,
                           preIns: bool, preDel: bool, postIns: bool, postDel: bool, editCost: int) {
    && 0 <= pointer <= |d|
    && forall z: nat {:trigger Seal(z)} :: Seal(z) ==> Looking(d, equalities, last, pointer, limit, preIns, preDel, postIns, postDel, editCost)
  }

  ghost predicate Looking(d: seq<Edit>, equalities: seq<nat>, last: Option<Text>, pointer: int, limit: int,
                          preIns: bool, preDel: bool, postIns: bool, postDel: bool, editCost: int) {
    && 0 <= pointer <= limit <= |d| && StackOk(d, equalities, pointer) && Saved(d, equalities, last)
    && NoneUpTo(d, limit, Some(editCost))
    && postIns == Has(d, pointer, Insert) && postDel == Has(d, pointer, Delete)
    && (last.Some? ==> Candidate(d, equalities[|equalities| - 1], pointer, preIns, preDel, editCost))
    && (last.None? ==> Harmless(d, pointer, limit, editCost))
  }

  /** The equality at e is the last one before the pointer, and short, with edits before it. */
  ghost predicate Candidate(d: seq<Edit>, e: nat, pointer: int, preIns: bool, preDel: bool, editCost: int) {
    && e < pointer <= |d| && d[e].op == Equal && NoEquality(d, e + 1, pointer) && |d[e].text| < editCost
    && preIns == Has(d, e, Insert) && preDel == Has(d, e, Delete) && (preIns || preDel)
  }

  /** The last equality before the pointer will not be eliminated as the scan goes on: there is another one
      before the limit; or it is too long, or has no edits before it; or there are edits of both kinds behind it. */
  ghost predicate Harmless(d: seq<Edit>, pointer: int, limit: int, editCost: int)
    requires 0 <= pointer <= limit <= |d|
  {
    || (exists j :: pointer <= j < limit && d[j].op == Equal)
    || (Has(d, pointer, Insert) && Has(d, pointer, Delete))
    || forall e: nat {:trigger d[e]} :: e < pointer && d[e].op == Equal && NoEquality(d, e + 1, pointer) ==>
         |d[e].text| >= editCost || (!Has(d, e, Insert) && !Has(d, e, Delete))
  }

  /** Eliminates the candidate at the top of the stack, and says where the scan goes on. */
  method SplitShort(diffs: EditList, equalities: seq<nat>, last: Text, pointer: nat, ghost limit: int, preIns: bool, preDel: bool,
                    postIns: bool, postDel: bool, editCost: int, ghost d0: seq<Edit>, ghost postIns0: bool, ghost postDel0: bool)
      returns (stack: seq<nat>, at: int, postIns': bool, postDel': bool, ghost next: nat)
    requires pointer < |diffs.d| && diffs.d[pointer].op != Equal && last != []
    requires Scanning(diffs.d, equalities, Some(last), pointer, limit, preIns, preDel, postIns0, postDel0, editCost)
    requires postIns == (postIns0 || diffs.d[pointer].op == Insert) && postDel == (postDel0 || diffs.d[pointer].op == Delete)
    requires Pattern(preIns, preDel, postIns, postDel, |last|, editCost)
    requires Reached(d0, diffs.d, Some(editCost))
    modifies diffs
    ensures SameTexts(diffs.d, old(diffs.d)) && (Solid(old(diffs.d)) ==> Solid(diffs.d))
    ensures Equalities(diffs.d) < Equalities(old(diffs.d)) && !Settled(old(diffs.d), Some(editCost))
    ensures Scanning(diffs.d, stack, None, at + 1, next, preIns, preDel, postIns', postDel', editCost)
    ensures Reached(d0, diffs.d, Some(editCost))
  {
    ghost var d := diffs.d;
    ghost var top := ShortAtTop(d0, d, equalities, last, pointer, limit, preIns, preDel, postIns0, postDel0, editCost, postIns, postDel);
    stack := SplitTop(diffs, equalities, last, pointer);
    if preIns && preDel {
      next := BothKinds(d, top, pointer, preIns, preDel, editCost);
      stack, at, postIns', postDel' := [], pointer, true, true;
    } else {
      ghost var popped := stack;
      stack, at := GoBack(diffs.d, stack, pointer);
      next := WentBack(d, diffs.d, top, pointer, popped, stack, at, preIns, preDel, editCost);
      postIns', postDel' := false, false;
    }
  }

  /** Upon an equality. */
  method AtEquality(diffs: EditList, equalities: seq<nat>, last: Option<Text>, pointer: nat, ghost limit: int, preIns: bool, preDel: bool,
                    postIns: bool, postDel: bool, editCost: int)
      returns (stack: seq<nat>, last': Option<Text>, preIns': bool, preDel': bool, ghost next: int)
    requires Scanning(diffs.d, equalities, last, pointer, limit, preIns, preDel, postIns, postDel, editCost)
    requires pointer < |diffs.d| && diffs.d[pointer].op == Equal
    ensures Scanning(diffs.d, stack, last', pointer + 1, next, preIns', preDel', false, false, editCost)
  {
    next := AtShort(diffs.d, equalities, last, pointer, limit, preIns, preDel, postIns, postDel, editCost);
    if |diffs.d[pointer].text| < editCost && (postIns || postDel) {
      stack, last', preIns', preDel' := equalities + [pointer], Some(diffs.d[pointer].text), postIns, postDel;
    } else {
      stack, last', preIns', preDel' := [], None, preIns, preDel;
    }
  }

  /** Upon an insertion or a deletion. */
  method AtEdit(diffs: EditList, equalities: seq<nat>, last: Option<Text>, pointer: nat, ghost limit: int, preIns: bool, preDel: bool,
                postIns: bool, postDel: bool, editCost: int, ghost d0: seq<Edit>, ghost changes: bool)
      returns (split: bool, stack: seq<nat>, last': Option<Text>, at: int, postIns': bool, postDel': bool, ghost next: int)
    requires pointer < |diffs.d| && diffs.d[pointer].op != Equal && Course(d0, diffs.d, Some(editCost), changes)
    requires Scanning(diffs.d, equalities, last, pointer, limit, preIns, preDel, postIns, postDel, editCost)
    modifies diffs
    ensures Scanning(diffs.d, stack, last', at + 1, next, preIns, preDel, postIns', postDel', editCost)
    ensures Course(d0, diffs.d, Some(editCost), changes || split)
    ensures split ==> Equalities(diffs.d) < Equalities(old(diffs.d))
    ensures !split ==> diffs.d == old(diffs.d) && at == pointer
  {
    postIns', postDel' := postIns, postDel;
    if diffs.d[pointer].op == Delete { postDel' := true; } else { postIns' := true; }
    if last.Some? && last.value != [] && Pattern(preIns, preDel, postIns', postDel', |last.value|, editCost) {
      ghost var d := diffs.d;
      CourseReached(d0, d, Some(editCost), changes);
      stack, at, postIns', postDel', next :=
        SplitShort(diffs, equalities, last.value, pointer, limit, preIns, preDel, postIns', postDel', editCost, d0, postIns, postDel);
      CourseGoesOn(d0, d, diffs.d, Some(editCost), changes);
      split, last' := true, None;
    } else {
      next := OverEdit(diffs.d, equalities, last, pointer, limit, preIns, preDel, postIns, postDel, editCost, postIns', postDel');
      split, stack, last', at := false, equalities, last, pointer;
    }
  }

  /** The loop of `diff_cleanupEfficiency`. */
  method EliminateShort(diffs: EditList, editCost: int) returns (changes: bool)
    modifies diffs
    ensures SameTexts(diffs.d, old(diffs.d)) && (Solid(old(diffs.d)) ==> Solid(diffs.d))
    ensures Cleaned(old(diffs.d), diffs.d, Some(editCost))
    ensures changes <==> !Settled(old(diffs.d), Some(editCost))
    ensures !changes ==> diffs.d == old(diffs.d)
  {
    ghost var d0, limit: int := diffs.d, 0;
    changes := false;
    var equalities: seq<nat> := [];
    var last: Option<Text> := None;
    var pointer := 0;
    var preIns, preDel, postIns, postDel := false, false, false, false;
    CourseStarts(d0, Some(editCost));
    while pointer < |diffs.d|
      invariant Scanning(diffs.d, equalities, last, pointer, limit, preIns, preDel, postIns, postDel, editCost)
      invariant Course(d0, diffs.d, Some(editCost), changes)
      decreases Equalities(diffs.d), |diffs.d| - pointer
    {
      if diffs.d[pointer].op == Equal {
        equalities, last, preIns, preDel, limit :=
          AtEquality(diffs, equalities, last, pointer, limit, preIns, preDel, postIns, postDel, editCost);
        postIns, postDel := false, false;
      } else {
        var split;
        split, equalities, last, pointer, postIns, postDel, limit :=
          AtEdit(diffs, equalities, last, pointer, limit, preIns, preDel, postIns, postDel, editCost, d0, changes);
        changes := changes || split;
      }
      pointer := pointer + 1;
    }
    ScanDone(diffs.d, equalities, last, pointer, limit, preIns, preDel, postIns, postDel, editCost);
    CourseEnds(d0, diffs.d, Some(editCost), changes);
  }

  lemma OneLast(d: seq<Edit>, e: int, f: int, p: int)
    requires 0 <= e < p <= |d| && 0 <= f < p && d[e].op == Equal && d[f].op == Equal
    requires NoEquality(d, e + 1, p) && NoEquality(d, f + 1, p)
    ensures e == f
  {}

  lemma {:induction false} HasStays(d: seq<Edit>, p: nat, q: nat, op: Op)
    requires p <= q <= |d| && NoEquality(d, p, q) && Has(d, p, op)
    ensures Has(d, q, op)
    decreases q
  {
    if p < q { HasStays(d, p, q - 1, op); }
  }

  /** Upon an equality: it becomes a candidate, or never can. */
  lemma AtShort(d: seq<Edit>, equalities: seq<nat>, last: Option<Text>, pointer: nat, limit: int,
                preIns: bool, preDel: bool, postIns: bool, postDel: bool, editCost: int) returns (next: nat)
    requires Scanning(d, equalities, last, pointer, limit, preIns, preDel, postIns, postDel, editCost)
    requires pointer < |d| && d[pointer].op == Equal
    ensures if |d[pointer].text| < editCost && (postIns || postDel)
            then Scanning(d, equalities + [pointer], Some(d[pointer].text), pointer + 1, next, postIns, postDel, false, false, editCost)
            else Scanning(d, [], None, pointer + 1, next, preIns, preDel, false, false, editCost)
  {
    if |d[pointer].text| < editCost && (postIns || postDel) {
      next := Pushed(d, equalities, last, pointer, limit, preIns, preDel, postIns, postDel, editCost);
    } else {
      next := Dropped(d, equalities, last, pointer, limit, preIns, preDel, postIns, postDel, editCost);
    }
  }

  lemma Pushed(d: seq<Edit>, equalities: seq<nat>, last: Option<Text>, pointer: nat, limit: int,
               preIns: bool, preDel: bool, postIns: bool, postDel: bool, editCost: int) returns (next: nat)
    requires Scanning(d, equalities, last, pointer, limit, preIns, preDel, postIns, postDel, editCost)
    requires pointer < |d| && d[pointer].op == Equal && |d[pointer].text| < editCost && (postIns || postDel)
    ensures Scanning(d, equalities + [pointer], Some(d[pointer].text), pointer + 1, next, postIns, postDel, false, false, editCost)
  {
    assert Seal(0);
    next := PastOne(d, pointer, limit, Some(editCost));
    Push(d, equalities, pointer);
  }

  lemma PastOne(d: seq<Edit>, pointer: nat, limit: int, editCost: Option<int>) returns (next: nat)
    requires pointer <= limit <= |d| && NoneUpTo(d, limit, editCost) && pointer < |d| && d[pointer].op == Equal
    ensures pointer < next <= |d| && next >= limit && NoneUpTo(d, next, editCost)
  {
    next := limit;
    if limit == pointer {
      PastEquality(d, pointer, editCost);
      next := pointer + 1;
    }
  }

  lemma Dropped(d: seq<Edit>, equalities: seq<nat>, last: Option<Text>, pointer: nat, limit: int,
                preIns: bool, preDel: bool, postIns: bool, postDel: bool, editCost: int) returns (next: nat)
    requires Scanning(d, equalities, last, pointer, limit, preIns, preDel, postIns, postDel, editCost)
    requires pointer < |d| && d[pointer].op == Equal && !(|d[pointer].text| < editCost && (postIns || postDel))
    ensures Scanning(d, [], None, pointer + 1, next, preIns, preDel, false, false, editCost)
  {
    assert Seal(0);
    next := PastOne(d, pointer, limit, Some(editCost));
    forall e: nat {:trigger d[e]} | e < pointer + 1 && d[e].op == Equal && NoEquality(d, e + 1, pointer + 1)
      ensures |d[e].text| >= editCost || (!Has(d, e, Insert) && !Has(d, e, Delete))
    {
      OneLast(d, e, pointer, pointer + 1);
    }
  }

  /** Upon an edit that makes no pattern complete. */
  lemma OverEdit(d: seq<Edit>, equalities: seq<nat>, last: Option<Text>, pointer: nat, limit: int, preIns: bool, preDel: bool,
                 postIns: bool, postDel: bool, editCost: int, i: bool, x: bool) returns (next: nat)
    requires Scanning(d, equalities, last, pointer, limit, preIns, preDel, postIns, postDel, editCost)
    requires pointer < |d| && d[pointer].op != Equal
    requires i == (postIns || d[pointer].op == Insert) && x == (postDel || d[pointer].op == Delete)
    requires !(last.Some? && last.value != [] && Pattern(preIns, preDel, i, x, |last.value|, editCost))
    ensures Scanning(d, equalities, last, pointer + 1, next, preIns, preDel, i, x, editCost)
  {
    assert Seal(0);
    next := limit;
    StackBound(d, equalities, pointer, pointer + 1);
    if limit == pointer {
      next := pointer + 1;
      forall e: nat ensures !Costly(d, e, next, editCost) {
        if Behind(d, e, next) {
          EditPassed(d, equalities, last, pointer, limit, preIns, preDel, postIns, postDel, editCost, e);
        }
      }
    }
    if last.None? { StillHarmless(d, pointer, limit, next, editCost); }
  }

  lemma EditPassed(d: seq<Edit>, equalities: seq<nat>, last: Option<Text>, pointer: nat, limit: int,
                   preIns: bool, preDel: bool, postIns: bool, postDel: bool, editCost: int, e: nat)
    requires Scanning(d, equalities, last, pointer, limit, preIns, preDel, postIns, postDel, editCost)
    requires pointer < |d| && d[pointer].op != Equal && limit == pointer && Behind(d, e, pointer + 1)
    requires !(last.Some? && last.value != [] &&
               Pattern(preIns, preDel, Has(d, pointer + 1, Insert), Has(d, pointer + 1, Delete), |last.value|, editCost))
    ensures !Costly(d, e, pointer + 1, editCost)
  {
    assert Seal(0);
    assert e < pointer && Behind(d, e, pointer);
    if last.Some? {
      OneLast(d, e, equalities[|equalities| - 1], pointer);
    } else if Has(d, pointer, Insert) && Has(d, pointer, Delete) {
      assert !Eliminable(d, e, pointer, Some(editCost));
    }
  }

  lemma StillHarmless(d: seq<Edit>, pointer: nat, limit: nat, next: nat, editCost: int)
    requires pointer < |d| && d[pointer].op != Equal && pointer <= limit <= next <= |d| && pointer < next && Harmless(d, pointer, limit, editCost)
    ensures Harmless(d, pointer + 1, next, editCost)
  {
    if j :| pointer <= j < limit && d[j].op == Equal {
      assert pointer + 1 <= j < next;
    } else if !(Has(d, pointer, Insert) && Has(d, pointer, Delete)) {
      forall e: nat {:trigger d[e]} | e < pointer + 1 && d[e].op == Equal && NoEquality(d, e + 1, pointer + 1)
        ensures |d[e].text| >= editCost || (!Has(d, e, Insert) && !Has(d, e, Delete))
      {
        assert e < pointer && NoEquality(d, e + 1, pointer);
      }
    }
  }

  lemma ScanDone(d: seq<Edit>, equalities: seq<nat>, last: Option<Text>, pointer: int, limit: int,
                 preIns: bool, preDel: bool, postIns: bool, postDel: bool, editCost: int)
    requires Scanning(d, equalities, last, pointer, limit, preIns, preDel, postIns, postDel, editCost) && pointer >= |d|
    ensures Settled(d, Some(editCost))
  {
    assert Seal(0);
    AllPlaces(d, limit, Some(editCost));
  }

  /** The pattern is complete: the candidate is to be eliminated, which has not been seen before. */
  lemma ShortFound(d: seq<Edit>, top: nat, pointer: nat, limit: nat, preIns: bool, preDel: bool, postIns: bool, postDel: bool, editCost: int)
    requires pointer <= limit <= |d| && pointer < |d| && d[pointer].op != Equal && NoneUpTo(d, limit, Some(editCost))
    requires Candidate(d, top, pointer, preIns, preDel, editCost) && d[top].text != []
    requires postIns == Has(d, pointer + 1, Insert) && postDel == Has(d, pointer + 1, Delete)
    requires Pattern(preIns, preDel, postIns, postDel, |d[top].text|, editCost)
    ensures Eliminable(d, top, pointer + 1, Some(editCost)) && limit == pointer
  {
    assert Behind(d, top, pointer + 1);
    assert Eliminable(d, top, pointer + 1, Some(editCost));
  }

  /** The candidate at top is to be eliminated, and nothing before it was. */
  ghost predicate Spotted(d: seq<Edit>, top: nat, pointer: nat, preIns: bool, preDel: bool, editCost: int) {
    forall z: nat {:trigger Seal(z)} :: Seal(z) ==>
      && top < pointer < |d| && d[pointer].op != Equal && NoneUpTo(d, pointer, Some(editCost))
      && Candidate(d, top, pointer, preIns, preDel, editCost)
  }

  lemma ShortAtTop(d0: seq<Edit>, d: seq<Edit>, equalities: seq<nat>, last: Text, pointer: nat, limit: int, preIns: bool, preDel: bool,
                   postIns: bool, postDel: bool, editCost: int, i: bool, x: bool) returns (top: nat)
    requires Scanning(d, equalities, Some(last), pointer, limit, preIns, preDel, postIns, postDel, editCost) && last != []
    requires pointer < |d| && d[pointer].op != Equal && Pattern(preIns, preDel, i, x, |last|, editCost)
    requires i == (postIns || d[pointer].op == Insert) && x == (postDel || d[pointer].op == Delete) && Reached(d0, d, Some(editCost))
    ensures equalities != [] && top == equalities[|equalities| - 1] && StackOk(d, equalities, pointer) && Saved(d, equalities, Some(last))
    ensures top < |d| && Reached(d0, SplitEquality(d, top), Some(editCost)) && !Settled(d, Some(editCost))
    ensures Spotted(d, top, pointer, preIns, preDel, editCost)
  {
    assert Seal(0);
    top := equalities[|equalities| - 1];
    ShortFound(d, top, pointer, limit, preIns, preDel, i, x, editCost);
    SplitMore(d0, d, top, pointer + 1, Some(editCost));
  }

  /** With edits of both kinds before the equality, its elimination makes no other one possible. */
  lemma BothKinds(d: seq<Edit>, top: nat, pointer: nat, preIns: bool, preDel: bool, editCost: int) returns (next: nat)
    requires top < |d| && Spotted(d, top, pointer, true, true, editCost)
    ensures Scanning(SplitEquality(d, top), [], None, pointer + 1, next, preIns, preDel, true, true, editCost)
  {
    assert Seal(0);
    var r := SplitEquality(d, top);
    next := pointer + 1;
    assert NoEquality(r, top, pointer + 1);
    SplitUpTo(d, top, pointer, Some(editCost));
    assert d[..top] == r[..top];
    RunPrefix(d, r, top);
    HasStays(r, top, pointer + 1, Insert);
    HasStays(r, top, pointer + 1, Delete);
    forall e: nat, p: nat {:trigger Eliminable(r, e, p, Some(editCost))} | p <= pointer + 1
      ensures !Eliminable(r, e, p, Some(editCost))
    {
      if p > top && Behind(r, e, p) {
        assert e < top && Behind(r, e, top);
        assert !Eliminable(r, e, top, Some(editCost));
        HasStays(r, top, p, Insert);
        HasStays(r, top, p, Delete);
      }
    }
  }

  /** Else the scan goes back to before the candidate below. */
  lemma WentBack(d: seq<Edit>, r: seq<Edit>, top: nat, pointer: nat, stack: seq<nat>, below: seq<nat>, back: int,
                 preIns: bool, preDel: bool, editCost: int) returns (next: nat)
    requires top < |d| && Spotted(d, top, pointer, preIns, preDel, editCost) && r == SplitEquality(d, top)
    requires StackOk(r, stack, top) && below == (if stack == [] then [] else stack[..|stack| - 1])
    requires back == (if below == [] then -1 else below[|below| - 1]) && StackOk(r, below, back + 1)
    ensures Scanning(r, below, None, back + 1, next, preIns, preDel, false, false, editCost)
  {
    assert Seal(0);
    next := top;
    SplitUpTo(d, top, pointer, Some(editCost));
    if below != [] {
      var j := stack[|stack| - 1];
      assert back + 1 <= j < top && r[j].op == Equal;
    }
  }

  // ---------------------------------------------------------------------------
  // The first stage of `diff_cleanupSemantic`

  /** The state of the scan for outweighed equalities. */
  ghost predicate Weighing(d: seq<Edit>, equalities: seq<nat>, last: Option<Text>, pointer: int, limit: int,
                           insertions1: nat, deletions1: nat, insertions2: nat, deletions2: nat) {
    && 0 <= pointer <= |d|
    && forall z: nat {:trigger Seal(z)} :: Seal(z) ==> Balancing(d, equalities, last, pointer, limit, insertions1, deletions1, insertions2, deletions2)
  }

  ghost predicate Balancing(d: seq<Edit>, equalities: seq<nat>, last: Option<Text>, pointer: int, limit: int,
                            insertions1: nat, deletions1: nat, insertions2: nat, deletions2: nat) {
    && 0 <= pointer <= limit <= |d| && StackOk(d, equalities, pointer) && Saved(d, equalities, last)
    && NoneUpTo(d, limit, None)
    && insertions2 == Inserted(d, pointer) && deletions2 == Deleted(d, pointer)
    && (last.Some? ==> Weighed(d, equalities[|equalities| - 1], pointer, insertions1, deletions1))
    && (last.None? ==> NoEquality(d, 0, pointer) || exists j :: pointer <= j < limit && d[j].op == Equal)
  }

  ghost predicate Weighed(d: seq<Edit>, e: nat, pointer: int, insertions1: nat, deletions1: nat) {
    e < pointer <= |d| && d[e].op == Equal && NoEquality(d, e + 1, pointer) && insertions1 == Inserted(d, e) && deletions1 == Deleted(d, e)
  }

  lemma AtLong(d: seq<Edit>, equalities: seq<nat>, last: Option<Text>, pointer: nat, limit: int,
               insertions1: nat, deletions1: nat, insertions2: nat, deletions2: nat) returns (next: nat)
    requires Weighing(d, equalities, last, pointer, limit, insertions1, deletions1, insertions2, deletions2)
    requires pointer < |d| && d[pointer].op == Equal
    ensures Weighing(d, equalities + [pointer], Some(d[pointer].text), pointer + 1, next, insertions2, deletions2, 0, 0)
  {
    assert Seal(0);
    next := PastOne(d, pointer, limit, None);
    Push(d, equalities, pointer);
  }

  lemma WeighedEdit(d: seq<Edit>, equalities: seq<nat>, last: Option<Text>, pointer: nat, limit: int, insertions1: nat,
                    deletions1: nat, insertions2: nat, deletions2: nat, i: nat, x: nat) returns (next: nat)
    requires Weighing(d, equalities, last, pointer, limit, insertions1, deletions1, insertions2, deletions2)
    requires pointer < |d| && d[pointer].op != Equal
    requires i == insertions2 + (if d[pointer].op == Insert then |d[pointer].text| else 0)
    requires x == deletions2 + (if d[pointer].op == Delete then |d[pointer].text| else 0)
    requires !(last.Some? && last.value != [] && |last.value| <= Max(insertions1, deletions1) && |last.value| <= Max(i, x))
    ensures Weighing(d, equalities, last, pointer + 1, next, insertions1, deletions1, i, x)
  {
    assert Seal(0);
    next := limit;
    StackBound(d, equalities, pointer, pointer + 1);
    if limit == pointer {
      next := pointer + 1;
      forall e: nat ensures !Outweighed(d, e, next) {
        if Behind(d, e, next) && last.Some? { OneLast(d, e, equalities[|equalities| - 1], pointer); }
      }
    }
    if last.None? && !NoEquality(d, 0, pointer) {
      var j :| pointer <= j < limit && d[j].op == Equal;
      assert pointer + 1 <= j < next;
    }
  }

  lemma WeighingDone(d: seq<Edit>, equalities: seq<nat>, last: Option<Text>, pointer: int, limit: int,
                     insertions1: nat, deletions1: nat, insertions2: nat, deletions2: nat)
    requires Weighing(d, equalities, last, pointer, limit, insertions1, deletions1, insertions2, deletions2) && pointer >= |d|
    ensures Settled(d, None)
  {
    assert Seal(0);
    AllPlaces(d, limit, None);
  }

  lemma LongFound(d: seq<Edit>, top: nat, pointer: nat, limit: nat, insertions1: nat, deletions1: nat)
    requires pointer <= limit <= |d| && pointer < |d| && d[pointer].op != Equal && NoneUpTo(d, limit, None)
    requires Weighed(d, top, pointer, insertions1, deletions1) && d[top].text != []
    requires |d[top].text| <= Max(insertions1, deletions1) && |d[top].text| <= Max(Inserted(d, pointer + 1), Deleted(d, pointer + 1))
    ensures Eliminable(d, top, pointer + 1, None)
  {
    assert Behind(d, top, pointer + 1);
  }

  lemma WeighedBack(d: seq<Edit>, r: seq<Edit>, top: nat, limit: nat, stack: seq<nat>, below: seq<nat>, back: int) returns (next: nat)
    requires top < limit <= |d| && NoneUpTo(d, limit, None) && r == SplitEquality(d, top)
    requires StackOk(r, stack, top) && below == (if stack == [] then [] else stack[..|stack| - 1])
    requires back == (if below == [] then -1 else below[|below| - 1]) && StackOk(r, below, back + 1)
    ensures Weighing(r, below, None, back + 1, next, 0, 0, 0, 0)
  {
    next := top;
    SplitUpTo(d, top, limit, None);
    if below != [] {
      var j := stack[|stack| - 1];
      assert back + 1 <= j < top && r[j].op == Equal;
    }
  }

  function Count(b: bool): nat {
    if b then 1 else 0
  }

  function Max(a: nat, b: nat): nat {
    if a > b then a else b
  }

  /** Eliminates the equality at the top of the stack, and says where the scan goes on. */
  method SplitLong(diffs: EditList, equalities: seq<nat>, last: Text, pointer: nat, ghost limit: int, ghost insertions1: nat,
                   ghost deletions1: nat, ghost i0: nat, ghost x0: nat, ghost i: nat, ghost x: nat, ghost d0: seq<Edit>)
      returns (stack: seq<nat>, at: int, ghost next: nat)
    requires pointer < |diffs.d| && diffs.d[pointer].op != Equal && last != []
    requires Weighing(diffs.d, equalities, Some(last), pointer, limit, insertions1, deletions1, i0, x0)
    requires i == i0 + (if diffs.d[pointer].op == Insert then |diffs.d[pointer].text| else 0)
    requires x == x0 + (if diffs.d[pointer].op == Delete then |diffs.d[pointer].text| else 0)
    requires |last| <= Max(insertions1, deletions1) && |last| <= Max(i, x)
    requires Reached(d0, diffs.d, None)
    modifies diffs
    ensures SameTexts(diffs.d, old(diffs.d)) && (Solid(old(diffs.d)) ==> Solid(diffs.d))
    ensures Equalities(diffs.d) < Equalities(old(diffs.d)) && !Settled(old(diffs.d), None)
    ensures Weighing(diffs.d, stack, None, at + 1, next, 0, 0, 0, 0) && Reached(d0, diffs.d, None)
  {
    assert Seal(0);
    ghost var (d, top) := (diffs.d, equalities[|equalities| - 1]);
    LongFound(d, top, pointer, limit, insertions1, deletions1);
    SplitMore(d0, d, top, pointer + 1, None);
    stack := SplitTop(diffs, equalities, last, pointer);
    ghost var popped := stack;
    stack, at := GoBack(diffs.d, stack, pointer);
    next := WeighedBack(d, diffs.d, top, limit, popped, stack, at);
  }

  /** The first stage of `diff_cleanupSemantic`: eliminates equalities no longer than the edits on
      both sides of them, until there are none. */
  method EliminateEqualities(diffs: EditList) returns (changes: bool)
    modifies diffs
    ensures SameTexts(diffs.d, old(diffs.d)) && (Solid(old(diffs.d)) ==> Solid(diffs.d))
    ensures Cleaned(old(diffs.d), diffs.d, None)
    ensures changes <==> !Settled(old(diffs.d), None)
    ensures !changes ==> diffs.d == old(diffs.d)
  {
    ghost var d0, limit: int := diffs.d, 0;
    changes := false;
    var equalities: seq<nat> := [];
    var last: Option<Text> := None;
    var pointer := 0;
    var insertions1: nat, deletions1: nat, insertions2: nat, deletions2: nat := 0, 0, 0, 0;
    CourseStarts(d0, None);
    while pointer < |diffs.d|
      invariant Weighing(diffs.d, equalities, last, pointer, limit, insertions1, deletions1, insertions2, deletions2)
      invariant Course(d0, diffs.d, None, changes)
      decreases Equalities(diffs.d), |diffs.d| - pointer
    {
      if diffs.d[pointer].op == Equal {
        limit := AtLong(diffs.d, equalities, last, pointer, limit, insertions1, deletions1, insertions2, deletions2);
        equalities := equalities + [pointer];
        insertions1, insertions2 := insertions2, 0;
        deletions1, deletions2 := deletions2, 0;
        last := Some(diffs.d[pointer].text);
      } else {
        ghost var (i0, x0) := (insertions2, deletions2);
        if diffs.d[pointer].op == Insert {
          insertions2 := insertions2 + |diffs.d[pointer].text|;
        } else {
          deletions2 := deletions2 + |diffs.d[pointer].text|;
        }
        if last.Some? && last.value != [] &&
           |last.value| <= Max(insertions1, deletions1) && |last.value| <= Max(insertions2, deletions2) {
          ghost var d := diffs.d;
          CourseReached(d0, d, None, changes);
          equalities, pointer, limit := SplitLong(diffs, equalities, last.value, pointer, limit, insertions1, deletions1, i0, x0,
                                                  insertions2, deletions2, d0);
          CourseGoesOn(d0, d, diffs.d, None, changes);
          insertions1, deletions1, insertions2, deletions2 := 0, 0, 0, 0;
          last := None;
          changes := true;
        } else {
          limit := WeighedEdit(diffs.d, equalities, last, pointer, limit, insertions1, deletions1, i0, x0, insertions2, deletions2);
        }
      }
      pointer := pointer + 1;
    }
    WeighingDone(diffs.d, equalities, last, pointer, limit, insertions1, deletions1, insertions2, deletions2);
    CourseEnds(d0, diffs.d, None, changes);
  }
}
