/** `diff_cleanupMerge`: merges and factors runs of edits, then shifts single edits over
    neighbouring equalities, and starts again until nothing can be shifted. */
module CleanupMerge {
  import opened Edits
  import opened Strings

  predicate NoCommonEnds(a: Text, b: Text) {
    a == [] || b == [] || (a[0] != b[0] && a[|a| - 1] != b[|b| - 1])
  }

  /** Which edits may follow each other in a merged list: no two equalities, and a deletion before
      an insertion with nothing left to factor out. */
  predicate PairOk(x: Edit, y: Edit) {
    match (x.op, y.op)
    case (Equal, Equal) => false
    case (Equal, _) => true
    case (_, Equal) => true
    case (Delete, Insert) => NoCommonEnds(x.text, y.text)
    case _ => false
  }

  predicate Chain(d: seq<Edit>) {
    |d| <= 1 || (PairOk(d[|d| - 2], d[|d| - 1]) && Chain(d[..|d| - 1]))
  }

  ghost predicate EndsEqual(d: seq<Edit>) {
    d == [] || d[|d| - 1].op == Equal
  }

  lemma ChainSnoc(d: seq<Edit>, e: Edit)
    requires Chain(d) && (d == [] || PairOk(d[|d| - 1], e))
    ensures Chain(d + [e])
  {
    assert (d + [e])[..|d|] == d;
  }

  lemma {:induction false} ChainPrefix(d: seq<Edit>, k: nat)
    requires Chain(d) && k <= |d|
    ensures Chain(d[..k])
  {
    if k < |d| {
      ChainPrefix(d[..|d| - 1], k);
      assert d[..|d| - 1][..k] == d[..k];
    } else {
      assert d[..k] == d;
    }
  }

  lemma {:induction false} ChainAt(d: seq<Edit>, i: nat)
    requires Chain(d) && i + 1 < |d|
    ensures PairOk(d[i], d[i + 1])
  {
    if i + 2 < |d| { ChainAt(d[..|d| - 1], i); }
  }

  /** Changing the text of a last equality does not matter. */
  lemma ChainRetext(d: seq<Edit>, e: Edit, f: Edit)
    requires Chain(d + [e]) && e.op == Equal && f.op == Equal
    ensures Chain(d + [f])
  {
    assert (d + [e])[..|d|] == d && (d + [f])[..|d|] == d;
  }

  // ---------------------------------------------------------------------------
  // First pass

  /** What a run of edits between the list pre and the equality eq becomes: n characters are
      factored out to the front, m to the back. */
  ghost function Factored(pre: seq<Edit>, eq: Edit, cd: nat, ci: nat, td: Text, ti: Text, n: nat, m: nat): seq<Edit>
    requires n + m <= |td| && n + m <= |ti|
  {
    WithPrefix(pre, ti[..n]) + MergedEdits(cd, ci, td[n..|td| - m], ti[n..|ti| - m]) + [Edit(eq.op, ti[|ti| - m..] + eq.text)]
  }

  ghost function WithPrefix(pre: seq<Edit>, t: Text): seq<Edit> {
    if t == [] then pre
    else if pre == [] then [Edit(Equal, t)]
    else pre[|pre| - 1 := Edit(pre[|pre| - 1].op, pre[|pre| - 1].text + t)]
  }

  function MergedEdits(cd: nat, ci: nat, td: Text, ti: Text): seq<Edit> {
    if cd == 0 then [Edit(Insert, ti)]
    else if ci == 0 then [Edit(Delete, td)]
    else [Edit(Delete, td), Edit(Insert, ti)]
  }

  lemma Assoc(a: Text, b: Text, c: Text)
    ensures a + (b + c) == a + b + c
  {}

  lemma Assoc5(a: Text, p: Text, x: Text, s: Text, t: Text)
    ensures a + p + x + (s + t) == a + (p + x + s) + t
  {}

  /** More text at the end of a last equality. */
  lemma LongerLast(init: seq<Edit>, e: Edit, t: Text)
    requires e.op == Equal
    ensures Text1(init + [Edit(Equal, e.text + t)]) == Text1(init + [e]) + t
    ensures Text2(init + [Edit(Equal, e.text + t)]) == Text2(init + [e]) + t
    ensures Edited(init + [Edit(Equal, e.text + t)]) == Edited(init + [e])
  {
    var f := Edit(Equal, e.text + t);
    EqualSnoc(init, e);
    EqualSnoc(init, f);
    Assoc(Text1(init), e.text, t);
    Assoc(Text2(init), e.text, t);
  }

  lemma EqualSnoc(init: seq<Edit>, e: Edit)
    requires e.op == Equal
    ensures Text1(init + [e]) == Text1(init) + e.text && Text2(init + [e]) == Text2(init) + e.text
    ensures Edited(init + [e]) == Edited(init)
  {
    TextsSnoc(init, e);
    EditedSnoc(init, e);
  }

  lemma OnlyEqual(t: Text)
    ensures Text1([Edit(Equal, t)]) == t && Text2([Edit(Equal, t)]) == t && Edited([Edit(Equal, t)]) == 0
  {
    TextsOf1(Edit(Equal, t));
    EditedSnoc([], Edit(Equal, t));
    assert [] + [Edit(Equal, t)] == [Edit(Equal, t)];
  }

  lemma WithPrefixForm(pre: seq<Edit>, t: Text) returns (init: seq<Edit>, e: Edit)
    requires pre != [] && pre[|pre| - 1].op == Equal && t != []
    ensures pre == init + [e] && e.op == Equal && WithPrefix(pre, t) == init + [Edit(Equal, e.text + t)]
  {
    init, e := pre[..|pre| - 1], pre[|pre| - 1];
  }

  lemma LongerLastOf(pre: seq<Edit>, t: Text)
    requires pre != [] && pre[|pre| - 1].op == Equal && t != []
    ensures Text1(WithPrefix(pre, t)) == Text1(pre) + t && Text2(WithPrefix(pre, t)) == Text2(pre) + t
    ensures Edited(WithPrefix(pre, t)) == Edited(pre)
  {
    var init, e := WithPrefixForm(pre, t);
    LongerLast(init, e, t);
  }

  lemma WithPrefixTexts(pre: seq<Edit>, t: Text)
    requires EndsEqual(pre)
    ensures Text1(WithPrefix(pre, t)) == Text1(pre) + t && Text2(WithPrefix(pre, t)) == Text2(pre) + t
    ensures Edited(WithPrefix(pre, t)) == Edited(pre)
  {
    if t == [] {
    } else if pre == [] {
      OnlyEqual(t);
    } else {
      LongerLastOf(pre, t);
    }
  }

  lemma MergedEditsTexts(cd: nat, ci: nat, td: Text, ti: Text)
    requires cd == 0 ==> td == []
    requires ci == 0 ==> ti == []
    ensures Text1(MergedEdits(cd, ci, td, ti)) == td && Text2(MergedEdits(cd, ci, td, ti)) == ti
    ensures Edited(MergedEdits(cd, ci, td, ti)) == |td| + |ti|
  {
    TextsOf1(Edit(Insert, ti));
    TextsOf1(Edit(Delete, td));
    TextsOf2(Edit(Delete, td), Edit(Insert, ti));
    EditedOfEdits(MergedEdits(cd, ci, td, ti));
  }

  lemma PartsTexts(q: seq<Edit>, mid: seq<Edit>, f: Edit)
    requires f.op == Equal
    ensures Text1(q + mid + [f]) == Text1(q) + Text1(mid) + f.text
    ensures Text2(q + mid + [f]) == Text2(q) + Text2(mid) + f.text
    ensures Edited(q + mid + [f]) == Edited(q) + Edited(mid)
  {
    TextsSnoc(q + mid, f);
    TextsConcat(q, mid);
    EditedSnoc(q + mid, f);
    EditedConcat(q, mid);
  }

  /** Factoring a run spells the same two texts and shortens the edits by what is factored out. */
  lemma FactoredTexts(pre: seq<Edit>, eq: Edit, cd: nat, ci: nat, td: Text, ti: Text, n: nat, m: nat)
    requires EndsEqual(pre)
    requires eq.op == Equal && n + m <= |td| && n + m <= |ti|
    requires td[..n] == ti[..n] && td[|td| - m..] == ti[|ti| - m..]
    requires (cd == 0 ==> td == []) && (ci == 0 ==> ti == [])
    ensures var r := Factored(pre, eq, cd, ci, td, ti, n, m);
            && Text1(r) == Text1(pre) + td + eq.text && Text2(r) == Text2(pre) + ti + eq.text
            && Edited(r) == Edited(pre) + |td| + |ti| - 2 * (n + m)
  {
    var p, s := ti[..n], ti[|ti| - m..];
    var x, y := td[n..|td| - m], ti[n..|ti| - m];
    WithPrefixTexts(pre, p);
    MergedEditsTexts(cd, ci, x, y);
    PartsTexts(WithPrefix(pre, p), MergedEdits(cd, ci, x, y), Edit(eq.op, s + eq.text));
    Assoc5(Text1(pre), p, x, s, eq.text);
    Assoc5(Text2(pre), p, y, s, eq.text);
    Rejoin(td, n, m);
    Rejoin(ti, n, m);
  }

  lemma Rejoin(t: Text, n: nat, m: nat)
    requires n + m <= |t|
    ensures t[..n] + t[n..|t| - m] + t[|t| - m..] == t
  {}

  lemma FactoredChain(pre: seq<Edit>, eq: Edit, cd: nat, ci: nat, td: Text, ti: Text, n: nat, m: nat)
    requires Chain(pre) && EndsEqual(pre)
    requires eq.op == Equal && n + m <= |td| && n + m <= |ti|
    requires cd > 0 && ci > 0 ==> LongestPrefix(ti, td, n) && LongestSuffix(ti[n..], td[n..], m)
    ensures var f := Factored(pre, eq, cd, ci, td, ti, n, m); Chain(f) && f != [] && f[|f| - 1].op == Equal
  {
    var p, s := ti[..n], ti[|ti| - m..];
    var x, y := td[n..|td| - m], ti[n..|ti| - m];
    WithPrefixChain(pre, p);
    if cd > 0 && ci > 0 { NothingLeft(td, ti, n, m); }
    MergedEditsChain(WithPrefix(pre, p), cd, ci, x, y, Edit(eq.op, s + eq.text));
  }

  lemma NothingLeft(td: Text, ti: Text, n: nat, m: nat)
    requires n + m <= |td| && n + m <= |ti|
    requires LongestPrefix(ti, td, n) && LongestSuffix(ti[n..], td[n..], m)
    ensures NoCommonEnds(td[n..|td| - m], ti[n..|ti| - m])
  {
    if n + m < |td| && n + m < |ti| {
      OneMoreFirst(ti, td, n);
      OneMoreLast(ti[n..], td[n..], m);
    }
  }

  lemma WithPrefixChain(pre: seq<Edit>, t: Text)
    requires Chain(pre) && EndsEqual(pre)
    ensures var q := WithPrefix(pre, t); Chain(q) && EndsEqual(q)
  {
    if t != [] && pre != [] {
      var init, e := pre[..|pre| - 1], pre[|pre| - 1];
      assert pre == init + [e] && WithPrefix(pre, t) == init + [Edit(e.op, e.text + t)];
      ChainRetext(init, e, Edit(e.op, e.text + t));
    }
  }

  lemma MergedEditsChain(q: seq<Edit>, cd: nat, ci: nat, x: Text, y: Text, f: Edit)
    requires Chain(q) && EndsEqual(q) && f.op == Equal
    requires cd > 0 && ci > 0 ==> NoCommonEnds(x, y)
    ensures var r := q + MergedEdits(cd, ci, x, y) + [f]; Chain(r) && r[|r| - 1] == f
  {
    if cd > 0 && ci > 0 {
      TwoThenEqual(q, Edit(Delete, x), Edit(Insert, y), f);
    } else {
      OneThenEqual(q, MergedEdits(cd, ci, x, y)[0], f);
    }
  }

  lemma OneThenEqual(q: seq<Edit>, e: Edit, f: Edit)
    requires Chain(q) && (q == [] || PairOk(q[|q| - 1], e)) && e.op != Equal && f.op == Equal
    ensures Chain(q + [e] + [f])
  {
    ChainSnoc(q, e);
    ChainSnoc(q + [e], f);
  }

  lemma TwoThenEqual(q: seq<Edit>, d: Edit, e: Edit, f: Edit)
    requires Chain(q) && EndsEqual(q) && d.op == Delete && e.op == Insert && PairOk(d, e) && f.op == Equal
    ensures Chain(q + [d, e] + [f])
  {
    ChainSnoc(q, d);
    OneThenEqual(q + [d], e, f);
    assert q + [d] + [e] == q + [d, e];
  }

  lemma FactoredSolid(pre: seq<Edit>, eq: Edit, cd: nat, ci: nat, td: Text, ti: Text, n: nat, m: nat)
    requires Solid(pre) && n + m <= |td| && n + m <= |ti| && eq.op == Equal
    ensures var r := Factored(pre, eq, cd, ci, td, ti, n, m); Solid(r[..|r| - 1]) && (eq.text != [] ==> Solid(r))
  {
    var q := WithPrefix(pre, ti[..n]);
    var r, mid := Factored(pre, eq, cd, ci, td, ti, n, m), MergedEdits(cd, ci, td[n..|td| - m], ti[n..|ti| - m]);
    forall i | 0 <= i < |r| - 1 && r[i].op == Equal ensures r[i].text != [] {
      assert r[i] == (q + mid)[i];
      assert forall k :: 0 <= k < |mid| ==> mid[k].op != Equal;
      assert r[i] == q[i];
    }
  }

  /** The edits gathered since the last equality: their number and texts by kind. */
  ghost predicate Run(r: seq<Edit>, cd: nat, ci: nat, td: Text, ti: Text) {
    && |r| == cd + ci && (forall i :: 0 <= i < |r| ==> r[i].op != Equal)
    && Text1(r) == td && Text2(r) == ti
    && (cd == 0 ==> td == []) && (ci == 0 ==> ti == [])
  }

  lemma RunGrows(r: seq<Edit>, cd: nat, ci: nat, td: Text, ti: Text, e: Edit)
    requires Run(r, cd, ci, td, ti)
    ensures e.op == Insert ==> Run(r + [e], cd, ci + 1, td, ti + e.text)
    ensures e.op == Delete ==> Run(r + [e], cd + 1, ci, td + e.text, ti)
  {
    TextsSnoc(r, e);
  }

  /** The list pre + run + post is scanned up to post: merged up to a run of edits. */
  ghost predicate Scanned(pre: seq<Edit>, run: seq<Edit>, post: seq<Edit>, cd: nat, ci: nat, td: Text, ti: Text) {
    && Chain(pre) && EndsEqual(pre) && EndsEqual(post)
    && Run(run, cd, ci, td, ti) && (post == [] ==> run == [] && pre != [])
  }

  /** What the first pass has kept of the list d0 with a dummy equality at its end: both texts;
      edits never grow, and the list is longer than d0 only by a last empty equality or when edits
      shrink; no equality but the last is empty if none was. */
  ghost predicate Kept(d: seq<Edit>, d0: seq<Edit>) {
    && 0 < |d| && SameTexts(d, d0) && Edited(d) <= Edited(d0)
    && (Edited(d) == Edited(d0) ==> |d| <= |d0| || (|d| == |d0| + 1 && d[|d| - 1].text == []))
    && (Solid(d0) ==> Solid(d[..|d| - 1]))
  }

  lemma KeptAtFirst(d0: seq<Edit>)
    ensures Kept(d0 + [Edit(Equal, [])], d0)
  {
    var d := d0 + [Edit(Equal, [])];
    EqualSnoc(d0, Edit(Equal, []));
    assert d[..|d| - 1] == d0;
  }

  /** A step that keeps texts, shrinks the edits or else does not lengthen the list. */
  ghost predicate Better(e: seq<Edit>, d: seq<Edit>) {
    && 0 < |e| && 0 < |d| && SameTexts(e, d) && Edited(e) <= Edited(d)
    && (Edited(e) == Edited(d) ==> |e| < |d| || (|e| == |d| && (d[|d| - 1].text == [] ==> e[|e| - 1].text == [])))
    && (Solid(d[..|d| - 1]) ==> Solid(e[..|e| - 1]))
  }

  lemma KeptStep(d: seq<Edit>, e: seq<Edit>, d0: seq<Edit>)
    requires Kept(d, d0) && Better(e, d)
    ensures Kept(e, d0)
  {}

  /** Splits off the next entry. */
  lemma NextEntry(pre: seq<Edit>, run: seq<Edit>, post: seq<Edit>, d: seq<Edit>) returns (e: Edit, rest: seq<Edit>)
    requires d == pre + run + post && post != []
    ensures post == [e] + rest && d == pre + run + [e] + rest && d[|pre| + |run|] == e
    ensures d == pre + (run + [e]) + rest
  {
    e, rest := post[0], post[1..];
  }

  lemma ScanEdit(pre: seq<Edit>, run: seq<Edit>, e: Edit, rest: seq<Edit>, cd: nat, ci: nat, td: Text, ti: Text)
    requires Scanned(pre, run, [e] + rest, cd, ci, td, ti)
    ensures e.op == Insert ==> Scanned(pre, run + [e], rest, cd, ci + 1, td, ti + e.text)
    ensures e.op == Delete ==> Scanned(pre, run + [e], rest, cd + 1, ci, td + e.text, ti)
  {
    RunGrows(run, cd, ci, td, ti, e);
    LastOfRest(e, rest);
  }

  lemma LastOfRest(e: Edit, rest: seq<Edit>)
    ensures ([e] + rest)[|rest|] == if rest == [] then e else rest[|rest| - 1]
  {}

  /** An equality after at most one edit is passed over. */
  lemma PassEquality(pre: seq<Edit>, run: seq<Edit>, e: Edit, rest: seq<Edit>, cd: nat, ci: nat, td: Text, ti: Text)
    requires Scanned(pre, run, [e] + rest, cd, ci, td, ti) && e.op == Equal
    requires cd + ci <= 1 && (pre + run == [] || (pre + run)[|pre + run| - 1].op != Equal)
    ensures Scanned(pre + run + [e], [], rest, 0, 0, [], [])
  {
    LastOfRest(e, rest);
    if cd + ci == 1 {
      assert run == [run[0]];
      ChainSnoc(pre, run[0]);
    } else {
      assert pre + run == pre;
    }
    ChainSnoc(pre + run, e);
  }

  /** Two equalities in a row become one. */
  lemma JoinedBetter(init: seq<Edit>, x: Edit, y: Edit, rest: seq<Edit>)
    requires x.op == Equal && y.op == Equal
    ensures Better(init + [Edit(Equal, x.text + y.text)] + rest, init + [x] + [y] + rest)
  {
    var d := init + [x] + [y] + rest;
    JoinedTexts(init, x, y, rest);
    JoinedShorter(init, x, y, rest);
    if Solid(d[..|d| - 1]) { JoinedSolid(init, x, y, rest); }
  }

  lemma JoinedScanned(init: seq<Edit>, x: Edit, y: Edit, rest: seq<Edit>)
    requires Scanned(init + [x], [], [y] + rest, 0, 0, [], []) && x.op == Equal && y.op == Equal
    ensures Scanned(init + [Edit(Equal, x.text + y.text)], [], rest, 0, 0, [], [])
  {
    ChainRetext(init, x, Edit(Equal, x.text + y.text));
    LastOfRest(y, rest);
  }

  lemma JoinedShorter(init: seq<Edit>, x: Edit, y: Edit, rest: seq<Edit>)
    ensures |init + [Edit(Equal, x.text + y.text)] + rest| == |init + [x] + [y] + rest| - 1
  {}

  lemma JoinedTexts(init: seq<Edit>, x: Edit, y: Edit, rest: seq<Edit>)
    requires x.op == Equal && y.op == Equal
    ensures var e := Edit(Equal, x.text + y.text);
            && SameTexts(init + [e] + rest, init + [x] + [y] + rest)
            && Edited(init + [e] + rest) == Edited(init + [x] + [y] + rest)
  {
    var e := Edit(Equal, x.text + y.text);
    LongerLast(init, x, y.text);
    EqualSnoc(init + [x], y);
    RestTexts(init + [e], init + [x] + [y], rest);
  }

  /** Lists that spell the same spell the same before any others. */
  lemma RestTexts(a: seq<Edit>, b: seq<Edit>, rest: seq<Edit>)
    requires SameTexts(a, b)
    ensures SameTexts(a + rest, b + rest) && Edited(a + rest) - Edited(a) == Edited(b + rest) - Edited(b)
  {
    TextsConcat(a, rest);
    TextsConcat(b, rest);
    EditedConcat(a, rest);
    EditedConcat(b, rest);
  }

  lemma JoinedSolid(init: seq<Edit>, x: Edit, y: Edit, rest: seq<Edit>)
    requires x.op == Equal && y.op == Equal
    requires var d := init + [x] + [y] + rest; Solid(d[..|d| - 1])
    ensures var r := init + [Edit(Equal, x.text + y.text)] + rest; Solid(r[..|r| - 1])
  {
    var d, r := init + [x] + [y] + rest, init + [Edit(Equal, x.text + y.text)] + rest;
    assert d[..|d| - 1][|init|] == x;
    forall i | 0 <= i < |r| - 1 && r[i].op == Equal ensures r[..|r| - 1][i].text != [] {
      var k := if i <= |init| then i else i + 1;
      assert d[..|d| - 1][k] == d[k];
    }
  }

  /** How much of the inserted and deleted texts the pass factors out at the front and at the back. */
  ghost predicate Factors(cd: nat, ci: nat, td: Text, ti: Text, n: nat, m: nat) {
    && n + m <= |td| && n + m <= |ti|
    && if cd > 0 && ci > 0 then LongestPrefix(ti, td, n) && LongestSuffix(ti[n..], td[n..], m) else n == 0 && m == 0
  }

  lemma FactorsAgree(td: Text, ti: Text, n: nat, m: nat, cd: nat, ci: nat)
    requires Factors(cd, ci, td, ti, n, m)
    ensures td[..n] == ti[..n] && td[|td| - m..] == ti[|ti| - m..]
  {
    if m > 0 {
      assert ti[n..][|ti[n..]| - m..] == ti[|ti| - m..] && td[n..][|td[n..]| - m..] == td[|td| - m..];
    }
  }

  /** Factoring and merging a run is such a step, and scans past the equality. */
  lemma MergedRunBetter(pre: seq<Edit>, run: seq<Edit>, e: Edit, rest: seq<Edit>, cd: nat, ci: nat, td: Text, ti: Text,
                        n: nat, m: nat)
    requires EndsEqual(pre) && Run(run, cd, ci, td, ti) && e.op == Equal && cd + ci > 1 && Factors(cd, ci, td, ti, n, m)
    ensures Better(Factored(pre, e, cd, ci, td, ti, n, m) + rest, pre + run + [e] + rest)
  {
    var d := pre + run + [e] + rest;
    MergedRunTexts(pre, run, e, rest, cd, ci, td, ti, n, m);
    if n + m == 0 { NothingFactoredLength(pre, run, e, rest, cd, ci, td, ti); }
    if Solid(d[..|d| - 1]) { MergedRunSolid(pre, run, e, rest, cd, ci, td, ti, n, m); }
  }

  lemma MergedRunScanned(pre: seq<Edit>, run: seq<Edit>, e: Edit, rest: seq<Edit>, cd: nat, ci: nat, td: Text, ti: Text,
                         n: nat, m: nat)
    requires Scanned(pre, run, [e] + rest, cd, ci, td, ti) && e.op == Equal && Factors(cd, ci, td, ti, n, m)
    ensures Scanned(Factored(pre, e, cd, ci, td, ti, n, m), [], rest, 0, 0, [], [])
  {
    FactoredChain(pre, e, cd, ci, td, ti, n, m);
    LastOfRest(e, rest);
  }

  lemma MergedRunTexts(pre: seq<Edit>, run: seq<Edit>, e: Edit, rest: seq<Edit>, cd: nat, ci: nat, td: Text, ti: Text,
                       n: nat, m: nat)
    requires EndsEqual(pre) && Run(run, cd, ci, td, ti) && e.op == Equal && Factors(cd, ci, td, ti, n, m)
    ensures var f := Factored(pre, e, cd, ci, td, ti, n, m);
            && SameTexts(f + rest, pre + run + [e] + rest)
            && Edited(f + rest) == Edited(pre + run + [e] + rest) - 2 * (n + m)
  {
    FactorsAgree(td, ti, n, m, cd, ci);
    FactoredTexts(pre, e, cd, ci, td, ti, n, m);
    PartsTexts(pre, run, e);
    EditedOfEdits(run);
    RestTexts(Factored(pre, e, cd, ci, td, ti, n, m), pre + run + [e], rest);
  }

  lemma NothingFactoredLength(pre: seq<Edit>, run: seq<Edit>, e: Edit, rest: seq<Edit>, cd: nat, ci: nat, td: Text, ti: Text)
    requires |run| == cd + ci > 1
    ensures var r := Factored(pre, e, cd, ci, td, ti, 0, 0) + rest;
            var d := pre + run + [e] + rest;
            |r| <= |d| && (d[|d| - 1].text == [] ==> r[|r| - 1].text == [])
  {}

  lemma MergedRunSolid(pre: seq<Edit>, run: seq<Edit>, e: Edit, rest: seq<Edit>, cd: nat, ci: nat, td: Text, ti: Text,
                       n: nat, m: nat)
    requires n + m <= |td| && n + m <= |ti| && e.op == Equal
    requires var d := pre + run + [e] + rest; Solid(d[..|d| - 1])
    ensures var r := Factored(pre, e, cd, ci, td, ti, n, m) + rest; Solid(r[..|r| - 1])
  {
    var d := pre + run + [e] + rest;
    SolidParts(pre, run, e, rest);
    FactoredSolid(pre, e, cd, ci, td, ti, n, m);
    SolidThenRest(Factored(pre, e, cd, ci, td, ti, n, m), rest);
  }

  lemma SolidParts(pre: seq<Edit>, run: seq<Edit>, e: Edit, rest: seq<Edit>)
    requires var d := pre + run + [e] + rest; Solid(d[..|d| - 1]) && e.op == Equal
    ensures Solid(pre) && (rest != [] ==> e.text != [] && Solid(rest[..|rest| - 1]))
  {
    var d := pre + run + [e] + rest;
    forall i | 0 <= i < |pre| && pre[i].op == Equal ensures pre[i].text != [] {
      assert d[..|d| - 1][i] == pre[i];
    }
    if rest != [] {
      assert d[..|d| - 1][|pre| + |run|] == e;
      forall i | 0 <= i < |rest| - 1 && rest[i].op == Equal ensures rest[i].text != [] {
        assert d[..|d| - 1][|pre| + |run| + 1 + i] == rest[i];
      }
    }
  }

  lemma SolidThenRest(f: seq<Edit>, rest: seq<Edit>)
    requires f != [] && Solid(f[..|f| - 1]) && (rest != [] ==> Solid(f) && Solid(rest[..|rest| - 1]))
    ensures var r := f + rest; Solid(r[..|r| - 1])
  {
    var r := f + rest;
    forall i | 0 <= i < |r| - 1 && r[i].op == Equal ensures r[i].text != [] {
      if i < |f| - 1 { assert r[i] == f[..|f| - 1][i]; }
      else if i == |f| - 1 { assert r[i] == f[i]; }
      else { assert r[i] == rest[..|rest| - 1][i - |f|]; }
    }
  }

  /** Factors a common prefix of both texts out into the equality before the run, or into a new
      equality at the start of the list. */
  method FactorFront(diffs: EditList, ghost pre: seq<Edit>, ghost run: seq<Edit>, ghost eq: Edit, ghost post: seq<Edit>,
                     pointer: nat, count: nat, td: Text, ti: Text)
      returns (next: nat, textDelete: Text, textInsert: Text, ghost n: nat)
    requires diffs.d == pre + run + [eq] + post && |run| == count && pointer == |pre| + count
    requires EndsEqual(pre)
    modifies diffs
    ensures LongestPrefix(ti, td, n) && textInsert == ti[n..] && textDelete == td[n..]
    ensures diffs.d == WithPrefix(pre, ti[..n]) + run + [eq] + post && next == |WithPrefix(pre, ti[..n])| + count
  {
    next, textDelete, textInsert := pointer, td, ti;
    var common := CommonPrefix(ti, td);
    n := common;
    if common != 0 {
      var x := pointer - count - 1;
      var shared := Take(ti, common);
      assert pre != [] ==> diffs.d[|pre| - 1] == pre[|pre| - 1];
      if x >= 0 && diffs.d[x].op == Equal {
        LengthenBefore(pre, run, eq, post, shared);
        diffs.d := diffs.d[x := Edit(diffs.d[x].op, diffs.d[x].text + shared)];
      } else {
        InsertBefore(run, eq, post, shared);
        diffs.d := [Edit(Equal, shared)] + diffs.d;
        next := next + 1;
      }
      textInsert := Drop(ti, common);
      textDelete := Drop(td, common);
    }
  }

  /** Factors a common suffix of both texts out into the equality after the run. */
  method FactorBack(diffs: EditList, ghost head: seq<Edit>, ghost run: seq<Edit>, ghost eq: Edit, ghost post: seq<Edit>,
                    pointer: nat, td: Text, ti: Text)
      returns (textDelete: Text, textInsert: Text, ghost m: nat)
    requires diffs.d == head + run + [eq] + post && pointer == |head| + |run|
    modifies diffs
    ensures LongestSuffix(ti, td, m) && textInsert == ti[..|ti| - m] && textDelete == td[..|td| - m]
    ensures diffs.d == head + run + [Edit(eq.op, ti[|ti| - m..] + eq.text)] + post
  {
    textDelete, textInsert := td, ti;
    var common := CommonSuffix(ti, td);
    m := common;
    SetAfter(head, run, eq, post, Edit(eq.op, ti[|ti| - m..] + eq.text));
    if common != 0 {
      diffs.d := diffs.d[pointer := Edit(diffs.d[pointer].op, TakeLast(ti, common) + diffs.d[pointer].text)];
      textInsert := DropLast(ti, common);
      textDelete := DropLast(td, common);
    } else {
      assert ti[|ti|..] + eq.text == eq.text;
    }
  }

  /** A factored run with the merged edits not yet in place. */
  ghost function Unmerged(pre: seq<Edit>, run: seq<Edit>, eq: Edit, rest: seq<Edit>, ti: Text, n: nat, m: nat): seq<Edit>
    requires n + m <= |ti|
  {
    WithPrefix(pre, ti[..n]) + run + [Edit(eq.op, ti[|ti| - m..] + eq.text)] + rest
  }

  /** Factors common ends out of a run of deletions and insertions. */
  method FactorRun(diffs: EditList, ghost pre: seq<Edit>, ghost run: seq<Edit>, ghost eq: Edit, ghost rest: seq<Edit>,
                   pointer: nat, count: nat, td: Text, ti: Text)
      returns (next: nat, textDelete: Text, textInsert: Text, ghost n: nat, ghost m: nat)
    requires diffs.d == pre + run + [eq] + rest && |run| == count && pointer == |pre| + count && EndsEqual(pre)
    modifies diffs
    ensures LongestPrefix(ti, td, n) && LongestSuffix(ti[n..], td[n..], m) && n + m <= |td| && n + m <= |ti|
    ensures textDelete == td[n..|td| - m] && textInsert == ti[n..|ti| - m]
    ensures diffs.d == Unmerged(pre, run, eq, rest, ti, n, m) && next == |WithPrefix(pre, ti[..n])| + count
  {
    next, textDelete, textInsert, n := FactorFront(diffs, pre, run, eq, rest, pointer, count, td, ti);
    textDelete, textInsert, m := FactorBack(diffs, WithPrefix(pre, ti[..n]), run, eq, rest, next, textDelete, textInsert);
    AfterFactoring(td, ti, n, m, textDelete, textInsert);
  }

  /** Upon an equality after several edits: factors out what the deleted and inserted texts share,
      and puts the merged edits in the place of the run. */
  method MergeRun(diffs: EditList, ghost pre: seq<Edit>, ghost run: seq<Edit>, ghost eq: Edit, ghost rest: seq<Edit>,
                  pointer: nat, cd: nat, ci: nat, td: Text, ti: Text)
      returns (next: nat, ghost n: nat, ghost m: nat)
    requires diffs.d == pre + run + [eq] + rest && |run| == cd + ci > 1 && pointer == |pre| + |run| && EndsEqual(pre)
    modifies diffs
    ensures Factors(cd, ci, td, ti, n, m)
    ensures diffs.d == Factored(pre, eq, cd, ci, td, ti, n, m) + rest
    ensures next == |Factored(pre, eq, cd, ci, td, ti, n, m)|
  {
    var textDelete, textInsert;
    next, textDelete, textInsert, n, m := pointer, td, ti, 0, 0;
    NothingFactored(td, ti, eq);
    if cd != 0 && ci != 0 {
      next, textDelete, textInsert, n, m := FactorRun(diffs, pre, run, eq, rest, pointer, cd + ci, td, ti);
    }
    next := PlaceMerged(diffs, WithPrefix(pre, ti[..n]), run, Edit(eq.op, ti[|ti| - m..] + eq.text), rest, next,
                        cd, ci, textDelete, textInsert);
  }

  /** Puts the merged edits in the place of the run. */
  method PlaceMerged(diffs: EditList, ghost head: seq<Edit>, ghost run: seq<Edit>, ghost f: Edit, ghost post: seq<Edit>,
                     pointer: nat, cd: nat, ci: nat, td: Text, ti: Text) returns (next: nat)
    requires diffs.d == head + run + [f] + post && pointer == |head| + |run| && |run| == cd + ci > 0
    modifies diffs
    ensures diffs.d == head + MergedEdits(cd, ci, td, ti) + [f] + post
    ensures next == |head + MergedEdits(cd, ci, td, ti) + [f]|
  {
    var merged := MergedEdits(cd, ci, td, ti);
    ReplaceRun(head, run, f, post, merged);
    diffs.d := diffs.d[..pointer - cd - ci] + merged + diffs.d[pointer..];
    next := pointer - cd - ci + 1 + (if cd != 0 then 1 else 0) + (if ci != 0 then 1 else 0);
  }

  lemma AfterFactoring(td: Text, ti: Text, n: nat, m: nat, x: Text, y: Text)
    requires LongestPrefix(ti, td, n) && LongestSuffix(ti[n..], td[n..], m)
    requires y == ti[n..][..|ti[n..]| - m] && x == td[n..][..|td[n..]| - m]
    ensures n + m <= |td| && n + m <= |ti| && x == td[n..|td| - m] && y == ti[n..|ti| - m]
    ensures ti[n..][|ti[n..]| - m..] == ti[|ti| - m..]
  {}

  lemma NothingFactored(td: Text, ti: Text, eq: Edit)
    ensures td[0..|td| - 0] == td && ti[0..|ti| - 0] == ti
    ensures ti[..0] == [] && ti[|ti| - 0..] + eq.text == eq.text && Edit(eq.op, ti[|ti| - 0..] + eq.text) == eq
  {}

  lemma LengthenBefore(pre: seq<Edit>, run: seq<Edit>, eq: Edit, post: seq<Edit>, t: Text)
    requires pre != [] && t != []
    ensures (pre + run + [eq] + post)[|pre| - 1] == pre[|pre| - 1]
    ensures (pre + run + [eq] + post)[|pre| - 1 := Edit(pre[|pre| - 1].op, pre[|pre| - 1].text + t)] ==
            WithPrefix(pre, t) + run + [eq] + post
  {}

  lemma InsertBefore(run: seq<Edit>, eq: Edit, post: seq<Edit>, t: Text)
    requires t != []
    ensures [Edit(Equal, t)] + ([] + run + [eq] + post) == WithPrefix([], t) + run + [eq] + post
  {}

  lemma SetAfter(head: seq<Edit>, run: seq<Edit>, eq: Edit, post: seq<Edit>, f: Edit)
    ensures (head + run + [eq] + post)[|head| + |run|] == eq
    ensures (head + run + [eq] + post)[|head| + |run| := f] == head + run + [f] + post
  {}

  lemma ReplaceRun(head: seq<Edit>, run: seq<Edit>, f: Edit, post: seq<Edit>, merged: seq<Edit>)
    ensures var d := head + run + [f] + post;
            d[..|head|] + merged + d[|head| + |run|..] == head + merged + [f] + post
  {
    var d := head + run + [f] + post;
    assert d[..|head|] == head && d[|head| + |run|..] == [f] + post;
  }

  /** An equality after at most one edit: merges it with an equality right before it, or passes. */
  method PassOrJoin(diffs: EditList, ghost pre: seq<Edit>, ghost run: seq<Edit>, ghost e: Edit, ghost rest: seq<Edit>,
                    pointer: nat, ghost cd: nat, ghost ci: nat, ghost td: Text, ghost ti: Text, ghost d0: seq<Edit>)
      returns (next: nat, ghost done: seq<Edit>)
    requires diffs.d == pre + run + [e] + rest && pointer == |pre| + |run| && e.op == Equal
    requires Scanned(pre, run, [e] + rest, cd, ci, td, ti) && cd + ci <= 1 && Kept(diffs.d, d0)
    modifies diffs
    ensures diffs.d == done + rest && next == |done|
    ensures Scanned(done, [], rest, 0, 0, [], []) && Kept(diffs.d, d0)
  {
    assert pointer != 0 ==> diffs.d[pointer - 1] == (pre + run)[pointer - 1];
    if pointer != 0 && diffs.d[pointer - 1].op == Equal {
      ghost var init, x := SplitLast(pre, run, e, rest, diffs.d);
      JoinedBetter(init, x, e, rest);
      KeptStep(diffs.d, init + [Edit(Equal, x.text + e.text)] + rest, d0);
      JoinedScanned(init, x, e, rest);
      JoinInPlace(diffs, init, x, e, rest, pointer);
      next := pointer;
      done := init + [Edit(Equal, x.text + e.text)];
    } else {
      PassEquality(pre, run, e, rest, cd, ci, td, ti);
      next := pointer + 1;
      done := pre + run + [e];
    }
  }

  lemma SplitLast(pre: seq<Edit>, run: seq<Edit>, e: Edit, rest: seq<Edit>, d: seq<Edit>) returns (init: seq<Edit>, x: Edit)
    requires d == pre + run + [e] + rest && pre + run != [] && (pre + run)[|pre + run| - 1].op == Equal
    requires forall i :: 0 <= i < |run| ==> run[i].op != Equal
    ensures run == [] && pre == init + [x] && x.op == Equal && d == init + [x] + [e] + rest
  {
    LastOfBoth(pre, run);
    init, x := pre[..|pre| - 1], pre[|pre| - 1];
  }

  lemma LastOfBoth(a: seq<Edit>, b: seq<Edit>)
    requires a + b != []
    ensures (a + b)[|a + b| - 1] == if b == [] then a[|a| - 1] else b[|b| - 1]
  {}

  method JoinInPlace(diffs: EditList, ghost init: seq<Edit>, ghost x: Edit, ghost y: Edit, ghost rest: seq<Edit>, pointer: nat)
    requires diffs.d == init + [x] + [y] + rest && pointer == |init| + 1 && x.op == Equal
    modifies diffs
    ensures diffs.d == init + [Edit(Equal, x.text + y.text)] + rest
  {
    var d := diffs.d;
    diffs.d := d[..pointer - 1] + [Edit(d[pointer - 1].op, d[pointer - 1].text + d[pointer].text)] + d[pointer + 1..];
  }

  /** Upon an equality: merges the run before it, or else merges it with an equality right before it,
      or else passes over it. */
  method AtEquality(diffs: EditList, ghost pre: seq<Edit>, ghost run: seq<Edit>, ghost e: Edit, ghost rest: seq<Edit>,
                    pointer: nat, cd: nat, ci: nat, td: Text, ti: Text, ghost d0: seq<Edit>)
      returns (next: nat, ghost done: seq<Edit>)
    requires diffs.d == pre + run + [e] + rest && pointer == |pre| + |run| && e.op == Equal
    requires Scanned(pre, run, [e] + rest, cd, ci, td, ti) && Kept(diffs.d, d0)
    modifies diffs
    ensures diffs.d == done + rest && next == |done|
    ensures Scanned(done, [], rest, 0, 0, [], []) && Kept(diffs.d, d0)
  {
    if cd + ci > 1 {
      ghost var n, m;
      next, n, m := MergeRun(diffs, pre, run, e, rest, pointer, cd, ci, td, ti);
      MergedRunBetter(pre, run, e, rest, cd, ci, td, ti, n, m);
      KeptStep(pre + run + [e] + rest, diffs.d, d0);
      MergedRunScanned(pre, run, e, rest, cd, ci, td, ti, n, m);
      done := Factored(pre, e, cd, ci, td, ti, n, m);
    } else {
      next, done := PassOrJoin(diffs, pre, run, e, rest, pointer, cd, ci, td, ti, d0);
    }
  }

  /** Upon an insertion or a deletion: gathers it. */
  method GatherEdit(diffs: EditList, ghost pre: seq<Edit>, ghost run: seq<Edit>, ghost e: Edit, ghost rest: seq<Edit>,
                    pointer: nat, cd: nat, ci: nat, td: Text, ti: Text)
      returns (countDelete: nat, countInsert: nat, textDelete: Text, textInsert: Text)
    requires diffs.d == pre + run + [e] + rest && pointer == |pre| + |run| && e.op != Equal
    requires Scanned(pre, run, [e] + rest, cd, ci, td, ti)
    ensures Scanned(pre, run + [e], rest, countDelete, countInsert, textDelete, textInsert)
  {
    ScanEdit(pre, run, e, rest, cd, ci, td, ti);
    countDelete, countInsert, textDelete, textInsert := cd, ci, td, ti;
    if diffs.d[pointer].op == Insert {
      countInsert := countInsert + 1;
      textInsert := textInsert + diffs.d[pointer].text;
    } else {
      countDelete := countDelete + 1;
      textDelete := textDelete + diffs.d[pointer].text;
    }
  }

  /** How the list is cut during the scan: merged, a run of edits, not yet scanned. */
  datatype Cut = Cut(pre: seq<Edit>, run: seq<Edit>, post: seq<Edit>)

  ghost predicate Scanning(d: seq<Edit>, d0: seq<Edit>, cut: Cut, p: nat, cd: nat, ci: nat, td: Text, ti: Text) {
    && d == cut.pre + cut.run + cut.post && p == |cut.pre| + |cut.run|
    && Scanned(cut.pre, cut.run, cut.post, cd, ci, td, ti) && Kept(d, d0)
  }

  lemma ScanStart(d: seq<Edit>, d0: seq<Edit>) returns (cut: Cut)
    requires d == d0 + [Edit(Equal, [])]
    ensures Scanning(d, d0, cut, 0, 0, 0, [], [])
  {
    KeptAtFirst(d0);
    cut := Cut([], [], d);
    assert [] + [] + d == d;
  }

  lemma ScanEnd(d: seq<Edit>, d0: seq<Edit>, cut: Cut, p: nat, cd: nat, ci: nat, td: Text, ti: Text)
    requires Scanning(d, d0, cut, p, cd, ci, td, ti) && p >= |d|
    ensures Kept(d, d0) && Chain(d) && EndsEqual(d)
  {
    assert d == cut.pre;
  }

  method ScanStep(diffs: EditList, ghost d0: seq<Edit>, ghost cut: Cut, pointer: nat, cd: nat, ci: nat, td: Text, ti: Text)
      returns (ghost next: Cut, p: nat, countDelete: nat, countInsert: nat, textDelete: Text, textInsert: Text)
    requires Scanning(diffs.d, d0, cut, pointer, cd, ci, td, ti) && pointer < |diffs.d|
    modifies diffs
    ensures Scanning(diffs.d, d0, next, p, countDelete, countInsert, textDelete, textInsert)
    ensures |next.post| < |cut.post|
  {
    ghost var pre, run := cut.pre, cut.run;
    ghost var e, rest := NextEntry(pre, run, cut.post, diffs.d);
    if diffs.d[pointer].op != Equal {
      countDelete, countInsert, textDelete, textInsert := GatherEdit(diffs, pre, run, e, rest, pointer, cd, ci, td, ti);
      p := pointer + 1;
      next := Cut(pre, run + [e], rest);
    } else {
      ghost var done;
      p, done := AtEquality(diffs, pre, run, e, rest, pointer, cd, ci, td, ti, d0);
      countDelete, countInsert, textDelete, textInsert := 0, 0, [], [];
      next := Cut(done, [], rest);
      assert done + [] == done;
    }
  }

  /** Merges runs of edits and equalities in a row, up to the dummy equality at the end. */
  method ScanAll(diffs: EditList, ghost d0: seq<Edit>)
    requires diffs.d == d0 + [Edit(Equal, [])]
    modifies diffs
    ensures Kept(diffs.d, d0) && Chain(diffs.d) && EndsEqual(diffs.d)
  {
    var pointer: nat, countDelete: nat, countInsert: nat := 0, 0, 0;
    var textDelete: Text, textInsert: Text := [], [];
    ghost var cut := ScanStart(diffs.d, d0);
    while pointer < |diffs.d|
      invariant Scanning(diffs.d, d0, cut, pointer, countDelete, countInsert, textDelete, textInsert)
      decreases |cut.post|
    {
      cut, pointer, countDelete, countInsert, textDelete, textInsert :=
        ScanStep(diffs, d0, cut, pointer, countDelete, countInsert, textDelete, textInsert);
    }
    ScanEnd(diffs.d, d0, cut, pointer, countDelete, countInsert, textDelete, textInsert);
  }

  /** The first pass. */
  method FirstPass(diffs: EditList)
    modifies diffs
    ensures SameTexts(diffs.d, old(diffs.d)) && Chain(diffs.d)
    ensures Edited(diffs.d) <= Edited(old(diffs.d))
    ensures Edited(diffs.d) == Edited(old(diffs.d)) ==> |diffs.d| <= |old(diffs.d)|
    ensures Solid(old(diffs.d)) ==> Solid(diffs.d)
  {
    ghost var d0 := diffs.d;
    diffs.d := diffs.d + [Edit(Equal, [])];
    ScanAll(diffs, d0);
    if diffs.d[|diffs.d| - 1].text == [] {
      DropDummy(diffs.d, d0);
      diffs.d := diffs.d[..|diffs.d| - 1];
    } else if Solid(d0) {
      KeepLast(diffs.d);
    }
  }

  lemma DropDummy(d: seq<Edit>, d0: seq<Edit>)
    requires Kept(d, d0) && Chain(d) && d[|d| - 1] == Edit(Equal, [])
    ensures var r := d[..|d| - 1];
            && SameTexts(r, d0) && Chain(r) && (Solid(d0) ==> Solid(r))
            && Edited(r) <= Edited(d0) && (Edited(r) == Edited(d0) ==> |r| <= |d0|)
  {
    var init := d[..|d| - 1];
    assert d == init + [Edit(Equal, [])];
    EqualSnoc(init, Edit(Equal, []));
    Empty(Text1(init));
    Empty(Text2(init));
  }

  lemma Empty(t: Text)
    ensures t + [] == t
  {}

  lemma KeepLast(d: seq<Edit>)
    requires 0 < |d| && Solid(d[..|d| - 1]) && d[|d| - 1].text != []
    ensures Solid(d)
  {
    forall i | 0 <= i < |d| && d[i].op == Equal ensures d[i].text != [] {
      if i < |d| - 1 { assert d[..|d| - 1][i] == d[i]; }
    }
  }

  // ---------------------------------------------------------------------------
  // Second pass

  /** The edit at i stands between two equalities and can be shifted over one of them. */
  predicate Shiftable(d: seq<Edit>, i: int) {
    && 0 < i < |d| - 1 && d[i - 1].op == Equal && d[i + 1].op == Equal
    && (EndsWith(d[i].text, d[i - 1].text) || StartsWith(d[i].text, d[i + 1].text))
  }

  ghost predicate NoShift(d: seq<Edit>) {
    forall i: int {:trigger Shiftable(d, i)} :: !Shiftable(d, i)
  }

  /** Shifting over the previous equality x; the code cuts the edit's text by the slice `[:-len(x)]`. */
  function ShiftedLeft(x: Edit, t: Edit, y: Edit): seq<Edit> {
    [Edit(t.op, x.text + DropLast(t.text, |x.text|)), Edit(y.op, x.text + y.text)]
  }

  function ShiftedRight(x: Edit, t: Edit, y: Edit): seq<Edit> {
    [Edit(x.op, x.text + y.text), Edit(t.op, Drop(t.text, |y.text|) + y.text)]
  }

  /** A shift to the left keeps both texts exactly if it is over an equality with text, or if
      nothing was there to shift. */
  lemma ShiftLeftTexts(x: Edit, t: Edit, y: Edit)
    requires x.op == Equal && y.op == Equal && EndsWith(t.text, x.text)
    ensures SameTexts(ShiftedLeft(x, t, y), [x, t, y]) <==> x.text != [] || t.text == []
    ensures Edited(ShiftedLeft(x, t, y)) <= Edited([x, t, y])
  {
    var u := DropLast(t.text, |x.text|);
    TextsOf3(x, t, y);
    TextsOf2(Edit(t.op, x.text + u), Edit(y.op, x.text + y.text));
    ShiftMeasure(x, t, y, Edit(t.op, x.text + u), Edit(y.op, x.text + y.text));
    if x.text != [] {
      assert t.text == u + x.text;
      AroundLeft(x.text, u, y.text);
    }
  }

  lemma AroundLeft(x: Text, u: Text, y: Text)
    ensures x + (u + x) + y == (x + u) + (x + y) && x + [] + y == [] + (x + y)
  {}

  lemma AroundRight(x: Text, u: Text, y: Text)
    ensures x + (y + u) + y == (x + y) + (u + y) && x + [] + y == (x + y) + []
  {}

  lemma ShiftMeasure(x: Edit, t: Edit, y: Edit, e: Edit, f: Edit)
    requires x.op == Equal && y.op == Equal && Changed(e) + Changed(f) <= Changed(t)
    ensures Edited([e, f]) <= Edited([x, t, y])
  {
    EditedOf2(e, f);
    EditedOf2(x, t);
    EditedSnoc([x, t], y);
    assert [x, t] + [y] == [x, t, y];
  }

  lemma ShiftRightTexts(x: Edit, t: Edit, y: Edit)
    requires x.op == Equal && y.op == Equal && StartsWith(t.text, y.text)
    ensures SameTexts(ShiftedRight(x, t, y), [x, t, y])
    ensures Edited(ShiftedRight(x, t, y)) <= Edited([x, t, y])
  {
    var u := Drop(t.text, |y.text|);
    TextsOf3(x, t, y);
    TextsOf2(Edit(x.op, x.text + y.text), Edit(t.op, u + y.text));
    ShiftMeasure(x, t, y, Edit(x.op, x.text + y.text), Edit(t.op, u + y.text));
    assert t.text == y.text + u;
    AroundRight(x.text, u, y.text);
  }

  /** The entries around an index that has both neighbours. */
  lemma Around(d: seq<Edit>, p: nat) returns (pre: seq<Edit>, x: Edit, t: Edit, y: Edit, rest: seq<Edit>)
    requires 0 < p < |d| - 1
    ensures x == d[p - 1] && t == d[p] && y == d[p + 1]
    ensures pre == d[..p - 1] && rest == d[p + 2..] && d == pre + [x, t, y] + rest
  {
    pre, x, t, y, rest := d[..p - 1], d[p - 1], d[p], d[p + 1], d[p + 2..];
  }

  lemma InTheMiddle(pre: seq<Edit>, a: seq<Edit>, b: seq<Edit>, rest: seq<Edit>)
    ensures SameTexts(a, b) ==> SameTexts(pre + a + rest, pre + b + rest)
    ensures Edited(a) <= Edited(b) ==> Edited(pre + a + rest) <= Edited(pre + b + rest)
    ensures Solid(pre + b + rest) && Solid(a) ==> Solid(pre + a + rest)
  {
    TextsConcat3(pre, a, rest);
    TextsConcat3(pre, b, rest);
    EditedConcat3(pre, a, rest);
    EditedConcat3(pre, b, rest);
    SolidMiddle(pre, a, b, rest);
  }

  lemma SolidMiddle(pre: seq<Edit>, a: seq<Edit>, b: seq<Edit>, rest: seq<Edit>)
    ensures Solid(pre + b + rest) && Solid(a) ==> Solid(pre + a + rest)
  {
    var d, r := pre + b + rest, pre + a + rest;
    if Solid(d) && Solid(a) {
      forall i | 0 <= i < |r| && r[i].op == Equal ensures r[i].text != [] {
        if i < |pre| { assert d[i] == r[i]; }
        else if i < |pre + a| { assert r[i] == a[i - |pre|]; }
        else { assert d[i - |a| + |b|] == r[i]; }
      }
    }
  }

  /** One shift at p makes the list shorter without more edits; if the list is solid it stays so and
      keeps its texts. */
  ghost predicate Shifted(d: seq<Edit>, e: seq<Edit>) {
    && |e| < |d| && Edited(e) <= Edited(d)
    && (Solid(d) ==> Solid(e) && SameTexts(e, d))
  }

  /** An empty equality before an insertion of "ab": the list is merged, the insertion is to be shifted
      over the equality, and the shift loses it. */
  lemma EmptyEqualityLoses()
    ensures var x, t, y := Edit(Equal, []), Edit(Insert, [97, 98]), Edit(Equal, [99]);
            && Chain([x, t, y]) && !Solid([x, t, y]) && Shiftable([x, t, y], 1) && EndsWith(t.text, x.text)
            && Text2([x, t, y]) == [97, 98, 99] && Text2(ShiftedLeft(x, t, y)) == [99]
  {
    var x, t, y := Edit(Equal, []), Edit(Insert, [97, 98]), Edit(Equal, [99]);
    ChainSnoc([x], t);
    ChainSnoc([x, t], y);
    assert [x] + [t] == [x, t] && [x, t] + [y] == [x, t, y];
    TextsOf3(x, t, y);
    var nothing: Text := [];
    assert DropLast(t.text, 0) == nothing && nothing + nothing == nothing && nothing + y.text == y.text;
    assert ShiftedLeft(x, t, y) == [Edit(Insert, []), y];
    TextsOf2(Edit(Insert, []), y);
  }

  method ShiftAt(diffs: EditList, pointer: nat)
    requires Shiftable(diffs.d, pointer)
    modifies diffs
    ensures Shifted(old(diffs.d), diffs.d)
  {
    var d := diffs.d;
    ghost var pre, x, t, y, rest := Around(d, pointer);
    var previous, edit, next := d[pointer - 1], d[pointer], d[pointer + 1];
    if EndsWith(edit.text, previous.text) {
      diffs.d := d[..pointer - 1] + ShiftedLeft(previous, edit, next) + d[pointer + 2..];
      ShiftLeftTexts(x, t, y);
      InTheMiddle(pre, ShiftedLeft(x, t, y), [x, t, y], rest);
    } else {
      diffs.d := d[..pointer - 1] + ShiftedRight(previous, edit, next) + d[pointer + 2..];
      ShiftRightTexts(x, t, y);
      InTheMiddle(pre, ShiftedRight(x, t, y), [x, t, y], rest);
    }
    if Solid(d) { assert d[pointer - 1] == x && d[pointer + 1] == y; }
  }

  /** The second pass: one sweep of shifts; the shifted edit moves one place when an entry before
      it goes, so the pointer always advances by one. */
  method SecondPass(diffs: EditList) returns (changes: bool)
    modifies diffs
    ensures changes ==> Shifted(old(diffs.d), diffs.d)
    ensures !changes ==> diffs.d == old(diffs.d) && NoShift(diffs.d)
  {
    changes := false;
    var pointer := 1;
    while pointer < |diffs.d| - 1
      invariant 1 <= pointer
      invariant changes ==> Shifted(old(diffs.d), diffs.d)
      invariant !changes ==> diffs.d == old(diffs.d)
      invariant !changes ==> forall i: int {:trigger Shiftable(diffs.d, i)} :: i < pointer ==> !Shiftable(diffs.d, i)
      decreases |diffs.d| - pointer
    {
      if Shiftable(diffs.d, pointer) {
        ShiftAt(diffs, pointer);
        changes := true;
      }
      pointer := pointer + 1;
    }
  }

  /** `diff_cleanupMerge`: on a list without empty equalities keeps both texts; on any list it
      ends, with edits no longer in total than before, in a merged list where no edit can be shifted. */
  method CleanupMerge(diffs: EditList)
    modifies diffs
    ensures Solid(old(diffs.d)) ==> SameTexts(diffs.d, old(diffs.d)) && Solid(diffs.d)
    ensures Chain(diffs.d) && NoShift(diffs.d)
    ensures Edited(diffs.d) <= Edited(old(diffs.d))
    decreases Edited(diffs.d), |diffs.d|
  {
    FirstPass(diffs);
    var changes := SecondPass(diffs);
    if changes {
      CleanupMerge(diffs);
    }
  }
}
