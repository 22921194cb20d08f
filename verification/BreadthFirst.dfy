/** One step of the breadth-first search over embedded types: skipping types already seen and
    merging repeated ones into a flag loses nothing. */
module BreadthFirst {
  import opened Types
  import opened Selectors

  /** What `consolidateMultiples` makes of a list: one entry for each type, taken from the list,
      marked if it was marked or if the type occurs again. */
  ghost predicate Consolidated(list: seq<Entry>, r: seq<Entry>) {
    && (forall j {:trigger FromList(list, r[j])} :: 0 <= j < |r| ==> FromList(list, r[j]))
    && DistinctTypes(r)
    && (forall k {:trigger HasType(r, list[k].typ)} :: 0 <= k < |list| ==> HasType(r, list[k].typ))
  }

  ghost predicate FromList(list: seq<Entry>, c: Entry) {
    exists k :: Kept(list, c, k)
  }

  ghost predicate DistinctTypes(r: seq<Entry>) {
    forall i, j :: 0 <= i < j < |r| ==> r[i].typ != r[j].typ
  }

  ghost predicate HasType(r: seq<Entry>, t: Option<Ref>) {
    exists j :: 0 <= j < |r| && r[j].typ == t
  }

  ghost predicate Kept(list: seq<Entry>, c: Entry, k: nat) {
    && k < |list|
    && c == list[k].(multiples := c.multiples)
    && (c.multiples <==> list[k].multiples || OccursAgain(list, k))
  }

  ghost predicate OccursAgain(list: seq<Entry>, k: nat)
    requires k < |list|
  {
    exists l :: 0 <= l < |list| && l != k && list[l].typ == list[k].typ
  }

  /** The seen types after the given entries have been looked at. */
  ghost function SeenAfter(seen: set<Ref>, es: seq<Entry>): set<Ref> {
    if es == [] then seen else
    var t := es[|es| - 1].typ;
    SeenAfter(seen, es[..|es| - 1]) + if t.Some? then {t.value} else {}
  }

  lemma {:induction false} SeenAfterHas(seen: set<Ref>, es: seq<Entry>, t: Ref)
    ensures t in SeenAfter(seen, es) <==> t in seen || exists k :: 0 <= k < |es| && es[k].typ == Some(t)
  {
    if es != [] {
      var init := es[..|es| - 1];
      SeenAfterHas(seen, init, t);
      assert forall k :: 0 <= k < |init| ==> init[k] == es[k];
      if t in SeenAfter(seen, es) && t !in SeenAfter(seen, init) {
        assert es[|es| - 1].typ == Some(t);
      }
    }
  }

  lemma SeenStep(g: Graph, T: Ref, d: nat, seen: set<Ref>, current: seq<Entry>, t: Ref)
    requires WellFormed(g) && T in g && Frontier(g, T, d, seen, current)
    ensures SeenOk(g, T, d + 1, SeenAfter(seen, current), t)
  {
    assert SeenOk(g, T, d, seen, t);
    SeenAfterHas(seen, current, t);
    if t in seen {
      var p: Path :| p.Len() < d && LeadsTo(g, T, p, t);
      assert p.Len() < d + 1;
    } else if t in SeenAfter(seen, current) {
      var k :| 0 <= k < |current| && current[k].typ == Some(t);
      assert EntryOk(g, T, d, current[k]);
      assert LeadsTo(g, T, current[k].index, t) && current[k].index.Len() < d + 1;
    }
    if t !in seen && t in g && g[t].Named? && Reached(g, T, d + 1, t) {
      var p: Path :| p.Len() < d + 1 && LeadsTo(g, T, p, t);
      assert !Reached(g, T, d, t) && p.Len() == d;
      assert InCurrent(g, T, current, t);
      var k :| 0 <= k < |current| && TypeOf(g, T, current[k]) == t;
      assert EntryOk(g, T, d, current[k]);
    }
  }

  /** The last but one type on a path of length d + 1 to a type not reached before has itself not
      been reached before depth d. */
  lemma StepBefore(g: Graph, T: Ref, d: nat, seen: set<Ref>, current: seq<Entry>, p: Path, t: Ref) returns (u: Ref)
    requires WellFormed(g) && T in g && Frontier(g, T, d, seen, current)
    requires p.Len() == d + 1 && LeadsTo(g, T, p, t) && t !in SeenAfter(seen, current)
    ensures LeadsTo(g, T, p.before, u) && u in g && u !in seen && InCurrent(g, T, current, u)
    ensures Embedded(g, u, p.i).Some? && Embedded(g, u, p.i).value.0 == t
  {
    var q, i := p.before, p.i;
    u := Walk(g, T, q).value.typ;
    assert SeenOk(g, T, d, seen, u);
    if u in seen {
      var r: Path :| r.Len() < d && LeadsTo(g, T, r, u);
      assert LeadsTo(g, T, Via(r, i), t) && Via(r, i).Len() < d + 1;
      SeenStep(g, T, d, seen, current, t);
      assert false;
    }
    assert LeadsTo(g, T, q, u);
  }

  /** A path of length d + 1 to a type not reached before runs through an entry of the frontier
      that has not been seen, and that entry contributes an entry for it. */
  lemma FreshStep(g: Graph, T: Ref, d: nat, seen: set<Ref>, current: seq<Entry>, p: Path, t: Ref)
      returns (m: nat, c: Entry)
    requires WellFormed(g) && T in g && Frontier(g, T, d, seen, current)
    requires p.Len() == d + 1 && LeadsTo(g, T, p, t) && t !in SeenAfter(seen, current)
    ensures m < |current| && LeadsTo(g, T, p.before, TypeOf(g, T, current[m]))
    ensures forall k :: 0 <= k < |current| ==> TypeOf(g, T, current[k]) in g
    ensures Origin(g, T, seen, current, c, m, p.i) && c.typ == Some(t)
    ensures c in AllChildren(g, T, seen, current)
  {
    assert forall k :: 0 <= k < |current| ==> EntryOk(g, T, d, current[k]);
    var q, i := p.before, p.i;
    var u := StepBefore(g, T, d, seen, current, p, t);
    m :| 0 <= m < |current| && TypeOf(g, T, current[m]) == u;
    var e := Embedded(g, u, i).value;
    c := Entry(Some(e.0), Via(current[m].index, i), current[m].indirect || e.1, current[m].multiples);
    AllChildrenComplete(g, T, seen, current, c, m, i);
  }

  lemma ChildOk(g: Graph, T: Ref, d: nat, seen: set<Ref>, current: seq<Entry>, c: Entry, m: nat, i: nat)
    requires WellFormed(g) && T in g && Frontier(g, T, d, seen, current)
    requires forall k :: 0 <= k < |current| ==> TypeOf(g, T, current[k]) in g
    requires Origin(g, T, seen, current, c, m, i)
    ensures EntryOk(g, T, d + 1, c) && c.typ.Some?
  {
    assert EntryOk(g, T, d, current[m]);
  }

  lemma FrontierTypes(g: Graph, T: Ref, d: nat, seen: set<Ref>, current: seq<Entry>)
    requires WellFormed(g) && T in g && Frontier(g, T, d, seen, current)
    ensures forall k :: 0 <= k < |current| ==> TypeOf(g, T, current[k]) in g
    ensures DistinctIndexes(current)
  {
    forall k | 0 <= k < |current| ensures TypeOf(g, T, current[k]) in g {
      assert EntryOk(g, T, d, current[k]);
    }
    forall a, b | 0 <= a < b < |current| ensures current[a].index != current[b].index {
      assert EntryOk(g, T, d, current[a]) && EntryOk(g, T, d, current[b]);
      assert TypeOf(g, T, current[a]) != TypeOf(g, T, current[b]);
    }
  }

  lemma DistinctChildren(g: Graph, T: Ref, d: nat, seen: set<Ref>, current: seq<Entry>, k: nat, l: nat)
    requires WellFormed(g) && T in g && Frontier(g, T, d, seen, current)
    requires forall k :: 0 <= k < |current| ==> TypeOf(g, T, current[k]) in g
    requires k != l && k < |AllChildren(g, T, seen, current)| && l < |AllChildren(g, T, seen, current)|
    ensures AllChildren(g, T, seen, current)[k].index != AllChildren(g, T, seen, current)[l].index
  {
    FrontierTypes(g, T, d, seen, current);
    AllChildrenDistinct(g, T, seen, current);
  }

  /** Field i of the type of e leads on to t. */
  lemma StepTo(g: Graph, T: Ref, d: nat, e: Entry, c: Entry, i: nat, q: Path)
    requires WellFormed(g) && T in g && EntryOk(g, T, d, e)
    requires ChildAt(g, T, e, i, c)
    requires LeadsTo(g, T, q, TypeOf(g, T, e))
    ensures LeadsTo(g, T, Via(q, i), TypeOf(g, T, c)) && c.index == Via(e.index, i) && c.typ.Some?
  {
  }

  lemma MarkedIsRepeated(g: Graph, T: Ref, d: nat, seen: set<Ref>, current: seq<Entry>, c: Entry, k: nat)
    requires WellFormed(g) && T in g && Frontier(g, T, d, seen, current)
    requires forall k :: 0 <= k < |current| ==> TypeOf(g, T, current[k]) in g
    requires Kept(AllChildren(g, T, seen, current), c, k)
    requires c.multiples
    ensures Repeated(g, T, c.index, TypeOf(g, T, c))
  {
    var list := AllChildren(g, T, seen, current);
    var m, i := AllChildrenSound(g, T, seen, current, k);
    var e := current[m];
    if list[k].multiples {
      assert EntryOk(g, T, d, e) && MarkOk(g, T, seen, e);
      var q: Path :| q != e.index && q.Len() == e.index.Len() && LeadsTo(g, T, q, TypeOf(g, T, e));
      StepTo(g, T, d, e, list[k], i, q);
    } else {
      var l :| 0 <= l < |list| && l != k && list[l].typ == list[k].typ;
      var n, j := AllChildrenSound(g, T, seen, current, l);
      assert EntryOk(g, T, d, e) && EntryOk(g, T, d, current[n]);
      StepTo(g, T, d, e, list[k], i, e.index);
      StepTo(g, T, d, current[n], list[l], j, current[n].index);
      DistinctChildren(g, T, d, seen, current, k, l);
    }
  }

  lemma RepeatedIsMarked(g: Graph, T: Ref, d: nat, seen: set<Ref>, current: seq<Entry>, c: Entry, k: nat)
    requires WellFormed(g) && T in g && Frontier(g, T, d, seen, current)
    requires forall k :: 0 <= k < |current| ==> TypeOf(g, T, current[k]) in g
    requires Kept(AllChildren(g, T, seen, current), c, k)
    requires TypeOf(g, T, c) !in SeenAfter(seen, current) && Repeated(g, T, c.index, TypeOf(g, T, c))
    ensures c.multiples
  {
    var list := AllChildren(g, T, seen, current);
    var m, i := AllChildrenSound(g, T, seen, current, k);
    var e := current[m];
    assert EntryOk(g, T, d, e) && MarkOk(g, T, seen, e);
    assert forall n :: 0 <= n < |current| ==> EntryOk(g, T, d, current[n]);
    StepTo(g, T, d, e, list[k], i, e.index);
    var p: Path :| p != c.index && p.Len() == c.index.Len() && LeadsTo(g, T, p, c.typ.value);
    var n, b := FreshStep(g, T, d, seen, current, p, c.typ.value);
    var l :| 0 <= l < |list| && list[l] == b;
    if l == k {
      SameParent(g, T, d, e, current[n], b, i, p);
    } else {
      assert OccursAgain(list, k);
    }
  }

  lemma SameParent(g: Graph, T: Ref, d: nat, e: Entry, f: Entry, b: Entry, i: nat, p: Path)
    requires WellFormed(g) && T in g && EntryOk(g, T, d, e) && EntryOk(g, T, d, f)
    requires p.Len() == d + 1 && p != b.index && b.index == Via(e.index, i) == Via(f.index, p.i)
    requires LeadsTo(g, T, p.before, TypeOf(g, T, f))
    ensures Repeated(g, T, e.index, TypeOf(g, T, e))
  {
  }

  /** An entry of the next depth is in order and, if its type has not been reached before, is
      marked exactly when another embedding path of its length leads to its type. */
  lemma NextEntry(g: Graph, T: Ref, d: nat, seen: set<Ref>, current: seq<Entry>, c: Entry, k: nat)
    requires WellFormed(g) && T in g && Frontier(g, T, d, seen, current)
    requires forall k :: 0 <= k < |current| ==> TypeOf(g, T, current[k]) in g
    requires Kept(AllChildren(g, T, seen, current), c, k)
    ensures EntryOk(g, T, d + 1, c) && c.typ.Some?
    ensures MarkOk(g, T, SeenAfter(seen, current), c)
  {
    var m, i := AllChildrenSound(g, T, seen, current, k);
    ChildOk(g, T, d, seen, current, AllChildren(g, T, seen, current)[k], m, i);
    if c.multiples { MarkedIsRepeated(g, T, d, seen, current, c, k); }
    if TypeOf(g, T, c) !in SeenAfter(seen, current) && Repeated(g, T, c.index, TypeOf(g, T, c)) {
      RepeatedIsMarked(g, T, d, seen, current, c, k);
    }
  }

  lemma NextCovers(g: Graph, T: Ref, d: nat, seen: set<Ref>, current: seq<Entry>, next: seq<Entry>, p: Path, t: Ref)
    requires WellFormed(g) && T in g && Frontier(g, T, d, seen, current)
    requires forall k :: 0 <= k < |current| ==> TypeOf(g, T, current[k]) in g
    requires Consolidated(AllChildren(g, T, seen, current), next)
    requires p.Len() == d + 1 && LeadsTo(g, T, p, t) && t !in SeenAfter(seen, current)
    ensures InCurrent(g, T, next, t)
  {
    var list := AllChildren(g, T, seen, current);
    var m, c := FreshStep(g, T, d, seen, current, p, t);
    var k :| 0 <= k < |list| && list[k] == c;
    assert HasType(next, list[k].typ);
    var j :| 0 <= j < |next| && next[j].typ == list[k].typ;
    assert TypeOf(g, T, next[j]) == t;
  }

  /** From one depth to the next. */
  lemma FrontierStep(g: Graph, T: Ref, d: nat, seen: set<Ref>, current: seq<Entry>, next: seq<Entry>)
    requires WellFormed(g) && T in g && Frontier(g, T, d, seen, current)
    requires forall k :: 0 <= k < |current| ==> TypeOf(g, T, current[k]) in g
    requires Consolidated(AllChildren(g, T, seen, current), next)
    ensures Frontier(g, T, d + 1, SeenAfter(seen, current), next)
    ensures forall j :: 0 <= j < |next| ==> next[j].typ.Some?
  {
    var list, seen' := AllChildren(g, T, seen, current), SeenAfter(seen, current);
    forall j | 0 <= j < |next|
      ensures EntryOk(g, T, d + 1, next[j]) && next[j].typ.Some?
      ensures MarkOk(g, T, seen', next[j])
    {
      assert FromList(list, next[j]);
      var k :| Kept(list, next[j], k);
      NextEntry(g, T, d, seen, current, next[j], k);
    }
    forall p: Path, t | p.Len() == d + 1 && LeadsTo(g, T, p, t) ensures t in seen' || InCurrent(g, T, next, t) {
      if t !in seen' { NextCovers(g, T, d, seen, current, next, p, t); }
    }
    var d' := d + 1;
    forall t ensures SeenOk(g, T, d', seen', t) {
      SeenStep(g, T, d, seen, current, t);
    }
  }

  /** Where the search starts. */
  lemma FrontierStart(g: Graph, T: Ref, e: Entry)
    requires WellFormed(g) && T in g
    requires Deref(g, T).0 in g
    requires var (t, isPtr) := Deref(g, T); e == Entry(if g[t].Named? then Some(t) else None, Root, isPtr, false)
    ensures Frontier(g, T, 0, {}, [e])
  {
    assert EntryOk(g, T, 0, e);
    forall p: Path, t | p.Len() == 0 && LeadsTo(g, T, p, t) ensures InCurrent(g, T, [e], t) {
      assert p == Root && TypeOf(g, T, [e][0]) == t;
    }
  }

  /** Where it ends: with an empty frontier every type that any path reaches has been seen, save
      an unnamed outermost type. */
  lemma {:induction false} FrontierEnd(g: Graph, T: Ref, d: nat, seen: set<Ref>, p: Path)
    requires WellFormed(g) && T in g && Frontier(g, T, d, seen, []) && d > 0
    requires Walk(g, T, p).Some?
    ensures exists q: Path :: q.Len() < d && LeadsTo(g, T, q, Walk(g, T, p).value.typ)
  {
    var t := Walk(g, T, p).value.typ;
    if p.Len() < d {
      assert LeadsTo(g, T, p, t);
    } else {
      var q, i := p.before, p.i;
      FrontierEnd(g, T, d, seen, q);
        var r: Path :| r.Len() < d && LeadsTo(g, T, r, Walk(g, T, q).value.typ);
      assert LeadsTo(g, T, Via(r, i), t);
      if Via(r, i).Len() == d {
        assert !InCurrent(g, T, [], t);
        assert SeenOk(g, T, d, seen, t);
      }
    }
  }

  function IndexOf(r: seq<Entry>, t: Option<Ref>): (i: int)
    ensures -1 <= i < |r|
    ensures i >= 0 ==> r[i].typ == t
    ensures i == -1 <==> !HasType(r, t)
  {
    if r == [] then -1
    else if r[|r| - 1].typ == t then |r| - 1
    else
      assert HasType(r, t) ==> HasType(r[..|r| - 1], t);
      IndexOf(r[..|r| - 1], t)
  }

  /** The list with repeated types merged, read from the front. */
  ghost function Merged(list: seq<Entry>): seq<Entry> {
    if list == [] then [] else MergeOne(Merged(list[..|list| - 1]), list[|list| - 1])
  }

  ghost function MergeOne(r: seq<Entry>, e: Entry): seq<Entry> {
    var i := IndexOf(r, e.typ);
    if i >= 0 then r[i := r[i].(multiples := true)] else r + [e]
  }

  lemma MergeOneTypes(r: seq<Entry>, e: Entry, t: Option<Ref>)
    ensures HasType(MergeOne(r, e), t) <==> HasType(r, t) || e.typ == t
    ensures DistinctTypes(r) ==> DistinctTypes(MergeOne(r, e))
  {
    var m := MergeOne(r, e);
    if HasType(r, t) {
      var j :| 0 <= j < |r| && r[j].typ == t;
      assert m[j].typ == t;
    }
    if e.typ == t && IndexOf(r, t) < 0 { assert m[|r|].typ == t; }
  }

  lemma {:induction false} MergedTypes(list: seq<Entry>, t: Option<Ref>)
    ensures HasType(Merged(list), t) <==> HasType(list, t)
    ensures DistinctTypes(Merged(list)) && |Merged(list)| <= |list|
  {
    if list != [] {
      var init := list[..|list| - 1];
      MergedTypes(init, t);
      MergeOneTypes(Merged(init), list[|list| - 1], t);
      if HasType(init, t) {
        var j :| 0 <= j < |init| && init[j].typ == t;
        assert list[j].typ == t;
      }
      if HasType(list, t) && list[|list| - 1].typ != t {
        var j :| 0 <= j < |list| && list[j].typ == t;
        assert init[j].typ == t;
      }
    }
  }

  lemma KeptByMore(init: seq<Entry>, e: Entry, c: Entry, k: nat)
    requires Kept(init, c, k)
    ensures Kept(init + [e], if e.typ == c.typ then c.(multiples := true) else c, k)
  {
    var list := init + [e];
    if OccursAgain(init, k) {
      var l :| 0 <= l < |init| && l != k && init[l].typ == init[k].typ;
      assert list[l].typ == list[k].typ;
    }
    if e.typ == c.typ {
      assert list[|init|].typ == list[k].typ;
    } else if OccursAgain(list, k) {
      var l :| 0 <= l < |list| && l != k && list[l].typ == list[k].typ;
      assert init[l].typ == init[k].typ;
    }
  }

  lemma {:induction false} MergedKeeps(list: seq<Entry>, j: nat) returns (k: nat)
    requires j < |Merged(list)|
    ensures Kept(list, Merged(list)[j], k)
  {
    var e, init := list[|list| - 1], list[..|list| - 1];
    var r := Merged(init);
    assert list == init + [e];
    MergedTypes(init, e.typ);
    if j < |r| {
      k := MergedKeeps(init, j);
      KeptByMore(init, e, r[j], k);
    } else {
      k := |init|;
      assert forall l :: 0 <= l < |init| ==> init[l] == list[l];
      assert IndexOf(r, e.typ) == -1 && !HasType(init, e.typ);
    }
  }

  lemma MergedConsolidated(list: seq<Entry>)
    ensures Consolidated(list, Merged(list))
  {
    var r := Merged(list);
    forall j | 0 <= j < |r| ensures FromList(list, r[j]) {
      var k := MergedKeeps(list, j);
    }
    forall k | 0 <= k < |list| ensures HasType(r, list[k].typ) {
      MergedTypes(list, list[k].typ);
    }
    MergedTypes(list, None);
  }

  /** The loop of `consolidateMultiples`, one entry after the other: r is the part of the list
      kept, prev the index of each type in it. */
  ghost predicate Merging(list: seq<Entry>, k: nat, r: seq<Entry>, prev: map<Option<Ref>, nat>)
    requires k <= |list|
  {
    if k == 0 then r == [] && prev == map[]
    else exists r0, prev0 :: MergeStep(list, k, r0, prev0, r, prev) && Merging(list, k - 1, r0, prev0)
  }

  ghost predicate MergeStep(list: seq<Entry>, k: nat, r0: seq<Entry>, prev0: map<Option<Ref>, nat>,
                            r: seq<Entry>, prev: map<Option<Ref>, nat>)
    requires 0 < k <= |list|
  {
    var e := list[k - 1];
    if e.typ in prev0 then
      && prev == prev0 && prev0[e.typ] < |r0|
      && r == r0[prev0[e.typ] := r0[prev0[e.typ]].(multiples := true)]
    else r == r0 + [e] && prev == prev0[e.typ := |r0|]
  }

  lemma {:induction false} MergingIsMerged(list: seq<Entry>, k: nat, r: seq<Entry>, prev: map<Option<Ref>, nat>)
    requires k <= |list| && Merging(list, k, r, prev)
    ensures r == Merged(list[..k]) && prev == IndexMap(r)
  {
    if k > 0 {
      var r0, prev0 :| MergeStep(list, k, r0, prev0, r, prev) && Merging(list, k - 1, r0, prev0);
      MergingIsMerged(list, k - 1, r0, prev0);
      MergedNext(list, k);
      IndexMapStep(r0, list[k - 1]);
    }
  }

  lemma MergedNext(list: seq<Entry>, k: nat)
    requires 0 < k <= |list|
    ensures Merged(list[..k]) == MergeOne(Merged(list[..k - 1]), list[k - 1])
  {
    assert list[..k][..k - 1] == list[..k - 1];
  }

  lemma MergingBounds(list: seq<Entry>, k: nat, r: seq<Entry>, prev: map<Option<Ref>, nat>, t: Option<Ref>)
    requires k <= |list| && Merging(list, k, r, prev) && t in prev
    ensures prev[t] < |r|
  {
    MergingIsMerged(list, k, r, prev);
    IndexMapIs(r, t);
  }

  lemma MergedAll(list: seq<Entry>)
    ensures forall r, prev :: Merging(list, |list|, r, prev) ==> r == Merged(list)
    ensures |list| <= 1 ==> Merged(list) == list
  {
    forall r, prev | Merging(list, |list|, r, prev) ensures r == Merged(list) {
      MergingIsMerged(list, |list|, r, prev);
      assert list[..|list|] == list;
    }
    if |list| == 1 { assert list[..0] == [] && Merged(list) == MergeOne([], list[0]); }
  }

  /** `consolidateMultiples`: rewrites the list in place and returns the length of the part kept. */
  method ConsolidateMultiples(list: array<Entry>) returns (n: nat)
    modifies list
    ensures n <= list.Length && list[..n] == Merged(old(list[..]))
  {
    MergedAll(list[..]);
    if list.Length <= 1 {
      n := list.Length;
      assert list[..n] == list[..];
    } else {
      ghost var prev;
      n, prev := MergeRepeated(list);
    }
  }

  /** The loop of `consolidateMultiples`. */
  method MergeRepeated(list: array<Entry>) returns (n: nat, ghost last: map<Option<Ref>, nat>)
    modifies list
    ensures n <= list.Length && Merging(old(list[..]), list.Length, list[..n], last)
  {
    ghost var was := list[..];
    n := 0;
    var prev: map<Option<Ref>, nat> := map[];
    var k := 0;
    ghost var r: seq<Entry> := [];
    while k < list.Length
      invariant 0 <= n <= k <= list.Length && |was| == list.Length
      invariant |r| == n && Merging(was, k, r, prev)
      invariant forall j :: 0 <= j < n ==> list[j] == r[j]
      invariant forall j :: k <= j < list.Length ==> list[j] == was[j]
    {
      var e := list[k];
      ghost var (r0, prev0) := (r, prev);
      if e.typ in prev {
        MergingBounds(was, k, r, prev, e.typ);
        var i := prev[e.typ];
        list[i] := list[i].(multiples := true);
        r := r[i := r[i].(multiples := true)];
      } else {
        prev := prev[e.typ := n];
        list[n] := e;
        n := n + 1;
        r := r + [e];
      }
      assert MergeStep(was, k + 1, r0, prev0, r, prev);
      k := k + 1;
    }
    assert list[..n] == r;
    last := prev;
  }

  /** The map `prev`: the index of each type of r. */
  ghost function IndexMap(r: seq<Entry>): map<Option<Ref>, nat> {
    if r == [] then map[] else IndexMap(r[..|r| - 1])[r[|r| - 1].typ := |r| - 1]
  }

  lemma {:induction false} IndexMapIs(r: seq<Entry>, t: Option<Ref>)
    ensures IndexOf(r, t) == if t in IndexMap(r) then IndexMap(r)[t] else -1
  {
    if r != [] { IndexMapIs(r[..|r| - 1], t); }
  }

  lemma {:induction false} SameTypesSameMap(r: seq<Entry>, q: seq<Entry>)
    requires |r| == |q| && forall i :: 0 <= i < |r| ==> r[i].typ == q[i].typ
    ensures IndexMap(r) == IndexMap(q)
  {
    if r != [] { SameTypesSameMap(r[..|r| - 1], q[..|q| - 1]); }
  }

  lemma IndexMapStep(r: seq<Entry>, e: Entry)
    ensures var prev := IndexMap(r);
            if e.typ in prev then
              && prev[e.typ] < |r|
              && MergeOne(r, e) == r[prev[e.typ] := r[prev[e.typ]].(multiples := true)]
              && IndexMap(MergeOne(r, e)) == prev
            else MergeOne(r, e) == r + [e] && IndexMap(MergeOne(r, e)) == prev[e.typ := |r|]
  {
    IndexMapIs(r, e.typ);
    if e.typ in IndexMap(r) {
      SameTypesSameMap(MergeOne(r, e), r);
    } else {
      assert (r + [e])[..|r|] == r;
    }
  }
}
