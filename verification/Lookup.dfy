/** Field and method lookup (go/types/lookup.go): the breadth-first search with a set of seen
    types and a `multiples` flag finds what the rule of selectors says. */
module Lookup {
  import opened Types
  import opened Selectors
  import opened BreadthFirst

  /** The three results of `lookupFieldOrMethod`. */
  datatype Result = Result(obj: Option<Entity>, index: Path, indirect: bool)

  /** What the rule of selectors makes of a name in T: the unique shallowest entity, its index
      sequence and whether a pointer was followed; or no entity, with the index sequence of an
      ambiguous one, or with none. */
  ghost predicate Selects(g: Graph, T: Ref, pkg: Package, name: string, r: Result)
    requires WellFormed(g) && T in g
  {
    if !Selectable(g, T, name) then r == Result(None, Root, false)
    else if r.obj.Some? then
      && UniqueShallowest(g, T, pkg, name, r.index, r.obj.value)
      && r.index.Via? && r.indirect == Walk(g, T, r.index.before).value.indirect
    else if r.index == Root then Absent(g, T, pkg, name) && !r.indirect
    else Ambiguous(g, T, pkg, name, r.index)
  }

  /** The rule fixes the entity found, its index sequence and the collision verdict. */
  lemma SelectsIsFunctional(g: Graph, T: Ref, pkg: Package, name: string, r: Result, s: Result)
    requires WellFormed(g) && T in g
    requires Selects(g, T, pkg, name, r) && Selects(g, T, pkg, name, s)
    ensures r.obj == s.obj && r.index.Len() == s.index.Len()
    ensures r.obj.Some? ==> r == s
  {
    if r.obj.Some? { NotAmbiguous(g, T, pkg, name, r.index, r.obj.value, s.index); }
    if s.obj.Some? { NotAmbiguous(g, T, pkg, name, s.index, s.obj.value, r.index); }
  }

  lemma NotAmbiguous(g: Graph, T: Ref, pkg: Package, name: string, index: Path, o: Entity, other: Path)
    requires WellFormed(g) && T in g
    ensures UniqueShallowest(g, T, pkg, name, index, o) ==> !Ambiguous(g, T, pkg, name, other)
  {}

  /** No type of the set declares the name itself. */
  ghost predicate NoEntityIn(g: Graph, pkg: Package, name: string, ts: set<Ref>)
    requires WellFormed(g)
  {
    forall t :: t in ts && t in g ==> NoEntityAt(g, pkg, name, t)
  }

  ghost predicate NoEntityAt(g: Graph, pkg: Package, name: string, t: Ref)
    requires WellFormed(g) && t in g
  {
    forall i {:trigger EntityAt(g, t, pkg, name, i)} :: EntityAt(g, t, pkg, name, i).None?
  }

  /** The types of the first j entries that have not been seen before this depth. */
  ghost function Fresh(g: Graph, T: Ref, seen: set<Ref>, current: seq<Entry>, j: nat): set<Ref>
    requires T in g && j <= |current|
  {
    if j == 0 then {} else
    var t := TypeOf(g, T, current[j - 1]);
    Fresh(g, T, seen, current, j - 1) + if t in seen then {} else {t}
  }

  lemma {:induction false} FreshHas(g: Graph, T: Ref, seen: set<Ref>, current: seq<Entry>, j: nat, t: Ref)
    requires T in g && j <= |current|
    ensures t in Fresh(g, T, seen, current, j) <==>
            t !in seen && exists k :: 0 <= k < j && TypeOf(g, T, current[k]) == t
  {
    if j > 0 { FreshHas(g, T, seen, current, j - 1, t); }
  }

  /** Of the index sequences of length d + 1 that end in the name in one of the types ts, there is
      none, or it is the one found. */
  ghost predicate OnlyIn(g: Graph, T: Ref, pkg: Package, name: string, d: nat, ts: set<Ref>, r: Result)
    requires WellFormed(g) && T in g
  {
    if r.obj.None? then r.index == Root && !r.indirect && NoEntityIn(g, pkg, name, ts)
    else
      && r.index.Len() == d + 1
      && Target(g, T, pkg, name, r.index) == r.obj
      && (exists t :: t in ts && Walk(g, T, r.index.before) == Some(Position(t, r.indirect)))
      && forall other :: OtherIn(g, T, pkg, name, d, ts, other) ==> other == r.index
  }

  /** other ends in the name in a type of ts. */
  ghost predicate OtherIn(g: Graph, T: Ref, pkg: Package, name: string, d: nat, ts: set<Ref>, other: Path)
    requires WellFormed(g) && T in g
  {
    && other.Len() == d + 1 && Target(g, T, pkg, name, other).Some?
    && Walk(g, T, other.before).value.typ in ts
  }

  /** The outcome of looking at one more entry: nothing new, the first find, or a collision. */
  datatype Scan = Nothing | Found(i: nat, o: Entity) | Collision(i: nat)

  predicate Hit(f: Field, pkg: Package, name: string) {
    SameId(f.pkg, f.name, pkg, name)
  }

  lemma ChildrenFrom(g: Graph, T: Ref, e: Entry, i: nat, before: seq<Entry>, all: seq<Entry>)
    requires WellFormed(g) && T in g && TypeOf(g, T, e) in g && i < |FieldsOf(g, TypeOf(g, T, e))|
    requires before + Children(g, T, e, FieldsOf(g, TypeOf(g, T, e)), i) == all
    ensures (before + ChildOf(g, e, FieldsOf(g, TypeOf(g, T, e)), i)) +
            Children(g, T, e, FieldsOf(g, TypeOf(g, T, e)), i + 1) == all
  {}

  /** What the search does with the fields of the struct type of e: `next` grows by the children
      of e unless an entity has been found. */
  method ScanFields(g: Graph, T: Ref, e: Entry, pkg: Package, name: string, found: bool, next: seq<Entry>)
      returns (scan: Scan, next': seq<Entry>)
    requires WellFormed(g) && T in g && TypeOf(g, T, e) in g
    ensures var fs := FieldsOf(g, TypeOf(g, T, e));
            match scan
            case Nothing =>
              && (forall k :: 0 <= k < |fs| ==> !Hit(fs[k], pkg, name))
              && next' == if found then next else next + Children(g, T, e, fs, 0)
            case Found(i, o) =>
              && !found && !e.multiples && i < |fs| && o == Var(fs[i])
              && forall k :: 0 <= k < |fs| ==> (Hit(fs[k], pkg, name) <==> k == i)
            case Collision(i) =>
              && i < |fs| && Hit(fs[i], pkg, name)
              && (found || e.multiples || exists k :: 0 <= k < i && Hit(fs[k], pkg, name))
  {
    var fs := FieldsOf(g, TypeOf(g, T, e));
    ghost var all := next + Children(g, T, e, fs, 0);
    scan, next' := Nothing, next;
    var i := 0;
    while i < |fs|
      invariant 0 <= i <= |fs| && !scan.Collision?
      invariant scan.Nothing? ==> forall k :: 0 <= k < i ==> !Hit(fs[k], pkg, name)
      invariant scan.Nothing? && found ==> next' == next
      invariant scan.Nothing? && !found ==> next' + Children(g, T, e, fs, i) == all
      invariant scan.Found? ==>
                  && !found && !e.multiples && scan.i < i && scan.o == Var(fs[scan.i])
                  && forall k :: 0 <= k < i ==> (Hit(fs[k], pkg, name) <==> k == scan.i)
    {
      if Hit(fs[i], pkg, name) {
        if found || scan.Found? || e.multiples {
          scan := Collision(i);
          return;
        }
        scan := Found(i, Var(fs[i]));
      } else if !found && scan.Nothing? {
        ChildrenFrom(g, T, e, i, next', all);
        next' := next' + ChildOf(g, e, fs, i);
      }
      i := i + 1;
    }
  }

  /** What the search does with one entry whose type it has not seen: attached methods first, then
      the fields of a struct or the methods of an interface. */
  method VisitEntry(g: Graph, T: Ref, e: Entry, pkg: Package, name: string, found: bool, next: seq<Entry>)
      returns (scan: Scan, next': seq<Entry>)
    requires WellFormed(g) && T in g && TypeOf(g, T, e) in g
    requires e.typ.Some? <==> g[TypeOf(g, T, e)].Named?
    ensures var t := TypeOf(g, T, e);
            match scan
            case Nothing =>
              && NoEntityAt(g, pkg, name, t)
              && next' == if found then next else next + Children(g, T, e, FieldsOf(g, t), 0)
            case Found(i, o) =>
              !found && !e.multiples && EntityAt(g, t, pkg, name, i) == Some(o) && OnlyAt(g, pkg, name, t, i)
            case Collision(i) =>
              EntityAt(g, t, pkg, name, i).Some? && (found || e.multiples || !OnlyAt(g, pkg, name, t, i))
  {
    var t := TypeOf(g, T, e);
    var typ := t;
    if e.typ.Some? {
      var i := LookupMethod(g[t].methods, pkg, name);
      if i >= 0 {
        scan := if found || e.multiples then Collision(i) else Found(i, Func(g[t].methods[i]));
        return scan, next;
      }
      typ := g[t].underlying;
    }
    match g[typ]
    case Struct(_) =>
      scan, next' := ScanFields(g, T, e, pkg, name, found, next);
      StructEntities(g, t, pkg, name);
      if scan.Collision? && !found && !e.multiples {
        var fs := FieldsOf(g, t);
        var k :| 0 <= k < scan.i && Hit(fs[k], pkg, name);
        assert EntityAt(g, t, pkg, name, k).Some?;
      }
    case Interface(ms) =>
      var i := LookupMethod(ms, pkg, name);
      next' := next;
      if i < 0 {
        scan := Nothing;
      } else if found || e.multiples {
        scan := Collision(i);
      } else {
        scan := Found(i, Func(ms[i]));
      }
    case _ => scan, next' := Nothing, next;
  }

  lemma StructEntities(g: Graph, t: Ref, pkg: Package, name: string)
    requires WellFormed(g) && t in g
    requires Under(g, t).Struct? && (g[t].Named? ==> LookupMethod(g[t].methods, pkg, name) < 0)
    ensures forall i: nat :: EntityAt(g, t, pkg, name, i) ==
              var fs := FieldsOf(g, t);
              if i < |fs| && Hit(fs[i], pkg, name) then Some(Var(fs[i])) else None
  {}

  /** Type t declares the name under no other index than i. */
  ghost predicate OnlyAt(g: Graph, pkg: Package, name: string, t: Ref, i: nat)
    requires WellFormed(g) && t in g
  {
    forall k: nat {:trigger EntityAt(g, t, pkg, name, k)} :: k != i ==> EntityAt(g, t, pkg, name, k).None?
  }

  // ---------------------------------------------------------------------------
  // One entry after the other

  lemma NothingMore(g: Graph, T: Ref, pkg: Package, name: string, d: nat, seen: set<Ref>, current: seq<Entry>, j: nat, r: Result)
    requires WellFormed(g) && T in g && j < |current|
    requires OnlyIn(g, T, pkg, name, d, Fresh(g, T, seen, current, j), r)
    requires TypeOf(g, T, current[j]) in g
    requires TypeOf(g, T, current[j]) in seen || NoEntityAt(g, pkg, name, TypeOf(g, T, current[j]))
    ensures OnlyIn(g, T, pkg, name, d, Fresh(g, T, seen, current, j + 1), r)
  {
    var ts, us := Fresh(g, T, seen, current, j), Fresh(g, T, seen, current, j + 1);
    if r.obj.Some? {
      forall other | OtherIn(g, T, pkg, name, d, us, other) ensures other == r.index {
        assert OtherIn(g, T, pkg, name, d, ts, other);
      }
    }
  }

  lemma FirstFound(g: Graph, T: Ref, pkg: Package, name: string, d: nat, ts: set<Ref>, us: set<Ref>, e: Entry, i: nat, o: Entity)
    requires WellFormed(g) && T in g && NoEntityIn(g, pkg, name, ts)
    requires EntryOk(g, T, d, e) && TypeOf(g, T, e) in g && us == ts + {TypeOf(g, T, e)}
    requires !Repeated(g, T, e.index, TypeOf(g, T, e))
    requires EntityAt(g, TypeOf(g, T, e), pkg, name, i) == Some(o) && OnlyAt(g, pkg, name, TypeOf(g, T, e), i)
    ensures OnlyIn(g, T, pkg, name, d, us, Result(Some(o), Via(e.index, i), e.indirect))
  {
    var t := TypeOf(g, T, e);
    assert t in us && Walk(g, T, Via(e.index, i).before) == Some(Position(t, e.indirect));
    forall other | OtherIn(g, T, pkg, name, d, us, other) ensures other == Via(e.index, i) {
      OnlyThis(g, T, pkg, name, d, ts, e, t, i, other);
    }
  }

  lemma OnlyThis(g: Graph, T: Ref, pkg: Package, name: string, d: nat, ts: set<Ref>, e: Entry, t: Ref, i: nat, other: Path)
    requires WellFormed(g) && T in g && NoEntityIn(g, pkg, name, ts)
    requires e.index.Len() == d && t in g && !Repeated(g, T, e.index, t) && OnlyAt(g, pkg, name, t, i)
    requires other.Len() == d + 1 && Target(g, T, pkg, name, other).Some?
    requires var u := Walk(g, T, other.before).value.typ; u in ts || u == t
    ensures other == Via(e.index, i)
  {
    var p, k := other.before, other.i;
    OnlyEntity(g, pkg, name, ts, t, i, Walk(g, T, p).value.typ, k);
    SamePath(g, T, e.index, p, t);
  }

  lemma OnlyEntity(g: Graph, pkg: Package, name: string, ts: set<Ref>, t: Ref, i: nat, u: Ref, k: nat)
    requires WellFormed(g) && NoEntityIn(g, pkg, name, ts)
    requires t in g && OnlyAt(g, pkg, name, t, i)
    requires u in g && EntityAt(g, u, pkg, name, k).Some? && (u in ts || u == t)
    ensures u == t && k == i
  {
    assert !NoEntityAt(g, pkg, name, u);
  }

  lemma SamePath(g: Graph, T: Ref, path: Path, p: Path, t: Ref)
    requires WellFormed(g) && T in g && !Repeated(g, T, path, t) && LeadsTo(g, T, p, t) && p.Len() == path.Len()
    ensures p == path
  {}

  /** A second find at this depth, or a find in a repeated type, is an ambiguity. */
  lemma CollisionAmbiguous(g: Graph, T: Ref, pkg: Package, name: string, d: nat, seen: set<Ref>, current: seq<Entry>, j: nat, r: Result, i: nat)
    requires WellFormed(g) && T in g && j < |current|
    requires Frontier(g, T, d, seen, current)
    requires forall index: Path :: index.Len() <= d ==> Target(g, T, pkg, name, index).None?
    requires OnlyIn(g, T, pkg, name, d, Fresh(g, T, seen, current, j), r)
    requires var t := TypeOf(g, T, current[j]);
             t in g && t !in seen && EntityAt(g, t, pkg, name, i).Some? &&
             (r.obj.Some? || current[j].multiples || !OnlyAt(g, pkg, name, t, i))
    ensures Ambiguous(g, T, pkg, name, Via(current[j].index, i))
  {
    var e, t := current[j], TypeOf(g, T, current[j]);
    assert EntryOk(g, T, d, e) && MarkOk(g, T, seen, e);
    if !OnlyAt(g, pkg, name, t, i) {
      var k: nat :| k != i && EntityAt(g, t, pkg, name, k).Some?;
      assert Target(g, T, pkg, name, Via(e.index, k)).Some?;
    } else if e.multiples {
      var q: Path :| q != e.index && q.Len() == e.index.Len() && LeadsTo(g, T, q, t);
      assert Target(g, T, pkg, name, Via(q, i)).Some?;
    } else {
      var u :| u in Fresh(g, T, seen, current, j) && Walk(g, T, r.index.before) == Some(Position(u, r.indirect));
      FreshHas(g, T, seen, current, j, u);
      var m :| 0 <= m < j && TypeOf(g, T, current[m]) == u;
      assert TypeOf(g, T, current[m]) != TypeOf(g, T, current[j]);
      }
  }

  // ---------------------------------------------------------------------------
  // One depth after the other

  /** A type that declares the name is not reached by a shorter path. */
  lemma DeclaringNotReached(g: Graph, T: Ref, pkg: Package, name: string, d: nat, t: Ref, i: nat)
    requires WellFormed(g) && T in g && t in g
    requires forall index: Path :: index.Len() <= d ==> Target(g, T, pkg, name, index).None?
    requires EntityAt(g, t, pkg, name, i).Some?
    ensures !Reached(g, T, d, t)
  {
    forall q: Path | q.Len() < d ensures !LeadsTo(g, T, q, t) {
      assert Target(g, T, pkg, name, Via(q, i)).None?;
    }
  }

  lemma DepthDone(g: Graph, T: Ref, pkg: Package, name: string, d: nat, seen: set<Ref>, current: seq<Entry>, r: Result, index: Path)
    requires WellFormed(g) && T in g && Frontier(g, T, d, seen, current)
    requires forall index: Path :: index.Len() <= d ==> Target(g, T, pkg, name, index).None?
    requires OnlyIn(g, T, pkg, name, d, Fresh(g, T, seen, current, |current|), r)
    requires index.Len() == d + 1 && Target(g, T, pkg, name, index).Some?
    ensures r.obj.Some? && index == r.index
  {
    var p, i := index.before, index.i;
    var t := Walk(g, T, p).value.typ;
    DeclaringNotReached(g, T, pkg, name, d, t, i);
    assert LeadsTo(g, T, p, t) && SeenOk(g, T, d, seen, t);
    var k :| 0 <= k < |current| && TypeOf(g, T, current[k]) == t;
    FreshHas(g, T, seen, current, |current|, t);
    assert !NoEntityAt(g, pkg, name, t);
    assert OtherIn(g, T, pkg, name, d, Fresh(g, T, seen, current, |current|), index);
  }

  lemma NothingAtAll(g: Graph, T: Ref, pkg: Package, name: string, d: nat, seen: set<Ref>)
    requires WellFormed(g) && T in g && Frontier(g, T, d, seen, []) && d > 0
    requires forall index: Path :: index.Len() <= d ==> Target(g, T, pkg, name, index).None?
    ensures Absent(g, T, pkg, name)
  {
    forall index ensures Target(g, T, pkg, name, index).None? {
      if index.Via? {
        var p, i := index.before, index.i;
        if Walk(g, T, p).Some? {
          FrontierEnd(g, T, d, seen, p);
          var t := Walk(g, T, p).value.typ;
          assert Reached(g, T, d, t);
          if EntityAt(g, t, pkg, name, i).Some? { DeclaringNotReached(g, T, pkg, name, d, t, i); }
        }
      }
    }
  }

  ghost function NamedTypes(g: Graph): set<Ref> {
    set x | x in g && g[x].Named?
  }

  lemma {:induction false} SeenAfterMore(seen: set<Ref>, es: seq<Entry>)
    ensures seen <= SeenAfter(seen, es)
  {
    if es != [] { SeenAfterMore(seen, es[..|es| - 1]); }
  }

  /** Each depth reaches a new named type, or is the last one. */
  lemma DepthProgress(g: Graph, T: Ref, d: nat, seen: set<Ref>, current: seq<Entry>)
    requires WellFormed(g) && T in g && Frontier(g, T, d, seen, current)
    requires forall k :: 0 <= k < |current| ==> TypeOf(g, T, current[k]) in g && current[k].typ.Some?
    ensures NamedTypes(g) - SeenAfter(seen, current) < NamedTypes(g) - seen || AllChildren(g, T, seen, current) == []
  {
    if j :| 0 <= j < |current| && current[j].typ.value !in seen {
      assert EntryOk(g, T, d, current[j]);
      var t := current[j].typ.value;
      SeenAfterHas(seen, current, t);
      SeenAfterMore(seen, current);
      assert t in NamedTypes(g) - seen && t in SeenAfter(seen, current);
    } else {
      NoFreshNoChildren(g, T, seen, current);
    }
  }

  lemma {:induction false} NoFreshNoChildren(g: Graph, T: Ref, seen: set<Ref>, es: seq<Entry>)
    requires WellFormed(g) && T in g
    requires forall k :: 0 <= k < |es| ==> TypeOf(g, T, es[k]) in g && TypeOf(g, T, es[k]) in seen
    ensures AllChildren(g, T, seen, es) == []
  {
    if es != [] { NoFreshNoChildren(g, T, seen, es[..|es| - 1]); }
  }

  /** What one depth of the search knows when it has looked at the first j entries. */
  ghost predicate Looked(g: Graph, T: Ref, pkg: Package, name: string, d: nat, seen: set<Ref>, current: seq<Entry>,
                         j: nat, r: Result, seen': set<Ref>, next: seq<Entry>)
    requires WellFormed(g) && T in g && j <= |current|
    requires forall k :: 0 <= k < |current| ==> TypeOf(g, T, current[k]) in g
  {
    && OnlyIn(g, T, pkg, name, d, Fresh(g, T, seen, current, j), r)
    && seen' == SeenAfter(seen, current[..j])
    && (r.obj.None? ==> next == AllChildren(g, T, seen, current[..j]))
  }

  lemma AllChildrenNext(g: Graph, T: Ref, seen: set<Ref>, current: seq<Entry>, j: nat)
    requires WellFormed(g) && T in g && j < |current|
    requires forall k :: 0 <= k < |current| ==> TypeOf(g, T, current[k]) in g
    ensures var t := TypeOf(g, T, current[j]);
            AllChildren(g, T, seen, current[..j + 1]) ==
            AllChildren(g, T, seen, current[..j]) + if t in seen then [] else Children(g, T, current[j], FieldsOf(g, t), 0)
  {
    assert current[..j + 1][..j] == current[..j];
  }

  /** One entry of `current`. */
  method LookAt(g: Graph, T: Ref, pkg: Package, name: string, ghost d: nat, ghost seen: set<Ref>, current: seq<Entry>,
                j: nat, r: Result, seen': set<Ref>, next: seq<Entry>)
      returns (stop: bool, r1: Result, seen1: set<Ref>, next1: seq<Entry>)
    requires WellFormed(g) && T in g && Frontier(g, T, d, seen, current)
    requires forall k :: 0 <= k < |current| ==> TypeOf(g, T, current[k]) in g
    requires forall index: Path :: index.Len() <= d ==> Target(g, T, pkg, name, index).None?
    requires j < |current| && Looked(g, T, pkg, name, d, seen, current, j, r, seen', next)
    ensures stop ==> r1.obj.None? && r1.index != Root && Ambiguous(g, T, pkg, name, r1.index)
    ensures !stop ==> Looked(g, T, pkg, name, d, seen, current, j + 1, r1, seen1, next1)
  {
    stop, r1, seen1, next1 := false, r, seen', next;
    var e := current[j];
    assert EntryOk(g, T, d, e);
    AllChildrenNext(g, T, seen, current, j);
    SeenBefore(g, T, d, seen, current, j);
    if e.typ.Some? && e.typ.value in seen' {
      NothingMore(g, T, pkg, name, d, seen, current, j, r);
      return;
    }
    if e.typ.Some? {
      seen1 := seen1 + {e.typ.value};
    }
    var scan;
    scan, next1 := VisitEntry(g, T, e, pkg, name, r.obj.Some?, next);
    match scan
    case Nothing =>
      NothingMore(g, T, pkg, name, d, seen, current, j, r);
    case Found(i, o) =>
      assert MarkOk(g, T, seen, e);
      FirstFound(g, T, pkg, name, d, Fresh(g, T, seen, current, j), Fresh(g, T, seen, current, j + 1), e, i, o);
      r1 := Result(Some(o), Via(e.index, i), e.indirect);
    case Collision(i) =>
      CollisionAmbiguous(g, T, pkg, name, d, seen, current, j, r, i);
      stop, r1 := true, Result(None, Via(e.index, i), r.indirect);
  }

  /** One depth of the search: every entry of `current` in turn. */
  method SearchDepth(g: Graph, T: Ref, pkg: Package, name: string, ghost d: nat, seen: set<Ref>, current: seq<Entry>)
      returns (stop: bool, r: Result, seen': set<Ref>, next: seq<Entry>)
    requires WellFormed(g) && T in g && Frontier(g, T, d, seen, current)
    requires forall k :: 0 <= k < |current| ==> TypeOf(g, T, current[k]) in g
    requires forall index: Path :: index.Len() <= d ==> Target(g, T, pkg, name, index).None?
    requires Selectable(g, T, name)
    ensures stop ==> Selects(g, T, pkg, name, r)
    ensures !stop ==> r == Result(None, Root, false) && seen' == SeenAfter(seen, current)
    ensures !stop ==> next == AllChildren(g, T, seen, current)
    ensures !stop ==> forall index: Path :: index.Len() <= d + 1 ==> Target(g, T, pkg, name, index).None?
  {
    stop, r, seen', next := false, Result(None, Root, false), seen, [];
    var j := 0;
    while j < |current|
      invariant 0 <= j <= |current|
      invariant Looked(g, T, pkg, name, d, seen, current, j, r, seen', next)
    {
      stop, r, seen', next := LookAt(g, T, pkg, name, d, seen, current, j, r, seen', next);
      if stop {
        return;
      }
      j := j + 1;
    }
    assert current[..j] == current;
    forall index: Path | index.Len() == d + 1 && Target(g, T, pkg, name, index).Some?
      ensures r.obj.Some? && index == r.index
    {
      DepthDone(g, T, pkg, name, d, seen, current, r, index);
    }
    stop := r.obj.Some?;
  }

  /** The test against the growing set of seen types is a test against the types seen before this
      depth: the entries of one depth have different types. */
  lemma SeenBefore(g: Graph, T: Ref, d: nat, seen: set<Ref>, current: seq<Entry>, j: nat)
    requires WellFormed(g) && T in g && Frontier(g, T, d, seen, current) && j < |current|
    ensures current[j].typ.Some? ==>
              (current[j].typ.value in SeenAfter(seen, current[..j]) <==> current[j].typ.value in seen)
    ensures current[j].typ.None? ==> TypeOf(g, T, current[j]) !in seen
    ensures SeenAfter(seen, current[..j + 1]) ==
            SeenAfter(seen, current[..j]) + if current[j].typ.Some? then {current[j].typ.value} else {}
  {
    var e, before := current[j], current[..j];
    assert EntryOk(g, T, d, e) && SeenOk(g, T, d, seen, TypeOf(g, T, e));
    assert current[..j + 1][..j] == before;
    if e.typ.Some? {
      SeenAfterHas(seen, before, e.typ.value);
      forall k | 0 <= k < j ensures before[k].typ != e.typ {
        assert TypeOf(g, T, current[k]) != TypeOf(g, T, e);
      }
    }
  }

  /** The next depth is in order, and it is closer to the end. */
  lemma NextDepth(g: Graph, T: Ref, d: nat, seen: set<Ref>, current: seq<Entry>)
    requires WellFormed(g) && T in g && Frontier(g, T, d, seen, current)
    requires forall k :: 0 <= k < |current| ==> TypeOf(g, T, current[k]) in g
    requires d > 0 ==> forall k :: 0 <= k < |current| ==> current[k].typ.Some?
    ensures var next := Merged(AllChildren(g, T, seen, current));
            && Frontier(g, T, d + 1, SeenAfter(seen, current), next)
            && (forall k :: 0 <= k < |next| ==> next[k].typ.Some?)
            && (d > 0 ==> NamedTypes(g) - SeenAfter(seen, current) < NamedTypes(g) - seen || |next| == 0)
    ensures NamedTypes(g) - SeenAfter(seen, current) <= NamedTypes(g) - seen
  {
    var list := AllChildren(g, T, seen, current);
    MergedConsolidated(list);
    MergedTypes(list, None);
    FrontierStep(g, T, d, seen, current, Merged(list));
    SeenAfterMore(seen, current);
    if d > 0 { DepthProgress(g, T, d, seen, current); }
  }

  method Consolidate(list: seq<Entry>) returns (next: seq<Entry>)
    ensures next == Merged(list)
  {
    var entries := new Entry[|list|](i requires 0 <= i < |list| => list[i]);
    assert entries[..] == list;
    var n := ConsolidateMultiples(entries);
    next := entries[..n];
  }

  /** `lookupFieldOrMethod`. */
  method LookupFieldOrMethodFrom(g: Graph, T: Ref, pkg: Package, name: string) returns (r: Result)
    requires WellFormed(g) && T in g
    ensures Selects(g, T, pkg, name, r)
  {
    r := Result(None, Root, false);
    DerefIn(g, T);
    var (typ, isPtr) := Deref(g, T);
    if name == "_" || (isPtr && Under(g, typ).Interface?) {
      return;
    }
    var current := [Entry(if g[typ].Named? then Some(typ) else None, Root, isPtr, false)];
    var seen: set<Ref> := {};
    FrontierStart(g, T, current[0]);
    ghost var d := 0;
    while |current| > 0
      invariant Frontier(g, T, d, seen, current)
      invariant forall index: Path :: index.Len() <= d ==> Target(g, T, pkg, name, index).None?
      invariant r == Result(None, Root, false)
      invariant d == 0 ==> |current| > 0
      invariant d > 0 ==> forall k :: 0 <= k < |current| ==> current[k].typ.Some?
      decreases if d == 0 then 1 else 0, NamedTypes(g) - seen, |current|
    {
      FrontierTypes(g, T, d, seen, current);
      NextDepth(g, T, d, seen, current);
      var stop, list;
      stop, r, seen, list := SearchDepth(g, T, pkg, name, d, seen, current);
      if stop {
        return;
      }
      current := Consolidate(list);
      d := d + 1;
    }
    NothingAtAll(g, T, pkg, name, d, seen);
  }
}
