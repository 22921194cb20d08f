/** The rule of selectors, stated on embedding paths (Go Programming Language Specification,
    "Selectors"): x.f denotes the field or method at the shallowest depth at which there is one,
    and there must be exactly one. */
module Selectors {
  import opened Types

  ghost predicate WellFormed(g: Graph) {
    Closed(g) && forall x {:trigger g[x].underlying} :: x in g && g[x].Named? ==> g[x].underlying in g
  }

  /** `deref`. */
  function Deref(g: Graph, t: Ref): (Ref, bool)
    requires t in g
  {
    if g[t].Pointer? then (g[t].elem, true) else (t, false)
  }

  lemma DerefIn(g: Graph, t: Ref)
    requires Closed(g) && t in g
    ensures Deref(g, t).0 in g
  {
    if g[t].Pointer? { assert Parts(g[t])[0] == g[t].elem; }
  }

  /** The underlying type of a type. */
  function Under(g: Graph, t: Ref): Node
    requires WellFormed(g) && t in g
  {
    if g[t].Named? then g[g[t].underlying] else g[t]
  }

  /** The named type embedded by field i of t, and whether it is embedded through a pointer. */
  function Embedded(g: Graph, t: Ref, i: nat): (r: Option<(Ref, bool)>)
    requires WellFormed(g) && t in g
    ensures r.Some? ==> r.value.0 in g && g[r.value.0].Named?
  {
    var u := if g[t].Named? then g[t].underlying else t;
    match g[u]
    case Struct(fs) =>
      if i < |fs| && fs[i].anonymous then
        assert Parts(g[u])[i] == fs[i].typ;
        DerefIn(g, fs[i].typ);
        var (e, isPtr) := Deref(g, fs[i].typ);
        if g[e].Named? then Some((e, isPtr)) else None
      else None
    case _ => None
  }

  /** An index sequence, read from its end: field indices of embedded types, last of all the index
      of a field or method. */
  datatype Path = Root | Via(before: Path, i: nat) {
    function Len(): nat {
      match this
      case Root => 0
      case Via(p, _) => p.Len() + 1
    }
  }

  datatype Position = Position(typ: Ref, indirect: bool)

  /** Where an embedding path leads, starting at T, and whether a pointer was followed on the way. */
  function Walk(g: Graph, T: Ref, path: Path): (r: Option<Position>)
    requires WellFormed(g) && T in g
    ensures r.Some? ==> r.value.typ in g && (path.Via? ==> g[r.value.typ].Named?)
  {
    match path
    case Root =>
      DerefIn(g, T);
      Some(Position(Deref(g, T).0, Deref(g, T).1))
    case Via(p, i) =>
      var before := Walk(g, T, p);
      if before.None? then None else
      var e := Embedded(g, before.value.typ, i);
      if e.None? then None else Some(Position(e.value.0, before.value.indirect || e.value.1))
  }

  ghost predicate LeadsTo(g: Graph, T: Ref, path: Path, t: Ref)
    requires WellFormed(g) && T in g
  {
    Walk(g, T, path).Some? && Walk(g, T, path).value.typ == t
  }

  /** What a type path can end in. */
  datatype Entity = Var(field: Field) | Func(fn: Method)

  /** `lookupMethod`: the index of the first method with the given identifier, or -1. */
  function LookupMethod(methods: seq<Method>, pkg: Package, name: string): (r: int)
    ensures -1 <= r < |methods|
  {
    if methods == [] || name == "_" then -1
    else if SameId(methods[0].pkg, methods[0].name, pkg, name) then 0
    else
      var r := LookupMethod(methods[1..], pkg, name);
      if r < 0 then -1 else r + 1
  }

  lemma {:induction false} LookupMethodFirst(methods: seq<Method>, pkg: Package, name: string)
    requires name != "_"
    ensures var r := LookupMethod(methods, pkg, name);
            && (r >= 0 ==> SameId(methods[r].pkg, methods[r].name, pkg, name))
            && forall i :: 0 <= i < (if r >= 0 then r else |methods|) ==> !SameId(methods[i].pkg, methods[i].name, pkg, name)
  {
    if methods != [] && !SameId(methods[0].pkg, methods[0].name, pkg, name) {
      LookupMethodFirst(methods[1..], pkg, name);
      var r := LookupMethod(methods, pkg, name);
      forall i | 0 <= i < (if r >= 0 then r else |methods|)
        ensures !SameId(methods[i].pkg, methods[i].name, pkg, name)
      {
        assert i > 0 ==> methods[i] == methods[1..][i - 1];
      }
    }
  }

  /** The entity with the given identifier that type t declares itself, under index i: a method
      of a named type, else a field of a struct or a method of an interface. */
  function EntityAt(g: Graph, t: Ref, pkg: Package, name: string, i: nat): Option<Entity>
    requires WellFormed(g) && t in g
  {
    if g[t].Named? && LookupMethod(g[t].methods, pkg, name) >= 0 then
      (if i == LookupMethod(g[t].methods, pkg, name) then Some(Func(g[t].methods[i])) else None)
    else match Under(g, t)
      case Struct(fs) =>
        if i < |fs| && SameId(fs[i].pkg, fs[i].name, pkg, name) then Some(Var(fs[i])) else None
      case Interface(ms) =>
        if i == LookupMethod(ms, pkg, name) then Some(Func(ms[i])) else None
      case _ => None
  }

  /** The entity at the end of an index sequence: an embedding path followed by the index of
      the entity in the type reached. */
  function Target(g: Graph, T: Ref, pkg: Package, name: string, index: Path): Option<Entity>
    requires WellFormed(g) && T in g
  {
    match index
    case Root => None
    case Via(path, i) =>
      var pos := Walk(g, T, path);
      if pos.None? then None else EntityAt(g, pos.value.typ, pkg, name, i)
  }

  /** Blank identifiers denote nothing, and a pointer to an interface has no methods. */
  predicate Selectable(g: Graph, T: Ref, name: string)
    requires WellFormed(g) && T in g
  {
    DerefIn(g, T);
    name != "_" && !(Deref(g, T).1 && Under(g, Deref(g, T).0).Interface?)
  }

  /** index is the only index sequence of its length or shorter that ends in an entity of this name. */
  ghost predicate UniqueShallowest(g: Graph, T: Ref, pkg: Package, name: string, index: Path, o: Entity)
    requires WellFormed(g) && T in g
  {
    && Target(g, T, pkg, name, index) == Some(o)
    && forall other: Path :: other != index && other.Len() <= index.Len() ==> Target(g, T, pkg, name, other).None?
  }

  /** index is one of several shallowest. */
  ghost predicate Ambiguous(g: Graph, T: Ref, pkg: Package, name: string, index: Path)
    requires WellFormed(g) && T in g
  {
    && Target(g, T, pkg, name, index).Some?
    && (forall other: Path :: other.Len() < index.Len() ==> Target(g, T, pkg, name, other).None?)
    && exists other: Path :: other != index && other.Len() == index.Len() && Target(g, T, pkg, name, other).Some?
  }

  ghost predicate Absent(g: Graph, T: Ref, pkg: Package, name: string)
    requires WellFormed(g) && T in g
  {
    forall index: Path :: Target(g, T, pkg, name, index).None?
  }

  // ---------------------------------------------------------------------------
  // The breadth-first frontier shared by lookup and by method sets

  /** `embeddedType`: typ is None for the outermost type if it is not a named type. */
  datatype Entry = Entry(typ: Option<Ref>, index: Path, indirect: bool, multiples: bool)

  function TypeOf(g: Graph, T: Ref, e: Entry): Ref
    requires T in g
  {
    if e.typ.Some? then e.typ.value else Deref(g, T).0
  }

  ghost predicate EntryOk(g: Graph, T: Ref, d: nat, e: Entry)
    requires WellFormed(g) && T in g
  {
    && e.index.Len() == d
    && Walk(g, T, e.index) == Some(Position(TypeOf(g, T, e), e.indirect))
    && (e.typ.Some? <==> g[TypeOf(g, T, e)].Named?)
  }

  /** Some embedding path of a length below d leads to t. */
  ghost predicate Reached(g: Graph, T: Ref, d: nat, t: Ref)
    requires WellFormed(g) && T in g
  {
    exists p: Path :: p.Len() < d && LeadsTo(g, T, p, t)
  }

  /** Another embedding path of the same length leads to the same type. */
  ghost predicate Repeated(g: Graph, T: Ref, path: Path, t: Ref)
    requires WellFormed(g) && T in g
  {
    exists q: Path :: q != path && q.Len() == path.Len() && LeadsTo(g, T, q, t)
  }

  /** What the search knows when it starts on depth d: `seen` are the named types that a shorter
      path reaches; `current` has one entry for every other type that a path of length d reaches,
      marked when several such paths exist. Nothing else is remembered of the paths. */
  ghost predicate Frontier(g: Graph, T: Ref, d: nat, seen: set<Ref>, current: seq<Entry>)
    requires WellFormed(g) && T in g
  {
    && (forall k {:trigger EntryOk(g, T, d, current[k])} :: 0 <= k < |current| ==> EntryOk(g, T, d, current[k]))
    && (forall k, l {:trigger TypeOf(g, T, current[k]), TypeOf(g, T, current[l])} ::
          0 <= k < l < |current| ==> TypeOf(g, T, current[k]) != TypeOf(g, T, current[l]))
    && (forall p: Path, t {:trigger LeadsTo(g, T, p, t)} ::
          p.Len() == d && LeadsTo(g, T, p, t) ==> t in seen || InCurrent(g, T, current, t))
    && (forall k {:trigger MarkOk(g, T, seen, current[k])} :: 0 <= k < |current| ==> MarkOk(g, T, seen, current[k]))
    && (forall t {:trigger SeenOk(g, T, d, seen, t)} :: SeenOk(g, T, d, seen, t))
  }

  ghost predicate MarkOk(g: Graph, T: Ref, seen: set<Ref>, e: Entry)
    requires WellFormed(g) && T in g
  {
    TypeOf(g, T, e) !in seen ==> (e.multiples <==> Repeated(g, T, e.index, TypeOf(g, T, e)))
  }

  ghost predicate SeenOk(g: Graph, T: Ref, d: nat, seen: set<Ref>, t: Ref)
    requires WellFormed(g) && T in g
  {
    t in seen <==> t in g && g[t].Named? && Reached(g, T, d, t)
  }

  ghost predicate InCurrent(g: Graph, T: Ref, current: seq<Entry>, t: Ref)
    requires T in g
  {
    exists k :: 0 <= k < |current| && TypeOf(g, T, current[k]) == t
  }

  /** The entries that a struct type contributes to the next depth, from field i on. */
  function Children(g: Graph, T: Ref, e: Entry, fields: seq<Field>, i: nat): (r: seq<Entry>)
    requires WellFormed(g) && T in g && i <= |fields|
    requires forall k :: 0 <= k < |fields| ==> fields[k].typ in g
    decreases |fields| - i
  {
    if i == |fields| then [] else ChildOf(g, e, fields, i) + Children(g, T, e, fields, i + 1)
  }

  function ChildOf(g: Graph, e: Entry, fields: seq<Field>, i: nat): (r: seq<Entry>)
    requires WellFormed(g) && i < |fields| && fields[i].typ in g
    ensures |r| <= 1
  {
    DerefIn(g, fields[i].typ);
    var (t, isPtr) := Deref(g, fields[i].typ);
    if fields[i].anonymous && g[t].Named? then
      [Entry(Some(t), Via(e.index, i), e.indirect || isPtr, e.multiples)]
    else []
  }

  function FieldsOf(g: Graph, t: Ref): (r: seq<Field>)
    requires WellFormed(g) && t in g
    ensures forall k :: 0 <= k < |r| ==> r[k].typ in g
  {
    var u := if g[t].Named? then g[t].underlying else t;
    assert g[u].Struct? ==> forall k :: 0 <= k < |g[u].fields| ==> Parts(g[u])[k] == g[u].fields[k].typ;
    if g[u].Struct? then g[u].fields else []
  }

  /** The entries that all unseen entries contribute to the next depth. */
  function AllChildren(g: Graph, T: Ref, seen: set<Ref>, es: seq<Entry>): seq<Entry>
    requires WellFormed(g) && T in g
    requires forall k :: 0 <= k < |es| ==> TypeOf(g, T, es[k]) in g
  {
    if es == [] then [] else
    var e := es[|es| - 1];
    AllChildren(g, T, seen, es[..|es| - 1]) +
    (if TypeOf(g, T, e) in seen then [] else Children(g, T, e, FieldsOf(g, TypeOf(g, T, e)), 0))
  }

  /** c is the contribution of field i of the type of e. */
  ghost predicate ChildAt(g: Graph, T: Ref, e: Entry, i: nat, c: Entry)
    requires WellFormed(g) && T in g && TypeOf(g, T, e) in g
  {
    var m := Embedded(g, TypeOf(g, T, e), i);
    m.Some? && c == Entry(Some(m.value.0), Via(e.index, i), e.indirect || m.value.1, e.multiples)
  }

  lemma {:induction false} ChildrenSound(g: Graph, T: Ref, e: Entry, i: nat, k: nat) returns (j: nat)
    requires WellFormed(g) && T in g && TypeOf(g, T, e) in g
    requires var fs := FieldsOf(g, TypeOf(g, T, e)); i <= |fs| && k < |Children(g, T, e, fs, i)|
    ensures i <= j && ChildAt(g, T, e, j, Children(g, T, e, FieldsOf(g, TypeOf(g, T, e)), i)[k])
    decreases |FieldsOf(g, TypeOf(g, T, e))| - i
  {
    var fs := FieldsOf(g, TypeOf(g, T, e));
    var h := ChildOf(g, e, fs, i);
    if k < |h| {
      j := i;
      assert Children(g, T, e, fs, i)[k] == h[0];
    } else {
      j := ChildrenSound(g, T, e, i + 1, k - |h|);
    }
  }

  lemma {:induction false} ChildrenComplete(g: Graph, T: Ref, e: Entry, i: nat, j: nat, c: Entry)
    requires WellFormed(g) && T in g && TypeOf(g, T, e) in g
    requires i <= j && i <= |FieldsOf(g, TypeOf(g, T, e))| && ChildAt(g, T, e, j, c)
    ensures c in Children(g, T, e, FieldsOf(g, TypeOf(g, T, e)), i)
    decreases j - i
  {
    var fs := FieldsOf(g, TypeOf(g, T, e));
    if i == j {
      assert ChildOf(g, e, fs, i) == [c];
    } else {
      ChildrenComplete(g, T, e, i + 1, j, c);
    }
  }

  lemma {:induction false} ChildrenDistinct(g: Graph, T: Ref, e: Entry, i: nat, k: nat, l: nat)
    requires WellFormed(g) && T in g && TypeOf(g, T, e) in g
    requires var fs := FieldsOf(g, TypeOf(g, T, e)); i <= |fs| && k < l < |Children(g, T, e, fs, i)|
    ensures var cs := Children(g, T, e, FieldsOf(g, TypeOf(g, T, e)), i); cs[k].index != cs[l].index
    decreases |FieldsOf(g, TypeOf(g, T, e))| - i
  {
    var fs := FieldsOf(g, TypeOf(g, T, e));
    var h := ChildOf(g, e, fs, i);
    if k < |h| {
      var j := ChildrenSound(g, T, e, i + 1, l - |h|);
    } else {
      ChildrenDistinct(g, T, e, i + 1, k - |h|, l - |h|);
    }
  }

  /** Every entry of the next depth is a child of an unseen entry. */
  ghost predicate Origin(g: Graph, T: Ref, seen: set<Ref>, es: seq<Entry>, c: Entry, m: nat, j: nat)
    requires WellFormed(g) && T in g
    requires forall k :: 0 <= k < |es| ==> TypeOf(g, T, es[k]) in g
  {
    m < |es| && TypeOf(g, T, es[m]) !in seen && ChildAt(g, T, es[m], j, c)
  }

  lemma {:induction false} AllChildrenSound(g: Graph, T: Ref, seen: set<Ref>, es: seq<Entry>, k: nat)
      returns (m: nat, j: nat)
    requires WellFormed(g) && T in g
    requires forall k :: 0 <= k < |es| ==> TypeOf(g, T, es[k]) in g
    requires k < |AllChildren(g, T, seen, es)|
    ensures Origin(g, T, seen, es, AllChildren(g, T, seen, es)[k], m, j)
  {
    var init := AllChildren(g, T, seen, es[..|es| - 1]);
    if k < |init| {
      m, j := AllChildrenSound(g, T, seen, es[..|es| - 1], k);
    } else {
      var e := es[|es| - 1];
      j := ChildrenSound(g, T, e, 0, k - |init|);
      m := |es| - 1;
    }
  }

  lemma {:induction false} AllChildrenComplete(g: Graph, T: Ref, seen: set<Ref>, es: seq<Entry>, c: Entry, m: nat, j: nat)
    requires WellFormed(g) && T in g
    requires forall k :: 0 <= k < |es| ==> TypeOf(g, T, es[k]) in g
    requires Origin(g, T, seen, es, c, m, j)
    ensures c in AllChildren(g, T, seen, es)
  {
    if m == |es| - 1 {
      ChildrenComplete(g, T, es[m], 0, j, c);
    } else {
      AllChildrenComplete(g, T, seen, es[..|es| - 1], c, m, j);
    }
  }

  ghost predicate DistinctIndexes(es: seq<Entry>) {
    forall a, b :: 0 <= a < b < |es| ==> es[a].index != es[b].index
  }

  lemma ChildrenOfDifferent(g: Graph, T: Ref, seen: set<Ref>, es: seq<Entry>, e: Entry, k: nat, l: nat)
    requires WellFormed(g) && T in g && TypeOf(g, T, e) in g
    requires forall k :: 0 <= k < |es| ==> TypeOf(g, T, es[k]) in g
    requires forall a :: 0 <= a < |es| ==> es[a].index != e.index
    requires k < |AllChildren(g, T, seen, es)|
    requires l < |Children(g, T, e, FieldsOf(g, TypeOf(g, T, e)), 0)|
    ensures AllChildren(g, T, seen, es)[k].index != Children(g, T, e, FieldsOf(g, TypeOf(g, T, e)), 0)[l].index
  {
    var m, i := AllChildrenSound(g, T, seen, es, k);
    var j := ChildrenSound(g, T, e, 0, l);
  }

  lemma {:induction false} AllChildrenDistinct(g: Graph, T: Ref, seen: set<Ref>, es: seq<Entry>)
    requires WellFormed(g) && T in g
    requires forall k :: 0 <= k < |es| ==> TypeOf(g, T, es[k]) in g
    requires DistinctIndexes(es)
    ensures DistinctIndexes(AllChildren(g, T, seen, es))
  {
    if es != [] {
      var e, before := es[|es| - 1], es[..|es| - 1];
      AllChildrenDistinct(g, T, seen, before);
      var init := AllChildren(g, T, seen, before);
      if TypeOf(g, T, e) !in seen {
        var last := Children(g, T, e, FieldsOf(g, TypeOf(g, T, e)), 0);
        var all := init + last;
        assert AllChildren(g, T, seen, es) == all;
        forall k, l | 0 <= k < l < |all| ensures all[k].index != all[l].index {
          if k < |init| <= l {
            ChildrenOfDifferent(g, T, seen, before, e, k, l - |init|);
          } else if |init| <= k {
            ChildrenDistinct(g, T, e, 0, k - |init|, l - |init|);
          }
        }
      }
    }
  }
}
