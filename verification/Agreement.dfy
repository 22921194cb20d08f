/** How lookup and method sets agree (the debug check of go/types/call.go, lines 374-400, relies on
    it), and where they do not. */
module Agreement {
  import opened Types
  import opened Selectors
  import opened BreadthFirst
  import opened Lookup
  import opened MethodSets

  function NameOf(e: Entity): string {
    if e.Var? then e.field.name else e.fn.name
  }

  function PkgOf(e: Entity): Package {
    if e.Var? then e.field.pkg else e.fn.pkg
  }

  /** What the type checker guarantees of declarations: identifiers are proper, no type declares
      two fields or methods of one name (blank fields aside), a named interface type has no methods
      of its own, and methods of interfaces have no pointer receivers. */
  ghost predicate Declarations(g: Graph)
    requires WellFormed(g)
  {
    && InterfacesPlain(g)
    && forall t {:trigger DeclarationsAt(g, t)} :: t in g ==> DeclarationsAt(g, t)
  }

  ghost predicate DeclarationsAt(g: Graph, t: Ref)
    requires WellFormed(g) && t in g
  {
    && (forall kind, i :: 0 <= i < |Declared(kind, g, t)| ==>
          ProperName(PkgOf(Declared(kind, g, t)[i]), NameOf(Declared(kind, g, t)[i])))
    && (forall kind, i, kind', j ::
          && 0 <= i < |Declared(kind, g, t)| && 0 <= j < |Declared(kind', g, t)|
          && NameOf(Declared(kind, g, t)[i]) != "_"
          && IdOf(Declared(kind, g, t)[i]) == IdOf(Declared(kind', g, t)[j])
          ==> kind == kind' && i == j)
    && (Under(g, t).Interface? ==> forall i :: 0 <= i < |MethodsOf(g, t)| ==> !MethodsOf(g, t)[i].ptrRecv)
  }

  /** What type t declares under an identifier is found there by `EntityAt`. */
  lemma DeclaredIsEntity(kind: Kind, g: Graph, t: Ref, pkg: Package, name: string, i: nat)
    requires WellFormed(g) && Declarations(g) && t in g && ProperName(pkg, name) && name != "_"
    requires i < |Declared(kind, g, t)| && IdOf(Declared(kind, g, t)[i]) == Id(pkg, name)
    ensures EntityAt(g, t, pkg, name, i) == Some(Declared(kind, g, t)[i])
  {
    assert DeclarationsAt(g, t);
    var x, ms := Declared(kind, g, t)[i], MethodsOf(g, t);
    SameIdIffEqualIds(PkgOf(x), NameOf(x), pkg, name);
    LookupMethodFirst(ms, pkg, name);
    var r := LookupMethod(ms, pkg, name);
    if r >= 0 {
      SameIdIffEqualIds(ms[r].pkg, ms[r].name, pkg, name);
      assert Declared(Methods, g, t)[r] == Func(ms[r]);
      assert NameOf(x) == name;
      assert kind == Methods && r == i;
    }
    assert kind == Methods ==> SameId(ms[i].pkg, ms[i].name, pkg, name);
  }

  /** And nothing else is. */
  lemma EntityIsDeclared(g: Graph, t: Ref, pkg: Package, name: string, i: nat) returns (kind: Kind)
    requires WellFormed(g) && Declarations(g) && t in g && ProperName(pkg, name) && name != "_"
    requires EntityAt(g, t, pkg, name, i).Some?
    ensures i < |Declared(kind, g, t)| && IdOf(Declared(kind, g, t)[i]) == Id(pkg, name)
    ensures EntityAt(g, t, pkg, name, i) == Some(Declared(kind, g, t)[i]) && (kind.Fields? <==> Declared(kind, g, t)[i].Var?)
  {
    assert DeclarationsAt(g, t);
    var x := EntityAt(g, t, pkg, name, i).value;
    kind := if x.Var? then Fields else Methods;
    if g[t].Named? { LookupMethodFirst(g[t].methods, pkg, name); }
    if Under(g, t).Interface? { LookupMethodFirst(Under(g, t).allMethods, pkg, name); }
    assert i < |Declared(kind, g, t)| && Declared(kind, g, t)[i] == x;
    SameIdIffEqualIds(PkgOf(x), NameOf(x), pkg, name);
  }

  lemma CandIsTarget(kind: Kind, g: Graph, T: Ref, pkg: Package, name: string, index: Path)
    requires WellFormed(g) && Declarations(g) && T in g && ProperName(pkg, name) && name != "_"
    requires Cand(kind, g, T, Id(pkg, name), index)
    ensures Target(g, T, pkg, name, index) == Some(CandSel(kind, g, T, Id(pkg, name), index).entity)
  {
    DeclaredIsEntity(kind, g, Walk(g, T, index.before).value.typ, pkg, name, index.i);
  }

  /** A type reached by some path is reached by a shortest one. */
  lemma {:induction false} ShortestPath(g: Graph, T: Ref, p: Path, t: Ref) returns (q: Path)
    requires WellFormed(g) && T in g && LeadsTo(g, T, p, t)
    ensures LeadsTo(g, T, q, t) && q.Len() <= p.Len() && !Reached(g, T, q.Len(), t)
    ensures !Reached(g, T, p.Len(), t) ==> q == p
    decreases p.Len()
  {
    if Reached(g, T, p.Len(), t) {
      var r: Path :| r.Len() < p.Len() && LeadsTo(g, T, r, t);
      q := ShortestPath(g, T, r, t);
    } else {
      q := p;
    }
  }

  /** Every entity that a path finds is a candidate at its depth or above. */
  lemma TargetHasCand(g: Graph, T: Ref, pkg: Package, name: string, index: Path) returns (kind: Kind, other: Path)
    requires WellFormed(g) && Declarations(g) && T in g && ProperName(pkg, name) && name != "_"
    requires Target(g, T, pkg, name, index).Some?
    ensures other.Len() <= index.Len() && Cand(kind, g, T, Id(pkg, name), other)
    ensures other.Len() == index.Len() ==> other == index
    ensures other == index ==> CandSel(kind, g, T, Id(pkg, name), index).entity == Target(g, T, pkg, name, index).value
    ensures kind.Fields? <==> CandSel(kind, g, T, Id(pkg, name), other).entity.Var?
  {
    var t := Walk(g, T, index.before).value.typ;
    kind := EntityIsDeclared(g, t, pkg, name, index.i);
    assert LeadsTo(g, T, index.before, t);
    var q := ShortestPath(g, T, index.before, t);
    other := Via(q, index.i);
    if q.Len() == index.before.Len() {
      assert !Reached(g, T, index.before.Len(), t);
    }
  }

  /** Main result, first half. Whenever lookup finds a method, the method set has under its identifier
      that same method with the same index path if a pointer was followed or the method has a value
      receiver, and nothing at all otherwise. */
  lemma FoundMethodInSet(g: Graph, T: Ref, pkg: Package, name: string, index: Path, m: Method, sel: Sel)
    requires WellFormed(g) && Declarations(g) && T in g && ProperName(pkg, name) && Selectable(g, T, name)
    requires UniqueShallowest(g, T, pkg, name, index, Func(m))
    ensures index.Via? && Walk(g, T, index.before).Some?
    ensures InMethodSet(g, T, Id(pkg, name), sel) <==>
            && sel.entity == Func(m) && sel.index == index
            && sel.indirect == (Walk(g, T, index.before).value.indirect || Under(g, Walk(g, T, index.before).value.typ).Interface?)
            && (Walk(g, T, index.before).value.indirect || !m.ptrRecv)
  {
    var key := Id(pkg, name);
    FoundIsOnly(g, T, pkg, name, index, m);
    var t := Walk(g, T, index.before).value.typ;
    assert OnlyCand(Methods, g, T, key, index) && Hides(g, T, key, index.Len());
    assert forall n: nat :: n < index.Len() ==> !Hides(g, T, key, n);
    assert Under(g, t).Interface? && Walk(g, T, index.before).value.indirect == false ==> !m.ptrRecv by {
      assert DeclarationsAt(g, t);
    }
    if InMethodSet(g, T, key, sel) {
      assert sel.index.Len() <= index.Len();
    }
  }

  /** The method found is the only candidate, field or method, at its depth or above. */
  lemma FoundIsOnly(g: Graph, T: Ref, pkg: Package, name: string, index: Path, m: Method)
    requires WellFormed(g) && Declarations(g) && T in g && ProperName(pkg, name) && name != "_"
    requires UniqueShallowest(g, T, pkg, name, index, Func(m))
    ensures Cand(Methods, g, T, Id(pkg, name), index)
    ensures CandSel(Methods, g, T, Id(pkg, name), index).entity == Func(m)
    ensures MethodsOf(g, Walk(g, T, index.before).value.typ)[index.i] == m
    ensures forall kind, other: Path ::
              Cand(kind, g, T, Id(pkg, name), other) && other.Len() <= index.Len() ==> other == index && kind == Methods
  {
    var key := Id(pkg, name);
    var kind, other := TargetHasCand(g, T, pkg, name, index);
    CandIsTarget(kind, g, T, pkg, name, other);
    assert other == index && kind == Methods;
    forall kind, other | Cand(kind, g, T, key, other) && other.Len() <= index.Len() ensures other == index && kind == Methods {
      CandIsTarget(kind, g, T, pkg, name, other);
    }
  }

  /** Main result, second half. A method of the method set is what lookup finds if and only if no
      field of its name lies at a shallower depth: a single such field hides the method from lookup
      but not from the method set. */
  lemma SetMethodFound(g: Graph, T: Ref, pkg: Package, name: string, sel: Sel)
    requires WellFormed(g) && Declarations(g) && T in g && ProperName(pkg, name) && name != "_"
    requires InMethodSet(g, T, Id(pkg, name), sel)
    ensures UniqueShallowest(g, T, pkg, name, sel.index, sel.entity) <==>
            forall n: nat :: n < sel.index.Len() ==> !SomeCand(Fields, g, T, Id(pkg, name), n)
  {
    var key := Id(pkg, name);
    CandIsTarget(Methods, g, T, pkg, name, sel.index);
    if UniqueShallowest(g, T, pkg, name, sel.index, sel.entity) {
      forall n: nat | n < sel.index.Len() ensures !SomeCand(Fields, g, T, key, n) {
        forall index: Path | index.Len() == n ensures !Cand(Fields, g, T, key, index) {
          if Cand(Fields, g, T, key, index) {
            CandIsTarget(Fields, g, T, pkg, name, index);
          }
        }
      }
    }
    if forall n: nat :: n < sel.index.Len() ==> !SomeCand(Fields, g, T, key, n) {
      forall index: Path | index != sel.index && index.Len() <= sel.index.Len()
        ensures Target(g, T, pkg, name, index).None?
      {
        if Target(g, T, pkg, name, index).Some? {
          var kind, other := TargetHasCand(g, T, pkg, name, index);
          var hides := Hides(g, T, key, other.Len());
          assert false;
        }
      }
    }
  }

  /** The debug check never fails: a method call that the checker accepts finds its method in the
      method set of the operand's type, or of the pointer P to it when the operand is a variable. */
  lemma DebugCheckHolds(g: Graph, T: Ref, P: Ref, pkg: Package, name: string, index: Path, m: Method, variable: bool)
    requires WellFormed(g) && Declarations(g) && T in g && P in g && g[P] == Pointer(T)
    requires ProperName(pkg, name) && Selectable(g, T, name)
    requires UniqueShallowest(g, T, pkg, name, index, Func(m))
    requires index.Via? && Walk(g, T, index.before).Some?
    requires Walk(g, T, index.before).value.indirect || variable || !m.ptrRecv
    ensures var typ := if variable && !g[T].Pointer? && !Under(g, T).Interface? then P else T;
            exists sel :: InMethodSet(g, typ, Id(pkg, name), sel) && sel.entity == Func(m)
  {
    var typ := if variable && !g[T].Pointer? && !Under(g, T).Interface? then P else T;
    if variable && !g[T].Pointer? && !Under(g, T).Interface? {
      forall p: Path { ThroughPointer(g, T, P, p); }
      assert forall index: Path :: Target(g, P, pkg, name, index) == Target(g, T, pkg, name, index);
      assert UniqueShallowest(g, P, pkg, name, index, Func(m));
    } else if variable {
      ReceiverHolds(g, T, pkg, name, index, m);
    }
    var pos := Walk(g, typ, index.before).value;
    var sel := Sel(Func(m), index, pos.indirect || Under(g, pos.typ).Interface?);
    FoundMethodInSet(g, typ, pkg, name, index, m, sel);
  }

  /** From P = *T the same types are reached as from T, all of them through a pointer. */
  lemma {:induction false} ThroughPointer(g: Graph, T: Ref, P: Ref, p: Path)
    requires WellFormed(g) && T in g && P in g && g[P] == Pointer(T) && !g[T].Pointer?
    ensures Walk(g, P, p).Some? <==> Walk(g, T, p).Some?
    ensures Walk(g, P, p).Some? ==> Walk(g, P, p).value == Position(Walk(g, T, p).value.typ, true)
  {
    if p.Via? { ThroughPointer(g, T, P, p.before); }
  }

  lemma {:induction false} PointerStays(g: Graph, T: Ref, p: Path)
    requires WellFormed(g) && T in g && g[T].Pointer? && Walk(g, T, p).Some?
    ensures Walk(g, T, p).value.indirect
  {
    if p.Via? { PointerStays(g, T, p.before); }
  }

  /** A pointer operand, or an interface operand, needs no address. */
  lemma ReceiverHolds(g: Graph, T: Ref, pkg: Package, name: string, index: Path, m: Method)
    requires WellFormed(g) && Declarations(g) && T in g && (g[T].Pointer? || Under(g, T).Interface?)
    requires index.Via? && Target(g, T, pkg, name, index) == Some(Func(m)) && ProperName(pkg, name) && name != "_"
    ensures Walk(g, T, index.before).value.indirect || !m.ptrRecv
  {
    if g[T].Pointer? {
      PointerStays(g, T, index.before);
    } else {
      NoPathsInInterface(g, T, index.before);
      assert DeclarationsAt(g, T);
      var kind := EntityIsDeclared(g, T, pkg, name, index.i);
      assert Declared(kind, g, T)[index.i] == Func(MethodsOf(g, T)[index.i]);
    }
  }

  lemma {:induction false} NoPathsInInterface(g: Graph, T: Ref, p: Path)
    requires WellFormed(g) && T in g && !g[T].Pointer? && Under(g, T).Interface? && Walk(g, T, p).Some?
    ensures p == Root
  {
    if p.Via? { NoPathsInInterface(g, T, p.before); }
  }

  // ---------------------------------------------------------------------------
  // A single shallow field is not recorded

  /** struct { M int; E } with func (E) M(): lookup of M finds the field, yet M is in the method set. */
  function Shadowed(): Graph {
    map[
      0 := Basic(2),
      1 := Struct([]),
      2 := Named(1, 1, [Method(7, Some("p"), "M", 0, false)]),
      3 := Struct([Field(Some("p"), "M", 0, false, ""), Field(Some("p"), "E", 2, true, "")])
    ]
  }

  lemma ShadowingNotRecorded()
    ensures var g := Shadowed();
            && WellFormed(g) && Declarations(g)
            && UniqueShallowest(g, 3, Some("p"), "M", Via(Root, 0), Var(g[3].fields[0]))
            && InMethodSet(g, 3, Id(Some("p"), "M"), Sel(Func(g[2].methods[0]), Via(Via(Root, 1), 0), false))
  {
    ShadowedDeclares();
    ShadowedSelects();
    ShadowedCollects();
  }

  lemma ShadowedFacts()
    ensures var g := Shadowed();
            && WellFormed(g)
            && FieldsOf(g, 3) == g[3].fields && MethodsOf(g, 3) == []
            && FieldsOf(g, 2) == [] && MethodsOf(g, 2) == g[2].methods
            && FieldsOf(g, 1) == [] && MethodsOf(g, 1) == []
            && FieldsOf(g, 0) == [] && MethodsOf(g, 0) == []
            && Walk(g, 3, Root) == Some(Position(3, false)) && Walk(g, 3, Via(Root, 1)) == Some(Position(2, false))
    ensures Id(Some("p"), "M") == "M" && Id(Some("p"), "E") == "E"
  {
    var g := Shadowed();
    assert WellFormed(g);
    ShadowedPaths(Root);
    ShadowedPaths(Via(Root, 1));
  }

  lemma ShadowedDeclares()
    ensures WellFormed(Shadowed()) && Declarations(Shadowed())
  {
    var g := Shadowed();
    ShadowedFacts();
    DeclaresFew(g, 0);
    DeclaresFew(g, 1);
    DeclaresFew(g, 2);
    var fs := g[3].fields;
    assert IdOf(Var(fs[0])) == "M" && IdOf(Var(fs[1])) == "E" && "M"[0] != "E"[0];
    assert ProperName(fs[0].pkg, fs[0].name) && ProperName(fs[1].pkg, fs[1].name);
    DeclaresTwo(g, 3, Var(fs[0]), Var(fs[1]));
    forall t | t in g ensures DeclarationsAt(g, t) {
      assert t == 0 || t == 1 || t == 2 || t == 3;
    }
  }

  lemma DeclaresFew(g: Graph, t: Ref)
    requires WellFormed(g) && t in g && !Under(g, t).Interface?
    requires FieldsOf(g, t) == [] && |MethodsOf(g, t)| <= 1
    requires forall i :: 0 <= i < |MethodsOf(g, t)| ==> ProperName(MethodsOf(g, t)[i].pkg, MethodsOf(g, t)[i].name)
    ensures DeclarationsAt(g, t)
  {
    assert |Declared(Fields, g, t)| == 0;
  }

  lemma DeclaresTwo(g: Graph, t: Ref, x: Entity, y: Entity)
    requires WellFormed(g) && t in g && !Under(g, t).Interface?
    requires Declared(Fields, g, t) == [x, y] && MethodsOf(g, t) == [] && IdOf(x) != IdOf(y)
    requires ProperName(PkgOf(x), NameOf(x)) && ProperName(PkgOf(y), NameOf(y))
    ensures DeclarationsAt(g, t)
  {
    assert |Declared(Methods, g, t)| == 0;
  }

  lemma LenZero(p: Path)
    ensures p.Len() == 0 ==> p == Root
  {}

  lemma ShadowedSelects()
    ensures WellFormed(Shadowed())
    ensures UniqueShallowest(Shadowed(), 3, Some("p"), "M", Via(Root, 0), Var(Shadowed()[3].fields[0]))
  {
    var g := Shadowed();
    ShadowedFacts();
    var fs := g[3].fields;
    assert fs[1].name == "E";
    forall i: nat ensures EntityAt(g, 3, Some("p"), "M", i) == if i == 0 then Some(Var(fs[0])) else None {}
    forall other: Path | other != Via(Root, 0) && other.Len() <= 1 ensures Target(g, 3, Some("p"), "M", other).None? {
      if other.Via? { LenZero(other.before); }
    }
  }

  lemma ShadowedCollects()
    ensures WellFormed(Shadowed())
    ensures InMethodSet(Shadowed(), 3, Id(Some("p"), "M"), Sel(Func(Shadowed()[2].methods[0]), Via(Via(Root, 1), 0), false))
  {
    ShadowedFacts();
    ShadowedMethods();
    ShadowedFields();
    SetHasShadowed(Shadowed(), Id(Some("p"), "M"), Shadowed()[2].methods[0]);
  }

  lemma SetHasShadowed(g: Graph, key: string, m: Method)
    requires WellFormed(g) && 3 in g && 2 in g && !Deref(g, 3).1 && !Under(g, 2).Interface? && !m.ptrRecv
    requires Walk(g, 3, Via(Root, 1)) == Some(Position(2, false)) && MethodsOf(g, 2) == [m]
    requires Cand(Methods, g, 3, key, Via(Via(Root, 1), 0))
    requires forall other: Path :: Cand(Methods, g, 3, key, other) ==> other == Via(Via(Root, 1), 0)
    requires Cand(Fields, g, 3, key, Via(Root, 0))
    requires forall other: Path :: Cand(Fields, g, 3, key, other) ==> other == Via(Root, 0)
    ensures InMethodSet(g, 3, key, Sel(Func(m), Via(Via(Root, 1), 0), false))
  {
    var index := Via(Via(Root, 1), 0);
    assert index.Len() == 2;
    NothingHides(g, key, index);
    SetHas(g, 3, key, index, m, Position(2, false));
  }

  lemma SetHas(g: Graph, T: Ref, key: string, index: Path, m: Method, pos: Position)
    requires WellFormed(g) && T in g && !Deref(g, T).1 && pos.typ in g && !m.ptrRecv && !Under(g, pos.typ).Interface?
    requires OnlyCand(Methods, g, T, key, index) && Walk(g, T, index.before) == Some(pos)
    requires index.i < |MethodsOf(g, pos.typ)| && MethodsOf(g, pos.typ)[index.i] == m
    requires !SomeCand(Fields, g, T, key, index.Len()) && forall n: nat :: n < index.Len() ==> !Hides(g, T, key, n)
    ensures InMethodSet(g, T, key, Sel(Func(m), index, pos.indirect))
  {}

  lemma NothingHides(g: Graph, key: string, index: Path)
    requires WellFormed(g) && 3 in g && index.Len() == 2
    requires forall other: Path :: Cand(Methods, g, 3, key, other) ==> other == index
    requires Cand(Fields, g, 3, key, Via(Root, 0))
    requires forall other: Path :: Cand(Fields, g, 3, key, other) ==> other == Via(Root, 0)
    ensures !SomeCand(Fields, g, 3, key, 2) && forall n: nat :: n < 2 ==> !Hides(g, 3, key, n)
  {
    assert Via(Root, 0).Len() == 1 && OnlyCand(Fields, g, 3, key, Via(Root, 0));
  }

  lemma ShadowedMethods()
    ensures WellFormed(Shadowed())
    ensures Cand(Methods, Shadowed(), 3, Id(Some("p"), "M"), Via(Via(Root, 1), 0))
    ensures forall other: Path :: Cand(Methods, Shadowed(), 3, Id(Some("p"), "M"), other) ==> other == Via(Via(Root, 1), 0)
  {
    var g := Shadowed();
    ShadowedFacts();
    forall p: Path { ShadowedPaths(p); }
    assert Declared(Methods, g, 2) == [Func(g[2].methods[0])];
    assert Declared(Methods, g, 3) == [];
    forall p: Path | p.Len() < 1 ensures !LeadsTo(g, 3, p, 2) { assert p == Root; }
  }

  lemma ShadowedFields()
    ensures WellFormed(Shadowed())
    ensures Cand(Fields, Shadowed(), 3, Id(Some("p"), "M"), Via(Root, 0))
    ensures forall other: Path :: Cand(Fields, Shadowed(), 3, Id(Some("p"), "M"), other) ==> other == Via(Root, 0)
  {
    var g := Shadowed();
    ShadowedFacts();
    forall p: Path { ShadowedPaths(p); }
    assert Declared(Fields, g, 2) == [];
    assert Declared(Fields, g, 3) == [Var(g[3].fields[0]), Var(g[3].fields[1])];
  }

  lemma {:induction false} ShadowedPaths(p: Path)
    ensures WellFormed(Shadowed())
    ensures Walk(Shadowed(), 3, p).Some? ==> p == Root || p == Via(Root, 1)
  {
    if p.Via? { ShadowedPaths(p.before); }
  }
}
