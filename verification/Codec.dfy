/** Importing what was exported. */
module Codec {
  import opened Types
  import opened TypeGraph
  import opened Constants
  import opened Format
  import opened Mirror
  import opened Sealing
  import opened MirrorSteps
  import opened Export
  import opened Import
  import opened Cleanness

  /** What the importing side starts from: the same predeclared types and universe; packages imported before,
      under their own paths, and in their scopes those named types of the graph that c holds, and no others. */
  ghost predicate Setup(c: Source, predeclared: seq<Ref>, universe: map<string, Ref>, m: Mem) {
    && SourceOk(c) && InUniverse(c, universe) && c.cur.Some? && c.cur.value in c.pkgs
    && (forall i, j :: 0 <= i < j < |predeclared| ==> predeclared[i] != predeclared[j])
    && NIL !in predeclared && (forall r :: r in c.base <==> r in predeclared)
    && m == Mem([NIL] + predeclared, [None], m.heap, map[], {}, m.imports, m.scope, m.next)
    && c.heap == m.heap && Mirror.Store(c, m) && Fresh(c, Start(c, predeclared), m)
  }

  /** The state before anything has been written. */
  function Start(c: Source, predeclared: seq<Ref>): St {
    Initial(predeclared, c.held.Keys)
  }

  /** The numbers of predeclared types are their places in the list. */
  lemma {:induction false} NumberedAt(refs: seq<Ref>, m: map<Ref, nat>)
    requires forall i, j :: 0 <= i < j < |refs| ==> refs[i] != refs[j]
    requires forall i :: 0 <= i < |refs| ==> refs[i] !in m
    ensures var n := Numbered(refs, m);
            && |n| == |m| + |refs| && (forall r :: r in n <==> r in m || r in refs)
            && (forall r :: r in m ==> r in n && n[r] == m[r])
            && (forall i :: 0 <= i < |refs| ==> refs[i] in n && n[refs[i]] == |m| + i)
    decreases |refs|
  {
    if refs != [] {
      var m1, rest := m[refs[0] := |m|], refs[1..];
      NumberedAt(rest, m1);
      assert forall i :: 0 < i < |refs| ==> refs[i] == rest[i - 1];
      assert forall r :: r in refs <==> r == refs[0] || r in rest;
    }
  }

  lemma InitialRelated(c: Source, predeclared: seq<Ref>, universe: map<string, Ref>, m: Mem)
    requires Setup(c, predeclared, universe, m)
    ensures Rel(c, Start(c, predeclared), m)
  {
    var st := Start(c, predeclared);
    InitialImages(c, predeclared, universe, m);
    InitialParts(c, predeclared, universe, m);
    forall r | r in st.types ensures Unique(st, m.typList, r) {
      forall q | q in st.types && Img(st, m.typList, q) == Img(st, m.typList, r) ensures q == r {}
    }
    InitialListed(c, predeclared, m);
    Assemble(c, st, m);
  }

  lemma InitialListed(c: Source, predeclared: seq<Ref>, m: Mem)
    requires SourceOk(c) && (forall r :: r in c.base <==> r in predeclared)
    requires forall i, j :: 0 <= i < j < |predeclared| ==> predeclared[i] != predeclared[j]
    requires NIL !in predeclared
    ensures Listed(c, Start(c, predeclared), m)
  {
    NoPlaces(c);
    StartTypes(c, predeclared);
    assert Uncover(0);
  }

  lemma StartTypes(c: Source, predeclared: seq<Ref>)
    requires forall i, j :: 0 <= i < j < |predeclared| ==> predeclared[i] != predeclared[j]
    requires NIL !in predeclared
    ensures forall r :: r in Start(c, predeclared).types <==> r == NIL || r in predeclared
  {
    NumberedAt(predeclared, map[NIL := 0]);
  }

  lemma NoPlaces(c: Source)
    requires SourceOk(c)
    ensures forall r :: r in c.base || r == NIL ==> !HasPlace(c.g, r)
  {
    assert Seal(0);
  }

  lemma InitialImages(c: Source, predeclared: seq<Ref>, universe: map<string, Ref>, m: Mem)
    requires Setup(c, predeclared, universe, m)
    ensures var st := Start(c, predeclared);
            forall r {:trigger Img(st, m.typList, r)} :: r in st.types ==> Img(st, m.typList, r) == r
  {
    PredeclaredImages(c, predeclared, m.typList);
  }

  lemma PredeclaredImages(c: Source, predeclared: seq<Ref>, list: seq<Ref>)
    requires forall i, j :: 0 <= i < j < |predeclared| ==> predeclared[i] != predeclared[j]
    requires NIL !in predeclared && list == [NIL] + predeclared
    ensures var st := Start(c, predeclared);
            forall r {:trigger Img(st, list, r)} :: r in st.types ==> Img(st, list, r) == r
  {
    var st := Start(c, predeclared);
    NumberedAt(predeclared, map[NIL := 0]);
    forall r | r in st.types ensures Img(st, list, r) == r {
      if r != NIL {
        var i :| 0 <= i < |predeclared| && predeclared[i] == r;
        assert list[1 + i] == r;
      }
    }
  }

  lemma InitialParts(c: Source, predeclared: seq<Ref>, universe: map<string, Ref>, m: Mem)
    requires Setup(c, predeclared, universe, m)
    ensures var st := Start(c, predeclared);
            && Numbers(st, m) && c.base <= st.types.Keys
            && (forall r :: r in st.types && r != NIL ==> Known(c, st, m, r))
  {
    InitialNumbers(c, predeclared, universe, m);
    InitialImages(c, predeclared, universe, m);
    assert Seal(0);
  }

  lemma InitialNumbers(c: Source, predeclared: seq<Ref>, universe: map<string, Ref>, m: Mem)
    requires Setup(c, predeclared, universe, m)
    ensures var st := Start(c, predeclared); Numbers(st, m) && st.types.Keys == c.base + {NIL}
  {
    NumbersAt(predeclared, c.held.Keys, m);
  }

  lemma NumbersAt(predeclared: seq<Ref>, held: set<Ref>, m: Mem)
    requires forall i, j :: 0 <= i < j < |predeclared| ==> predeclared[i] != predeclared[j]
    requires NIL !in predeclared && m.typList == [NIL] + predeclared && m.pkgList == [None]
    ensures var st := Initial(predeclared, held); Numbers(st, m) && forall r :: r in st.types <==> r == NIL || r in predeclared
  {
    NumberedAt(predeclared, map[NIL := 0]);
  }

  /** The importer never has to look into a type in the making. */
  ghost predicate Clean(c: Source, predeclared: seq<Ref>, os: seq<Object>) {
    Emit(c.g, Start(c, predeclared), PackageItems(c.cur, os)).clean
  }

  /** The object that stands for the shared type r was there from the start, and is as it was. */
  ghost predicate Stays(c: Source, st: St, m: Mem, r: Ref) {
    var a := Img(st, m.typList, r);
    r in c.g && a in m.heap && StandsFor(c, r, a, m.heap[a])
  }

  /** Every exported type has one imported type, which has its contents: predeclared types stand for
      themselves, and for a named type that was imported before there is the object from then; any other type
      has the same shape, with images for what it mentions; different types have different images. Receivers are those exported but for signatures of interface methods. */
  ghost predicate Isomorphic(c: Source, st: St, m: Mem) {
    && (forall r {:trigger Img(st, m.typList, r)} :: r in st.types && r != NIL ==>
          Img(st, m.typList, r) in m.heap && if Shared(c, r) then Stays(c, st, m, r) else Done(c, st, m, r))
    && (forall r {:trigger Unique(st, m.typList, r)} :: r in st.types ==> Unique(st, m.typList, r))
    && (forall x {:trigger Rebound(c, st, m, x)} :: x in m.rebound ==> Rebound(c, st, m, x))
  }

  /** What the import leaves: every named type that has a number is in the scope of its package under its name,
      and every numbered package is among the imports; objects, scopes and imports from before stay, and
      nothing else is added to the last two. */
  ghost predicate Recorded(c: Source, predeclared: seq<Ref>, m0: Mem, st: St, m: Mem) {
    && Entered(c, st, m) && OnlyAdded(c, Start(c, predeclared), m0, st, m) && Mirror.Store(c, m)
    && forall a :: a in m0.heap ==> a in m.heap && m.heap[a] == m0.heap[a]
  }

  lemma ImportedRecorded(c: Source, predeclared: seq<Ref>, m0: Mem, st: St, m: Mem)
    requires Rel(c, st, m) && Grown(c, Start(c, predeclared), m0, st, m, {})
    ensures Recorded(c, predeclared, m0, st, m)
  {
    assert Seal(0) && Uncover(0);
  }

  lemma ImportedIsomorphic(c: Source, predeclared: seq<Ref>, universe: map<string, Ref>, m0: Mem, st: St, m: Mem)
    requires Setup(c, predeclared, universe, m0)
    requires Rel(c, st, m) && Grown(c, Start(c, predeclared), m0, st, m, {})
    ensures Isomorphic(c, st, m)
  {
    assert Seal(0);
    NumberedAt(predeclared, map[NIL := 0]);
    forall r | r in st.types && r != NIL
      ensures Img(st, m.typList, r) in m.heap && if Shared(c, r) then Stays(c, st, m, r) else Done(c, st, m, r)
    {
      assert Known(c, st, m, r);
      if !Shared(c, r) { assert r !in Start(c, predeclared).types; }
    }
  }

  /** Exporting a package and importing the data, on machines of any word sizes: the import succeeds
      exactly if the package is clean, and then rebuilds an isomorphic type graph with the same objects. */
  method RoundTrip(world: World, predeclared: seq<Ref>, universe: map<string, Ref>, cur: Option<Pkg>, os: seq<Object>,
                   heap: World, next: Ref, imports: map<string, Pkg>, scope: map<(string, string), Ref>,
                   exportWord: nat, importWord: nat, ghost c: Source)
      returns (ok: bool, importer: Importer, objs: seq<Object>, ghost st: St)
    requires exportWord >= 1 && importWord >= 1 && world == c.g && cur == c.cur
    requires Setup(c, predeclared, universe, Mem([NIL] + predeclared, [None], heap, map[], {}, imports, scope, next))
    requires forall o :: o in os ==> ObjectOk(world, o)
    ensures ok <==> Clean(c, predeclared, os)
    ensures ok ==> Isomorphic(c, st, importer.Snap())
    ensures ok ==> Recorded(c, predeclared, Mem([NIL] + predeclared, [None], heap, map[], {}, imports, scope, next), st, importer.Snap())
    ensures ok ==> ObjsSeen(st, os, |os|) && objs == ImgObjs(st, importer.typList, os, |os|)
  {
    ghost var m0 := Mem([NIL] + predeclared, [None], heap, map[], {}, imports, scope, next);
    ghost var st0 := Start(c, predeclared);
    InitialRelated(c, predeclared, universe, m0);
    SoundFrom(c, predeclared, universe, m0);
    var exporter := new Exporter(world, predeclared, exportWord);
    exporter.ExportData(cur, os, st0);
    importer := new Importer(exporter.data, predeclared, universe, heap, next, imports, scope, importWord);
    ok, objs, st := importer.ImportData(c, st0, os);
    if ok {
      ImportedIsomorphic(c, predeclared, universe, m0, st, importer.Snap());
      ImportedRecorded(c, predeclared, m0, st, importer.Snap());
    }
  }

  /** x is the signature rebuilt for method i of the interface r. */
  ghost predicate MethodOf(c: Source, st: St, list: seq<Ref>, x: Ref, r: Ref, i: nat) {
    r in st.types && r in c.g && c.g[r].Interface? && i < |c.g[r].methods|
    && c.g[r].methods[i].typ in st.types && Img(st, list, c.g[r].methods[i].typ) == x
  }

  /** The importer replaces the receivers of exactly the signatures of the methods of interfaces. */
  lemma ReceiversReplaced(c: Source, st: St, m: Mem, x: Ref)
    requires SourceOk(c) && Isomorphic(c, st, m)
    ensures x in m.rebound <==> exists r: Ref, i: nat :: MethodOf(c, st, m.typList, x, r, i)
  {
    assert Seal(0);
    if x in m.rebound {
      assert Rebound(c, st, m, x);
      var r: Ref, i: nat :| ReboundBy(c, st, m, x, r, i);
      assert MethodOf(c, st, m.typList, x, r, i);
    }
    if r: Ref, i: nat :| MethodOf(c, st, m.typList, x, r, i) {
      assert Img(st, m.typList, r) in m.heap;
      assert Done(c, st, m, r);
      assert c.g[r].methods[i].typ in st.types;
    }
  }

  /** The new receiver's type is an interface object that is not the one recorded but has its methods and
      embedded types; the receiver exported can only be back if the signature was numbered before one of the
      interfaces that have it. */
  lemma ReceiverIsTwin(c: Source, st: St, m: Mem, x: Ref)
    requires Isomorphic(c, st, m) && x in m.rebound
    requires forall r: Ref, i: nat {:trigger MethodOf(c, st, m.typList, x, r, i)} ::
               MethodOf(c, st, m.typList, x, r, i) ==> st.types[r] <= st.types[c.g[r].methods[i].typ]
    ensures exists r: Ref, i: nat :: MethodOf(c, st, m.typList, x, r, i) && Twin(c, st, m, x, r)
  {
    assert Rebound(c, st, m, x);
    var r: Ref, i: nat :| ReboundBy(c, st, m, x, r, i);
    assert MethodOf(c, st, m.typList, x, r, i);
  }

  lemma SoundFrom(c: Source, predeclared: seq<Ref>, universe: map<string, Ref>, m: Mem)
    requires Setup(c, predeclared, universe, m)
    ensures Sound(c.g, Start(c, predeclared))
  {
    assert Seal(0);
    NumberedAt(predeclared, map[NIL := 0]);
  }

  // ---------------------------------------------------------------------------
  // Where the rebuilt graph differs

  /** Two fields or methods have the same identifier. */
  predicate SameIdentifier(p: Option<Pkg>, n: string, q: Option<Pkg>, m: string) {
    n == m && (Exported(n) || p == q)
  }

  /** A field embeds a predeclared type, whose package is nil. */
  predicate EmbedsPredeclared(g: World, f: Var) {
    f.anonymous && var t := Deref(g, f.typ); IsBasic(g, t) || (IsNamed(g, t) && g[t].pkg == None)
  }

  /** The package of a field that embeds a type of another package, or of none, gets lost: the rebuilt
      field has the identifier of the exported one, except for an embedded type of an unexported name
      that is basic, or named with a package different from the field's. */
  lemma FieldIdentifier(c: Source, st: St, list: seq<Ref>, f: Var)
    requires FieldOk(c.g, f)
    ensures var f', t := ImgField(c, st, list, f), Deref(c.g, f.typ);
            SameIdentifier(f.pkg, f.name, f'.pkg, f'.name) <==>
            !(f.anonymous && !Exported(f.name) && (IsBasic(c.g, t) || (IsNamed(c.g, t) && c.g[t].pkg != f.pkg)))
  {}

  /** A rebuilt field cannot be exported again exactly if it embeds a predeclared type: `qualifiedName`
      panics on its nil package. */
  lemma RebuiltNotExportable(c: Source, st: St, list: seq<Ref>, f: Var)
    requires FieldOk(c.g, f)
    ensures var f' := ImgField(c, st, list, f); !Owned(f'.pkg, WrittenName(f')) <==> EmbedsPredeclared(c.g, f)
  {
    if !f.anonymous && !Exported(f.name) {
      assert f.pkg.Some?;
    }
  }

  /** `struct { error }` in package p, with the predeclared type 1: a field that the exporter writes, and
      that comes back as one of no package, which cannot be exported again. */
  lemma EmbeddedError(c: Source, p: Pkg, st: St, list: seq<Ref>)
    requires 1 in c.g && 2 in c.g && c.g[1] == Type.Named("error", None, 2, [])
    ensures var f := Var(Some(p), "error", 1, true, "");
            && FieldOk(c.g, f) && EmbedsPredeclared(c.g, f)
            && ImgField(c, st, list, f).pkg == None
            && !SameIdentifier(f.pkg, f.name, ImgField(c, st, list, f).pkg, f.name)
            && !Owned(ImgField(c, st, list, f).pkg, WrittenName(ImgField(c, st, list, f)))
  {
    var f := Var(Some(p), "error", 1, true, "");
    assert !Exported("error");
    RebuiltNotExportable(c, st, list, f);
  }

  lemma MemberIdentifier(c: Source, st: St, list: seq<Ref>, m: Member)
    ensures var m' := ImgMember(c, st, list, m); SameIdentifier(m.pkg, m.name, m'.pkg, m'.name)
  {}

  // ---------------------------------------------------------------------------
  // Which packages are clean

  /** The types that have a number from the start. */
  ghost function Numbered0(c: Source): set<Ref> {
    c.base + {NIL}
  }

  lemma InitialKeys(c: Source, predeclared: seq<Ref>, universe: map<string, Ref>, m: Mem)
    requires Setup(c, predeclared, universe, m)
    ensures Start(c, predeclared).types.Keys == Numbered0(c) && Going(c.g, Numbered0(c), Start(c, predeclared))
  {
    assert Seal(0);
    NumberedAt(predeclared, map[NIL := 0]);
  }

  lemma {:induction false} ObjsSafe(g: World, base: set<Ref>, os: seq<Object>, i: nat)
    requires i <= |os| && forall o :: o in os ==> ObjectOk(g, o)
    ensures Safe(g, base, ObjsThen(os, i, Nil), {})
    decreases |os| - i
  {
    if i < |os| {
      ObjsSafe(g, base, os, i + 1);
      var o, k := os[i], ObjsThen(os, i + 1, Nil);
      assert ObjectOk(g, o);
      if o.Const? {
        assert Safe(g, base, Cons(V(o.val), k), {});
        assert Safe(g, base, Cons(T(o.typ), Cons(V(o.val), k)), {});
      } else {
        assert Safe(g, base, Cons(T(o.typ), k), {});
      }
    }
  }

  /** What comes before the first object changes nothing for the types. */
  lemma HeaderClean(c: Source, predeclared: seq<Ref>, os: seq<Object>) returns (st: St)
    requires c.cur.Some?
    ensures st == Start(c, predeclared).WithPkg(c.cur)
    ensures Clean(c, predeclared, os) <==> Emit(c.g, st, ObjsThen(os, 0, Nil)).clean
  {
    var st0, objs := Start(c, predeclared), ObjsThen(os, 0, Nil);
    st := st0.WithPkg(c.cur);
    assert Emit(c.g, st, Cons(N(|os|), objs)).clean == Emit(c.g, st, objs).clean;
    assert Emit(c.g, st0, Cons(P(c.cur), Cons(N(|os|), objs))).clean == Emit(c.g, st, Cons(N(|os|), objs)).clean;
  }

  lemma FirstObject(g: World, st: St, os: seq<Object>) returns (k: Items)
    requires os != []
    ensures Emit(g, st, ObjsThen(os, 0, Nil)).clean == Emit(g, st, Cons(T(os[0].typ), k)).clean
  {
    var o, rest := os[0], ObjsThen(os, 1, Nil);
    k := if o.Const? then Cons(V(o.val), rest) else rest;
    var l := Cons(T(o.typ), k);
    if !o.TypeName? { assert Emit(g, st, Cons(S(o.name), l)).clean == Emit(g, st, l).clean; }
  }

  /** An object whose type is embedded somewhere that it leads to must not come first. */
  lemma HazardComesFirst(c: Source, predeclared: seq<Ref>, universe: map<string, Ref>, m: Mem, os: seq<Object>, x: Ref)
    requires Setup(c, predeclared, universe, m) && os != [] && Hazard(c.g, Numbered0(c), c.held.Keys, os[0].typ, x)
    ensures !Clean(c, predeclared, os)
  {
    InitialKeys(c, predeclared, universe, m);
    var st := HeaderClean(c, predeclared, os);
    var k := FirstObject(c.g, st, os);
    HazardFirst(c.g, Numbered0(c), st, os[0].typ, x, k);
  }

  /** A package of harmless types is clean. */
  lemma HarmlessIsClean(c: Source, predeclared: seq<Ref>, universe: map<string, Ref>, m: Mem, os: seq<Object>)
    requires Setup(c, predeclared, universe, m) && Harmless(c.g, Numbered0(c), c.held.Keys) && forall o :: o in os ==> ObjectOk(c.g, o)
    ensures Clean(c, predeclared, os)
  {
    InitialKeys(c, predeclared, universe, m);
    var st := HeaderClean(c, predeclared, os);
    ObjsSafe(c.g, Numbered0(c), os, 0);
    SafeIsClean(c.g, Numbered0(c), st, ObjsThen(os, 0, Nil));
  }

  /** The types of a package can be imported again whatever objects it exports in whatever order, if and only
      if they are harmless: no struct embeds a pointer that leads to the struct, and no interface embeds one
      that leads to the interface. */
  lemma CleanInEveryOrder(c: Source, predeclared: seq<Ref>, universe: map<string, Ref>, m: Mem)
    requires Setup(c, predeclared, universe, m)
    ensures Harmless(c.g, Numbered0(c), c.held.Keys) <==> forall os {:trigger Clean(c, predeclared, os)} :: AllOk(c.g, os) ==> Clean(c, predeclared, os)
  {
    if Harmless(c.g, Numbered0(c), c.held.Keys) {
      forall os | AllOk(c.g, os) ensures Clean(c, predeclared, os) { HarmlessIsClean(c, predeclared, universe, m, os); }
    }
    if forall os {:trigger Clean(c, predeclared, os)} :: AllOk(c.g, os) ==> Clean(c, predeclared, os) {
      forall p, x ensures !Hazard(c.g, Numbered0(c), c.held.Keys, p, x) {
        if Hazard(c.g, Numbered0(c), c.held.Keys, p, x) {
          var os := [Variable("v", p)];
          HazardComesFirst(c, predeclared, universe, m, os, x);
          assert AllOk(c.g, os);
        }
      }
    }
  }

  ghost predicate AllOk(g: World, os: seq<Object>) {
    forall o :: o in os ==> ObjectOk(g, o)
  }

  // ---------------------------------------------------------------------------
  // Two packages that are clean in one order only

  /** A package of these types alone. */
  function Alone(g: World, p: Pkg): Source {
    Source(g, {}, {}, Some(p), {p}, map[], map[])
  }

  /** The importing side before anything was imported. */
  function Nothing(): Mem {
    Mem([NIL], [None], map[], map[], {}, map[], map[], 1)
  }

  ghost predicate Wholesome(g: World, p: Pkg) {
    && NIL !in g && (forall r :: r in g ==> !g[r].Basic? && NodeOk(g, p, r))
    && forall q, r :: IsNamed(g, q) && IsNamed(g, r) && g[q].name == g[r].name ==> q == r
  }

  ghost predicate NodeOk(g: World, p: Pkg, r: Ref)
    requires r in g
  {
    TypeOk(g, g[r]) && PkgsKnown(Alone(g, p), g[r])
  }

  lemma AloneSetup(g: World, p: Pkg)
    requires Wholesome(g, p)
    ensures Setup(Alone(g, p), [], map[], Nothing())
  {
    var c, m := Alone(g, p), Nothing();
    assert [NIL] + [] == [NIL];
    forall r | IsNamed(g, r) ensures OnlyName(c, r) {}
    forall r | r in g ensures TypeOk(g, g[r]) && PkgsKnown(c, g[r]) { assert NodeOk(g, p, r); }
    assert Checked(c);
    assert Mirror.Store(c, m) && Fresh(c, Start(c, []), m);
  }

  /** `type T struct { *T }`, as declared in package p: 1 is T, 2 its underlying type, 3 the type of the field. */
  function SelfEmbedding(p: Pkg): World {
    map[1 := Type.Named("T", Some(p), 2, []), 2 := Type.Struct([Var(Some(p), "T", 3, true, "")]), 3 := Type.Pointer(1)]
  }

  /** T and its field, in a graph that may hold more. */
  ghost predicate EmbedsIn(g: World, p: Pkg) {
    forall r :: r in SelfEmbedding(p) ==> r in g && g[r] == SelfEmbedding(p)[r]
  }

  lemma StructItems(g: World, p: Pkg, st: St, k: Items)
    requires EmbedsIn(g, p) && Some(p) in st.pkgs && 2 !in st.types && 1 in st.types && 3 !in st.types && 3 !in st.open && st.held == {}
    ensures Emit(g, st, Cons(T(2), k)).clean == Emit(g, st.Opened(2).Opened(3).Closed(3).Closed(2), k).clean
  {
    var f, end, st2 := Var(Some(p), "T", 3, true, ""), Cons(Close(2), k), st.Opened(2);
    assert 2 in SelfEmbedding(p) && 3 in SelfEmbedding(p);
    var st3 := st2.Opened(3);
    var l4 := Cons(S(""), end);
    var l3 := Cons(Need(3), l4);
    var l2 := Cons(T(3), l3);
    var l1 := Cons(P(Some(p)), l2);
    var l0 := Cons(S(""), l1);
    assert FieldsThen(g, [f], 1, end) == end;
    assert FieldsThen(g, [f], 0, end) == FieldThen(g, f, end) == l0;
    assert Body(g, 2, g[2], k) == Cons(N(1), l0);
    assert Body(g, 3, g[3], l3) == Cons(T(1), Cons(Close(3), l3));
    assert Emit(g, st3.Closed(3), end).clean == Emit(g, st3.Closed(3).Closed(2), k).clean;
    assert Emit(g, st3.Closed(3), l4).clean == Emit(g, st3.Closed(3), end).clean;
    assert Emit(g, st3.Closed(3), l3).clean == Emit(g, st3.Closed(3), l4).clean;
    assert Emit(g, st3, Cons(Close(3), l3)).clean == Emit(g, st3.Closed(3), l3).clean;
    assert Emit(g, st3, Cons(T(1), Cons(Close(3), l3))).clean == Emit(g, st3, Cons(Close(3), l3)).clean;
    assert Emit(g, st2, l2).clean == Emit(g, st3, Cons(T(1), Cons(Close(3), l3))).clean;
    assert Emit(g, st2, l1).clean == Emit(g, st2, l2).clean;
    assert Emit(g, st2, l0).clean == Emit(g, st2, l1).clean;
    assert Emit(g, st2, Cons(N(1), l0)).clean == Emit(g, st2, l0).clean;
  }

  lemma NamedItems(g: World, p: Pkg, st: St, k: Items)
    requires EmbedsIn(g, p) && Some(p) in st.pkgs && 1 !in st.types && 2 !in st.types && 3 !in st.types && 3 !in st.open && st.held == {}
    ensures Emit(g, st, Cons(T(1), k)).clean == Emit(g, st.Opened(1).Opened(2).Opened(3).Closed(3).Closed(2).Closed(1), k).clean
  {
    var st1 := st.Opened(1);
    assert 1 in SelfEmbedding(p);
    var done := st1.Opened(2).Opened(3).Closed(3).Closed(2);
    var l3 := Cons(Close(1), Cons(N(0), k));
    var l2 := Cons(T(2), l3);
    var l1 := Cons(P(Some(p)), l2);
    assert ParamsThen([], 0, k) == k;
    assert Body(g, 1, g[1], k) == Cons(S("T"), l1);
    assert Emit(g, done.Closed(1), Cons(N(0), k)).clean == Emit(g, done.Closed(1), k).clean;
    assert Emit(g, done, l3).clean == Emit(g, done.Closed(1), Cons(N(0), k)).clean;
    StructItems(g, p, st1, l3);
    assert Emit(g, st1, l1).clean == Emit(g, st1, l2).clean;
    assert Emit(g, st1, Cons(S("T"), l1)).clean == Emit(g, st1, l1).clean;
  }

  /** `var A = T{}.T` before `type T struct { *T }`: A has the very type of the field. The reader needs the base
      of the pointer while it reads that base, and the import panics. In the other order the package is clean. */
  lemma PointerFirst(p: Pkg)
    ensures var c, A, T := Alone(SelfEmbedding(p), p), Variable("A", 3), TypeName(1);
            && Setup(c, [], map[], Nothing()) && AllOk(c.g, [A, T])
            && !Clean(c, [], [A, T]) && Clean(c, [], [T, A])
  {
    EmbeddingOk(p);
    EmbedsItself(p);
    HazardComesFirst(Alone(SelfEmbedding(p), p), [], map[], Nothing(), [Variable("A", 3), TypeName(1)], 2);
    PointerLast(p);
  }

  /** The same types with a variable of another pointer type: each `*T` that is written makes a new one. */
  function TwoPointers(p: Pkg): World {
    SelfEmbedding(p)[4 := Type.Pointer(1)]
  }

  /** `var A *T` and `type T struct { *T }` can be imported in either order: the field's pointer has its base
      by the time its name is needed. */
  lemma OwnPointer(p: Pkg)
    ensures var c, A, T := Alone(TwoPointers(p), p), Variable("A", 4), TypeName(1);
            && Setup(c, [], map[], Nothing()) && AllOk(c.g, [A, T]) && Clean(c, [], [A, T]) && Clean(c, [], [T, A])
  {
    TwoPointersOk(p);
    OwnPointerFirst(p);
    OwnPointerLast(p);
  }

  lemma TwoPointersOk(p: Pkg)
    ensures EmbedsIn(TwoPointers(p), p) && Setup(Alone(TwoPointers(p), p), [], map[], Nothing())
  {
    var g := TwoPointers(p);
    forall r | r in g ensures !g[r].Basic? && NodeOk(g, p, r) {
      if r != 4 { EmbeddingNode(p, r); }
    }
    TwoPointersName(p);
    AloneSetup(g, p);
  }

  lemma TwoPointersName(p: Pkg)
    ensures NIL !in TwoPointers(p) && forall r :: IsNamed(TwoPointers(p), r) ==> r == 1
  {}

  lemma OwnPointerFirst(p: Pkg)
    ensures Clean(Alone(TwoPointers(p), p), [], [Variable("A", 4), TypeName(1)])
  {
    var c, os := Alone(TwoPointers(p), p), [Variable("A", 4), TypeName(1)];
    assert 1 in SelfEmbedding(p) && EmbedsIn(c.g, p);
    var st := HeaderClean(c, [], os);
    var rest := ObjsThen(os, 1, Nil);
    assert ObjsThen(os, 2, Nil) == Nil && rest == Cons(N(TYPE_TAG), Cons(T(1), Nil));
    assert ObjsThen(os, 0, Nil) == Cons(N(VAR_TAG), Cons(S("A"), Cons(T(4), rest)));
    NewPointer(c.g, p, st, rest);
    NameOfVariable(c.g, st, Cons(T(4), rest));
  }

  lemma NameOfVariable(g: World, st: St, k: Items)
    ensures Emit(g, st, Cons(N(VAR_TAG), Cons(S("A"), k))).clean == Emit(g, st, k).clean
  {
    assert Emit(g, st, Cons(S("A"), k)).clean == Emit(g, st, k).clean;
  }

  lemma NewPointer(g: World, p: Pkg, st: St, rest: Items)
    requires EmbedsIn(g, p) && 4 in g && g[4] == Type.Pointer(1) && st.types.Keys !! {1, 2, 3, 4}
    requires Some(p) in st.pkgs && 3 !in st.open && st.held == {} && rest == Cons(N(TYPE_TAG), Cons(T(1), Nil))
    ensures Emit(g, st, Cons(T(4), rest)).clean
  {
    var st1, end := st.Opened(4), Cons(Close(4), rest);
    var done := st1.Opened(1).Opened(2).Opened(3).Closed(3).Closed(2).Closed(1);
    assert Body(g, 4, g[4], rest) == Cons(T(1), end);
    NamedItems(g, p, st1, end);
    assert Emit(g, done.Closed(4), Cons(T(1), Nil)).clean;
    assert Emit(g, done, end).clean == Emit(g, done.Closed(4), rest).clean;
  }

  lemma OwnPointerLast(p: Pkg)
    ensures Clean(Alone(TwoPointers(p), p), [], [TypeName(1), Variable("A", 4)])
  {
    var c, os := Alone(TwoPointers(p), p), [TypeName(1), Variable("A", 4)];
    assert EmbedsIn(c.g, p);
    var st := HeaderClean(c, [], os);
    var rest := ObjsThen(os, 1, Nil);
    assert ObjsThen(os, 2, Nil) == Nil && rest == Cons(N(VAR_TAG), Cons(S("A"), Cons(T(4), Nil)));
    assert ObjsThen(os, 0, Nil) == Cons(N(TYPE_TAG), Cons(T(1), rest));
    assert Emit(c.g, st, ObjsThen(os, 0, Nil)).clean == Emit(c.g, st, Cons(T(1), rest)).clean;
    NamedFirst(c.g, p, st, Cons(T(4), Nil));
  }

  lemma NamedFirst(g: World, p: Pkg, st: St, l: Items)
    requires EmbedsIn(g, p) && 4 in g && g[4] == Type.Pointer(1) && st.types.Keys !! {1, 2, 3, 4}
    requires Some(p) in st.pkgs && 3 !in st.open && st.held == {} && l == Cons(T(4), Nil)
    ensures Emit(g, st, Cons(T(1), Cons(N(VAR_TAG), Cons(S("A"), l)))).clean
  {
    NamedItems(g, p, st, Cons(N(VAR_TAG), Cons(S("A"), l)));
    var done := st.Opened(1).Opened(2).Opened(3).Closed(3).Closed(2).Closed(1);
    KnownPointer(g, done);
    NameOfVariable(g, done, l);
  }

  lemma KnownPointer(g: World, st: St)
    requires 4 in g && g[4] == Type.Pointer(1) && 1 in st.types && 4 !in st.types
    ensures Emit(g, st, Cons(T(4), Nil)).clean
  {
    var end := Cons(Close(4), Nil);
    assert Body(g, 4, g[4], Nil) == Cons(T(1), end);
    assert Emit(g, st.Opened(4), end).clean;
  }

  lemma EmbeddingOk(p: Pkg)
    ensures Setup(Alone(SelfEmbedding(p), p), [], map[], Nothing())
  {
    var g := SelfEmbedding(p);
    forall r | r in g ensures !g[r].Basic? && NodeOk(g, p, r) { EmbeddingNode(p, r); }
    assert forall r :: IsNamed(g, r) ==> r == 1;
    assert Wholesome(g, p);
    AloneSetup(g, p);
  }

  lemma EmbeddingNode(p: Pkg, r: Ref)
    requires r in SelfEmbedding(p)
    ensures !SelfEmbedding(p)[r].Basic? && NodeOk(SelfEmbedding(p), p, r)
  {
    var g := SelfEmbedding(p);
    if r == 1 {
      assert g[1].underlying == 2;
    } else if r == 2 {
      assert g[2].fields[0].typ == 3 && Deref(g, 3) == 1;
    } else {
      assert g[3].elem == 1;
    }
  }

  lemma EmbedsItself(p: Pkg)
    ensures Hazard(SelfEmbedding(p), Numbered0(Alone(SelfEmbedding(p), p)), {}, 3, 2)
  {
    var g := SelfEmbedding(p);
    assert Numbered0(Alone(g, p)) == {NIL};
    assert Way(g, {NIL}, 3, [1, 2]) && LeadsBy(g, {NIL}, 3, 2, [1, 2]);
    assert g[2].fields[0].anonymous && g[2].fields[0].typ == 3;
  }

  lemma PointerLast(p: Pkg)
    ensures Clean(Alone(SelfEmbedding(p), p), [], [TypeName(1), Variable("A", 3)])
  {
    var c, os := Alone(SelfEmbedding(p), p), [TypeName(1), Variable("A", 3)];
    var st := HeaderClean(c, [], os);
    var rest := ObjsThen(os, 1, Nil);
    assert ObjsThen(os, 2, Nil) == Nil && rest == Cons(N(VAR_TAG), Cons(S("A"), Cons(T(3), Nil)));
    assert ObjsThen(os, 0, Nil) == Cons(N(TYPE_TAG), Cons(T(1), rest));
    assert Emit(c.g, st, ObjsThen(os, 0, Nil)).clean == Emit(c.g, st, Cons(T(1), rest)).clean;
    NamedItems(c.g, p, st, rest);
    LastVariable(c.g, st.Opened(1).Opened(2).Opened(3).Closed(3).Closed(2).Closed(1), 3);
  }

  /** A variable whose type has been written makes no difference. */
  lemma LastVariable(g: World, st: St, r: Ref)
    requires r in st.types
    ensures Emit(g, st, Cons(N(VAR_TAG), Cons(S("A"), Cons(T(r), Nil)))).clean
  {
    assert Emit(g, st, Cons(T(r), Nil)).clean;
    assert Emit(g, st, Cons(S("A"), Cons(T(r), Nil))).clean;
  }

  /** `type N interface { M() interface { N } }`: 1 is N, 2 its underlying type, 3 the signature of M, and 4
      the interface that M returns. */
  function SelfReturning(p: Pkg): World {
    map[1 := Type.Named("N", Some(p), 2, []), 2 := Type.Interface([Member(Some(p), "M", 3)], []),
        3 := Type.Signature(Some(Param("", 1)), [], [Param("", 4)], false), 4 := Type.Interface([], [1])]
  }

  lemma SignatureItems(p: Pkg, st: St, k: Items)
    requires 1 in st.types && 3 !in st.types && 4 in st.types && st.held == {}
    ensures Emit(SelfReturning(p), st, Cons(T(3), k)).clean == Emit(SelfReturning(p), st.Opened(3).Closed(3), k).clean
  {
    var g, st1, end, r := SelfReturning(p), st.Opened(3), Cons(Close(3), k), Param("", 4);
    var l5 := Cons(N(0), end);
    var l4 := Cons(T(4), l5);
    var l3 := Cons(S(""), l4);
    var l2 := Cons(N(1), l3);
    var l1 := Cons(N(0), l2);
    assert ParamsThen([r], 1, l5) == l5 && ParamsThen([r], 0, l5) == ParamThen(r, l5) == l3 && ParamsThen([], 0, l2) == l2;
    assert TupleThen([r], l5) == l2 && TupleThen([], l2) == l1;
    assert Emit(g, st1, end).clean == Emit(g, st1.Closed(3), k).clean;
    assert Emit(g, st1, l5).clean == Emit(g, st1, end).clean;
    assert Emit(g, st1, l4).clean == Emit(g, st1, l5).clean;
    assert Emit(g, st1, l3).clean == Emit(g, st1, l4).clean;
    assert Emit(g, st1, l2).clean == Emit(g, st1, l3).clean;
    assert Emit(g, st1, l1).clean == Emit(g, st1, l2).clean;
    ReceiverItems(p, st1, l1);
    assert Body(g, 3, g[3], k) == Cons(N(1), ParamThen(Param("", 1), l1));
  }

  /** The receiver of M, of type N. */
  lemma ReceiverItems(p: Pkg, st: St, k: Items)
    requires 1 in st.types
    ensures Emit(SelfReturning(p), st, Cons(N(1), ParamThen(Param("", 1), k))).clean == Emit(SelfReturning(p), st, k).clean
  {
    var g := SelfReturning(p);
    var l1 := Cons(T(1), k);
    var l2 := Cons(S(""), l1);
    assert Emit(g, st, l1).clean == Emit(g, st, k).clean;
    assert Emit(g, st, l2).clean == Emit(g, st, l1).clean;
    assert Emit(g, st, Cons(N(1), l2)).clean == Emit(g, st, l2).clean;
  }

  lemma OuterItems(p: Pkg, st: St, k: Items)
    requires 1 in st.types && 2 !in st.types && 3 !in st.types && 4 in st.types && st.held == {}
    ensures Emit(SelfReturning(p), st, Cons(T(2), k)).clean ==
            Emit(SelfReturning(p), st.Opened(2).Opened(3).Closed(3).Closed(2), k).clean
  {
    var g, st1, m, end := SelfReturning(p), st.Opened(2), Member(Some(p), "M", 3), Cons(Close(2), k);
    var st2 := st1.Opened(3).Closed(3);
    var l3 := Cons(N(0), end);
    var l2 := Cons(T(3), l3);
    var l1 := Cons(S("M"), l2);
    assert RefsThen([], 0, NeedsThen([], 0, end)) == end;
    assert MembersThen([m], 1, l3) == l3 && Exported("M");
    assert MembersThen([m], 0, l3) == MemberThen(m, l3) == l1;
    assert Body(g, 2, g[2], k) == Cons(N(1), l1);
    assert Emit(g, st2, end).clean == Emit(g, st2.Closed(2), k).clean;
    assert Emit(g, st2, l3).clean == Emit(g, st2, end).clean;
    SignatureItems(p, st1, l3);
    assert Emit(g, st1, l1).clean == Emit(g, st1, l2).clean;
    assert Emit(g, st1, Cons(N(1), l1)).clean == Emit(g, st1, l1).clean;
  }

  lemma NItems(p: Pkg, st: St, k: Items)
    requires Some(p) in st.pkgs && 1 !in st.types && 2 !in st.types && 3 !in st.types && 4 in st.types && st.held == {}
    ensures Emit(SelfReturning(p), st, Cons(T(1), k)).clean ==
            Emit(SelfReturning(p), st.Opened(1).Opened(2).Opened(3).Closed(3).Closed(2).Closed(1), k).clean
  {
    var g, st1 := SelfReturning(p), st.Opened(1);
    var done := st1.Opened(2).Opened(3).Closed(3).Closed(2);
    var l3 := Cons(Close(1), Cons(N(0), k));
    var l2 := Cons(T(2), l3);
    var l1 := Cons(P(Some(p)), l2);
    assert ParamsThen([], 0, k) == k;
    assert Body(g, 1, g[1], k) == Cons(S("N"), l1);
    assert Emit(g, done.Closed(1), Cons(N(0), k)).clean == Emit(g, done.Closed(1), k).clean;
    assert Emit(g, done, l3).clean == Emit(g, done.Closed(1), Cons(N(0), k)).clean;
    OuterItems(p, st1, l3);
    assert Emit(g, st1, l1).clean == Emit(g, st1, l2).clean;
    assert Emit(g, st1, Cons(S("N"), l1)).clean == Emit(g, st1, l1).clean;
  }

  lemma InnerItems(p: Pkg, st: St, k: Items) returns (done: St)
    requires Some(p) in st.pkgs && 1 !in st.types && 2 !in st.types && 3 !in st.types && 4 !in st.types && 1 !in st.open && st.held == {}
    ensures 1 in done.types
    ensures Emit(SelfReturning(p), st, Cons(T(4), k)).clean == Emit(SelfReturning(p), done, k).clean
  {
    var g, st1, end := SelfReturning(p), st.Opened(4), Cons(Close(4), k);
    var read := st1.Opened(1).Opened(2).Opened(3).Closed(3).Closed(2).Closed(1);
    done := read.Closed(4);
    var l3 := Cons(Need(1), end);
    var l2 := Cons(T(1), l3);
    var l1 := Cons(N(1), l2);
    assert NeedsThen([1], 1, end) == end && NeedsThen([1], 0, end) == l3;
    assert RefsThen([1], 1, l3) == l3 && RefsThen([1], 0, l3) == l2 && MembersThen([], 0, l1) == l1;
    assert Body(g, 4, g[4], k) == Cons(N(0), l1);
    assert Emit(g, read, end).clean == Emit(g, done, k).clean;
    assert Emit(g, read, l3).clean == Emit(g, read, end).clean;
    NItems(p, st1, l3);
    assert Emit(g, st1, l1).clean == Emit(g, st1, l2).clean;
    assert Emit(g, st1, Cons(N(0), l1)).clean == Emit(g, st1, l1).clean;
  }

  /** `type N interface { M() interface { N } }` before `var Z interface { N }`, with the type that M returns:
      the reader needs the underlying type of N while it reads that type, and the import panics. In the other
      order the package is clean. */
  lemma InterfaceFirst(p: Pkg)
    ensures var c, T, Z := Alone(SelfReturning(p), p), TypeName(1), Variable("Z", 4);
            && Setup(c, [], map[], Nothing()) && AllOk(c.g, [T, Z])
            && !Clean(c, [], [T, Z]) && Clean(c, [], [Z, T])
  {
    ReturningOk(p);
    ReturnsInner(p);
    HazardComesFirst(Alone(SelfReturning(p), p), [], map[], Nothing(), [TypeName(1), Variable("Z", 4)], 4);
    InterfaceLast(p);
  }

  lemma ReturningOk(p: Pkg)
    ensures Setup(Alone(SelfReturning(p), p), [], map[], Nothing())
  {
    var g := SelfReturning(p);
    forall r | r in g ensures !g[r].Basic? && NodeOk(g, p, r) { ReturningNode(p, r); }
    ReturningName(p);
    AloneSetup(g, p);
  }

  lemma ReturningName(p: Pkg)
    ensures NIL !in SelfReturning(p) && forall r :: IsNamed(SelfReturning(p), r) ==> r == 1
  {}

  lemma ReturningNode(p: Pkg, r: Ref)
    requires r in SelfReturning(p)
    ensures !SelfReturning(p)[r].Basic? && NodeOk(SelfReturning(p), p, r)
  {
    var g := SelfReturning(p);
    if r == 1 {
      assert g[1].underlying == 2;
    } else if r == 2 {
      assert g[2].methods[0].typ == 3;
    } else if r == 3 {
      assert g[3].results[0].typ == 4;
    } else {
      assert g[4].embeddeds[0] == 1;
    }
  }

  lemma InterfaceLast(p: Pkg)
    ensures Clean(Alone(SelfReturning(p), p), [], [Variable("Z", 4), TypeName(1)])
  {
    var c, os := Alone(SelfReturning(p), p), [Variable("Z", 4), TypeName(1)];
    var st := HeaderClean(c, [], os);
    var rest := ObjsThen(os, 1, Nil);
    assert ObjsThen(os, 2, Nil) == Nil && rest == Cons(N(TYPE_TAG), Cons(T(1), Nil));
    var l := Cons(T(4), rest);
    assert ObjsThen(os, 0, Nil) == Cons(N(VAR_TAG), Cons(S("Z"), l));
    assert Emit(c.g, st, Cons(S("Z"), l)).clean == Emit(c.g, st, l).clean;
    assert Emit(c.g, st, ObjsThen(os, 0, Nil)).clean == Emit(c.g, st, l).clean;
    var done := InnerItems(p, st, rest);
    assert Emit(c.g, done, Cons(T(1), Nil)).clean;
  }

  /** The same types, when N was imported before. */
  function Before(p: Pkg): Source {
    Source(SelfReturning(p), {}, {}, Some(p), {p},
           map[11 := Type.Named("N", Some(p), 12, []), 12 := Type.Interface([Member(Some(p), "M", 13)], []),
               13 := Type.Signature(None, [], [Param("", 14)], false), 14 := Type.Interface([], [11])],
           map[1 := 11])
  }

  function Something(p: Pkg): Mem {
    Mem([NIL], [None], Before(p).heap, map[], {}, map[p.path := p], map[(p.path, "N") := 11], 15)
  }

  /** N is there with its underlying type, so that no order of objects makes the import panic. */
  lemma HeldInEveryOrder(p: Pkg, os: seq<Object>)
    requires AllOk(Before(p).g, os)
    ensures Setup(Before(p), [], map[], Something(p)) && Clean(Before(p), [], os)
  {
    var c := Before(p);
    BeforeSetup(p);
    forall q, x ensures !Hazard(c.g, Numbered0(c), c.held.Keys, q, x) {}
    HarmlessIsClean(c, [], map[], Something(p), os);
  }

  lemma BeforeSetup(p: Pkg)
    ensures Setup(Before(p), [], map[], Something(p))
  {
    assert [NIL] + [] == [NIL];
    BeforeChecked(p);
    BeforeStore(p);
  }

  lemma BeforeChecked(p: Pkg)
    ensures SourceOk(Before(p)) && InUniverse(Before(p), map[])
  {
    var c := Before(p);
    ReturningName(p);
    forall r | r in c.g ensures !c.g[r].Basic? && TypeOk(c.g, c.g[r]) && PkgsKnown(c, c.g[r]) { ReturningNode(p, r); }
    BeforeHeld(p);
  }

  lemma BeforeHeld(p: Pkg)
    ensures 1 in Before(p).held && HeldOk(Before(p), 1)
  {}

  lemma BeforeStore(p: Pkg)
    ensures Mirror.Store(Before(p), Something(p)) && Fresh(Before(p), Start(Before(p), []), Something(p))
  {
    ReturningName(p);
  }

  lemma ReturnsInner(p: Pkg)
    ensures Hazard(SelfReturning(p), Numbered0(Alone(SelfReturning(p), p)), {}, 1, 4)
  {
    var g, way := SelfReturning(p), [2, 3, 4];
    assert Numbered0(Alone(g, p)) == {NIL};
    assert g[2].methods[0].typ == 3 && g[3].results[0].typ == 4;
    assert Mentions(g[2], 3) && Mentions(g[3], 4);
    assert forall i {:trigger way[i]} :: 0 < i < |way| ==> Mentions(g[way[i - 1]], way[i]);
    assert Way(g, {NIL}, 1, way) && LeadsBy(g, {NIL}, 1, 4, way);
    assert LooksInto(g, g[4], 1);
  }
}
