/** Importing several packages with one map of imports: the scopes of the packages carry over from one import
    to the next. */
module Twice {
  import opened Types
  import opened TypeGraph
  import opened Format
  import opened Mirror
  import opened Sealing
  import opened MirrorSteps
  import opened Import
  import opened Codec

  predicate InPackage(g: World, r: Ref) {
    IsNamed(g, r) && g[r].pkg.Some?
  }

  function KeyOf(g: World, r: Ref): (string, string)
    requires InPackage(g, r)
  {
    (g[r].pkg.value.path, g[r].name)
  }

  /** The named types of a graph that are in scope, with their objects. */
  function HeldBy(g: World, scope: map<(string, string), Ref>): map<Ref, Ref> {
    map r | r in g && InPackage(g, r) && KeyOf(g, r) in scope :: scope[KeyOf(g, r)]
  }

  /** A package that is imported into state m. */
  function Into(c: Source, m: Mem): Source {
    c.(heap := m.heap, held := HeldBy(c.g, m.scope))
  }

  /** A new importer, which shares objects, imports and scopes with the one in state m. */
  function Renewed(m: Mem, predeclared: seq<Ref>): Mem {
    Mem([NIL] + predeclared, [None], m.heap, map[], {}, m.imports, m.scope, m.next)
  }

  /** The packages are of one program: paths tell packages apart, and what both call by one name is one type,
      as far as the importer looks into it. */
  ghost predicate OneProgram(c: Source, d: Source) {
    && (forall p, q :: p in c.pkgs && q in d.pkgs && p.path == q.path ==> p == q)
    && forall r, q :: InPackage(c.g, r) && InPackage(d.g, q) && KeyOf(c.g, r) == KeyOf(d.g, q) ==> Agree(c.g, r, d.g, q)
  }

  ghost predicate Agree(g: World, r: Ref, h: World, q: Ref)
    requires IsNamed(g, r) && IsNamed(h, q)
  {
    && g[r].underlying in g && h[q].underlying in h && Tag(g[g[r].underlying]) == Tag(h[h[q].underlying])
    && forall f :: f in h[q].funcs ==> HasName(g[r].funcs, f.name)
  }

  // ---------------------------------------------------------------------------
  // The next import can start

  /** A type that was in scope before the first import is still what it should be. */
  lemma StillHeld(d: Source, predeclared: seq<Ref>, universe: map<string, Ref>, m0: Mem, m: Mem, q: Ref)
    requires Setup(d, predeclared, universe, m0) && InPackage(d.g, q) && KeyOf(d.g, q) in m0.scope
    requires KeyOf(d.g, q) in m.scope && m.scope[KeyOf(d.g, q)] == m0.scope[KeyOf(d.g, q)]
    requires forall a :: a in m0.heap ==> a in m.heap && m.heap[a] == m0.heap[a]
    ensures HeldOk(Into(d, m), q)
  {
    InitialKeys(d, predeclared, universe, m0);
    NotPredeclared(d, q);
    assert InScope(d, m0.scope, q);
    HeldFine(d, q);
    assert q in d.held && d.held[q] == m0.scope[KeyOf(d.g, q)];
  }

  lemma NotPredeclared(d: Source, q: Ref)
    requires SourceOk(d) && InPackage(d.g, q)
    ensures q !in Numbered0(d)
  {
    assert Seal(0);
  }

  lemma HeldFine(d: Source, q: Ref)
    requires SourceOk(d)
    ensures q in d.held ==> HeldOk(d, q)
  {
    assert Seal(0);
  }

  /** A type that the first import has put into scope has all that the next one needs of it. */
  lemma NewlyHeld(c: Source, d: Source, st: St, m: Mem, r: Ref, q: Ref)
    requires SourceOk(c) && Isomorphic(c, st, m) && Mirror.Store(c, m) && r in st.types && InPackage(c.g, r) && r !in c.held
    requires InPackage(d.g, q) && d.g[q].name == c.g[r].name && d.g[q].pkg == c.g[r].pkg && Agree(c.g, r, d.g, q)
    requires KeyOf(d.g, q) in m.scope && m.scope[KeyOf(d.g, q)] == Img(st, m.typList, r)
    ensures HeldOk(Into(d, m), q)
  {
    var (u, a) := (c.g[r].underlying, Img(st, m.typList, r));
    NotPredeclared(c, r);
    assert a in m.heap && Done(c, st, m, r);
    UnderlyingKind(c, st, m, u);
    assert m.heap[a] == Type.Named(c.g[r].name, c.g[r].pkg, Img(st, m.typList, u), ImgParams(st, m.typList, c.g[r].funcs, |c.g[r].funcs|));
    forall f | f in d.g[q].funcs ensures HasName(m.heap[a].funcs, f.name) {
      assert HasName(c.g[r].funcs, f.name);
      NamesKept(st, m.typList, c.g[r].funcs, |c.g[r].funcs|);
    }
    assert Into(d, m).held[q] == a;
  }

  lemma UnderlyingKind(c: Source, st: St, m: Mem, u: Ref)
    requires SourceOk(c) && Isomorphic(c, st, m) && Mirror.Store(c, m) && u in st.types && u in c.g
    ensures var b := Img(st, m.typList, u); b != NIL && b in m.heap && Tag(m.heap[b]) == Tag(c.g[u])
  {
    NoNil(c);
    var b := Img(st, m.typList, u);
    assert b in m.heap;
    if Shared(c, u) { assert Stays(c, st, m, u); } else { assert Done(c, st, m, u); }
  }

  lemma NoNil(c: Source)
    requires SourceOk(c)
    ensures NIL !in c.g
  {
    assert Seal(0);
  }

  lemma {:induction false} NamesKept(st: St, list: seq<Ref>, ps: seq<Param>, n: nat)
    requires n <= |ps|
    ensures |ImgParams(st, list, ps, n)| == n && forall i :: 0 <= i < n ==> ImgParams(st, list, ps, n)[i].name == ps[i].name
  {
    if n > 0 { NamesKept(st, list, ps, n - 1); }
  }

  /** Whatever is in scope after the first import is what the next one expects under that name. */
  lemma AllHeld(c: Source, d: Source, predeclared: seq<Ref>, universe: map<string, Ref>, m0: Mem, st: St, m: Mem, q: Ref)
    requires Setup(c, predeclared, universe, m0) && Setup(d, predeclared, universe, m0) && OneProgram(c, d)
    requires Isomorphic(c, st, m) && Recorded(c, predeclared, m0, st, m) && q in Into(d, m).held
    ensures HeldOk(Into(d, m), q)
  {
    var key := KeyOf(d.g, q);
    if key in m0.scope {
      StillHeld(d, predeclared, universe, m0, m, q);
    } else {
      var r :| r in st.types && HasPlace(c.g, r) && Place(c.g, r) == key;
      NotInScope(c, predeclared, universe, m0, r);
      SamePackage(c, d, r, q);
      NewlyHeld(c, d, st, m, r, q);
    }
  }

  lemma NotInScope(c: Source, predeclared: seq<Ref>, universe: map<string, Ref>, m0: Mem, r: Ref)
    requires Setup(c, predeclared, universe, m0) && InPackage(c.g, r) && KeyOf(c.g, r) !in m0.scope
    ensures r !in c.held
  {
    InitialKeys(c, predeclared, universe, m0);
    NotPredeclared(c, r);
    assert InScope(c, m0.scope, r);
  }

  lemma SamePackage(c: Source, d: Source, r: Ref, q: Ref)
    requires SourceOk(c) && SourceOk(d) && OneProgram(c, d) && InPackage(c.g, r) && InPackage(d.g, q) && KeyOf(c.g, r) == KeyOf(d.g, q)
    ensures c.g[r].pkg == d.g[q].pkg
  {
    PackageKnown(c, r);
    PackageKnown(d, q);
  }

  lemma PackageKnown(c: Source, r: Ref)
    requires SourceOk(c) && InPackage(c.g, r)
    ensures c.g[r].pkg.value in c.pkgs
  {
    assert Seal(0);
    assert PkgsKnown(c, c.g[r]);
  }

  lemma NextSource(c: Source, d: Source, predeclared: seq<Ref>, universe: map<string, Ref>, m0: Mem, st: St, m: Mem)
    requires Setup(c, predeclared, universe, m0) && Setup(d, predeclared, universe, m0) && OneProgram(c, d)
    requires Isomorphic(c, st, m) && Recorded(c, predeclared, m0, st, m)
    ensures SourceOk(Into(d, m)) && InUniverse(Into(d, m), universe) && Mirror.Store(Into(d, m), Renewed(m, predeclared))
  {
    var d' := Into(d, m);
    forall q | q in d'.held ensures HeldOk(d', q) && q !in d'.base {
      AllHeld(c, d, predeclared, universe, m0, st, m, q);
      NotPredeclared(d, q);
    }
    SameGraph(d, d');
    SameUniverse(d, d', universe);
    NextStore(d, predeclared, universe, m0, m);
  }

  lemma NextStore(d: Source, predeclared: seq<Ref>, universe: map<string, Ref>, m0: Mem, m: Mem)
    requires Setup(d, predeclared, universe, m0) && m.next > 0 && forall a :: a in m.heap ==> 0 < a < m.next
    requires forall a :: a in m0.heap ==> a in m.heap && m.heap[a] == m0.heap[a]
    ensures Mirror.Store(Into(d, m), Renewed(m, predeclared))
  {}

  /** What does not depend on the importing side stays. */
  lemma SameGraph(d: Source, d': Source)
    requires SourceOk(d) && d' == d.(heap := d'.heap, held := d'.held)
    requires forall q :: q in d'.held ==> HeldOk(d', q) && q !in d'.base
    ensures SourceOk(d')
  {
    assert Seal(0);
    forall r | IsNamed(d'.g, r) ensures OnlyName(d', r) { assert OnlyName(d, r); }
    forall r | r in d'.g && r !in d'.base ensures TypeOk(d'.g, d'.g[r]) && PkgsKnown(d', d'.g[r]) { SameType(d, d', r); }
  }

  lemma SameType(d: Source, d': Source, r: Ref)
    requires r in d.g && PkgsKnown(d, d.g[r]) && d' == d.(heap := d'.heap, held := d'.held)
    ensures PkgsKnown(d', d'.g[r])
  {}

  lemma SameUniverse(d: Source, d': Source, universe: map<string, Ref>)
    requires InUniverse(d, universe) && d' == d.(heap := d'.heap, held := d'.held)
    ensures InUniverse(d', universe)
  {
    assert Seal(0);
  }

  lemma NextFresh(c: Source, d: Source, predeclared: seq<Ref>, universe: map<string, Ref>, m0: Mem, st: St, m: Mem)
    requires Setup(c, predeclared, universe, m0) && Setup(d, predeclared, universe, m0) && OneProgram(c, d)
    requires Recorded(c, predeclared, m0, st, m)
    ensures Fresh(Into(d, m), Start(Into(d, m), predeclared), Renewed(m, predeclared))
  {
    forall p | p in d.pkgs && p.path in m.imports ensures m.imports[p.path] == p {
      if p.path !in m0.imports {
        var q :| q in c.pkgs && Some(q) in st.pkgs && q.path == p.path;
      }
    }
  }

  /** After an import the next package of the program can be imported: what the first one has put into scope is
      held for it. */
  lemma NextSetup(c: Source, d: Source, predeclared: seq<Ref>, universe: map<string, Ref>, m0: Mem, st: St, m: Mem)
    requires Setup(c, predeclared, universe, m0) && Setup(d, predeclared, universe, m0) && OneProgram(c, d)
    requires Isomorphic(c, st, m) && Recorded(c, predeclared, m0, st, m)
    ensures Setup(Into(d, m), predeclared, universe, Renewed(m, predeclared))
  {
    NextSource(c, d, predeclared, universe, m0, st, m);
    NextFresh(c, d, predeclared, universe, m0, st, m);
  }

  /** A named type that both packages mention is one object after both imports. */
  lemma OneObject(c: Source, d: Source, predeclared: seq<Ref>, m0: Mem, st: St, m: Mem, st2: St, m2: Mem, r: Ref, q: Ref)
    requires SourceOk(Into(d, m)) && Recorded(c, predeclared, m0, st, m) && Isomorphic(Into(d, m), st2, m2)
    requires r in st.types && HasPlace(c.g, r) && q in st2.types && HasPlace(d.g, q) && Place(c.g, r) == Place(d.g, q)
    ensures Img(st2, m2.typList, q) == Img(st, m.typList, r)
  {
    var d' := Into(d, m);
    NotPredeclared(d', q);
    assert q in d'.held && d'.held[q] == Img(st, m.typList, r);
    assert Img(st2, m2.typList, q) in m2.heap;
    assert Stays(d', st2, m2, q);
  }

  /** Exporting two packages of a program and importing them one after the other with the same map of imports. */
  method BothPackages(predeclared: seq<Ref>, universe: map<string, Ref>, heap: World, next: Ref, imports: map<string, Pkg>,
                      scope: map<(string, string), Ref>, world1: World, cur1: Option<Pkg>, os1: seq<Object>,
                      world2: World, cur2: Option<Pkg>, os2: seq<Object>, word: nat, ghost c: Source, ghost d: Source)
      returns (ok: bool, first: Importer, second: Importer, objs1: seq<Object>, objs2: seq<Object>, ghost st1: St, ghost st2: St)
    requires word >= 1 && world1 == c.g && cur1 == c.cur && world2 == d.g && cur2 == d.cur && OneProgram(c, d)
    requires var m0 := Mem([NIL] + predeclared, [None], heap, map[], {}, imports, scope, next);
             Setup(c, predeclared, universe, m0) && Setup(d, predeclared, universe, m0)
    requires (forall o :: o in os1 ==> ObjectOk(world1, o)) && forall o :: o in os2 ==> ObjectOk(world2, o)
    ensures ok <==> Clean(c, predeclared, os1) && Clean(Into(d, first.Snap()), predeclared, os2)
    ensures ok ==> Isomorphic(c, st1, first.Snap()) && Isomorphic(Into(d, first.Snap()), st2, second.Snap())
    ensures ok ==> forall a :: a in first.heap ==> a in second.heap && second.heap[a] == first.heap[a]
    ensures ok ==> forall r, q :: r in st1.types && HasPlace(c.g, r) && q in st2.types && HasPlace(d.g, q) && Place(c.g, r) == Place(d.g, q) ==>
              Img(st2, second.typList, q) == Img(st1, first.typList, r)
    ensures ok ==> forall q :: q in st2.types && HasPlace(d.g, q) ==>
              Place(d.g, q) in second.scope && second.scope[Place(d.g, q)] == Img(st2, second.typList, q)
    ensures ok ==> forall r :: r in st1.types && HasPlace(c.g, r) ==>
              Place(c.g, r) in second.scope && second.scope[Place(c.g, r)] == Img(st1, first.typList, r)
    ensures ok ==> objs1 == ImgObjs(st1, first.typList, os1, |os1|) && objs2 == ImgObjs(st2, second.typList, os2, |os2|)
  {
    ghost var m0 := Mem([NIL] + predeclared, [None], heap, map[], {}, imports, scope, next);
    ok, first, objs1, st1 := RoundTrip(world1, predeclared, universe, cur1, os1, heap, next, imports, scope, word, word, c);
    second, objs2, st2 := first, [], st1;
    if !ok { return; }
    ghost var m1 := first.Snap();
    NextSetup(c, d, predeclared, universe, m0, st1, m1);
    ok, second, objs2, st2 := RoundTrip(world2, predeclared, universe, cur2, os2, first.heap, first.next, first.imports, first.scope,
                                        word, word, Into(d, m1));
    if ok {
      forall r, q | r in st1.types && HasPlace(c.g, r) && q in st2.types && HasPlace(d.g, q) && Place(c.g, r) == Place(d.g, q)
        ensures Img(st2, second.typList, q) == Img(st1, first.typList, r)
      {
        OneObject(c, d, predeclared, m0, st1, m1, st2, second.Snap(), r, q);
      }
    }
  }
}
