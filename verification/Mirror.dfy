/** How the importer's types correspond to the exporter's: the two sides number types and packages
    in lock step, so that number for number their lists name corresponding nodes. */
module Mirror {
  import opened Types
  import opened TypeGraph
  import opened Format
  import opened Sealing

  /** The exported graph; its predeclared types, which both sides share; all types of the universe;
      the package being exported; and all packages. On the importing side, the objects that are there from
      the start, and those of them that stand for named types of the graph. */
  datatype Source = Source(g: World, base: set<Ref>, universe: set<Ref>, cur: Option<Pkg>, pkgs: set<Pkg>,
                           heap: World, held: map<Ref, Ref>)

  /** The importer's state but for the data. `recvs` holds the receivers of signatures; `rebound`
      says which of them NewInterface has replaced. */
  datatype Mem = Mem(typList: seq<Ref>, pkgList: seq<Option<Pkg>>, heap: World, recvs: map<Ref, Option<Param>>,
                     rebound: set<Ref>, imports: map<string, Pkg>, scope: map<(string, string), Ref>, next: Ref)

  /** The importer's type for an exported type. */
  ghost function Img(st: St, list: seq<Ref>, r: Ref): Ref {
    if r in st.types && st.types[r] < |list| then list[st.types[r]] else NIL
  }

  ghost function ImgParam(st: St, list: seq<Ref>, p: Param): Param {
    Param(p.name, Img(st, list, p.typ))
  }

  ghost function ImgParams(st: St, list: seq<Ref>, ps: seq<Param>, n: nat): seq<Param>
    requires n <= |ps|
  {
    if n == 0 then [] else ImgParams(st, list, ps, n - 1) + [ImgParam(st, list, ps[n - 1])]
  }

  /** The package of an exported name is not written: the reader takes the one being imported. */
  function ReadPkg(cur: Option<Pkg>, pkg: Option<Pkg>, name: string): Option<Pkg> {
    if Exported(name) then cur else pkg
  }

  ghost function ImgMember(c: Source, st: St, list: seq<Ref>, m: Member): Member {
    Member(ReadPkg(c.cur, m.pkg, m.name), m.name, Img(st, list, m.typ))
  }

  ghost function ImgMembers(c: Source, st: St, list: seq<Ref>, ms: seq<Member>, n: nat): seq<Member>
    requires n <= |ms|
  {
    if n == 0 then [] else ImgMembers(c, st, list, ms, n - 1) + [ImgMember(c, st, list, ms[n - 1])]
  }

  /** An anonymous field gets name and package of its type; a basic type has no package. */
  ghost function ImgField(c: Source, st: St, list: seq<Ref>, f: Var): Var {
    if !f.anonymous then
      Var(ReadPkg(c.cur, f.pkg, f.name), f.name, Img(st, list, f.typ), false, f.tag)
    else
      Var(EmbeddedPkg(c.g, f), f.name, Img(st, list, f.typ), true, f.tag)
  }

  function EmbeddedPkg(g: World, f: Var): Option<Pkg> {
    var t := Deref(g, f.typ);
    if IsNamed(g, t) then g[t].pkg else None
  }

  ghost function ImgFields(c: Source, st: St, list: seq<Ref>, fs: seq<Var>, n: nat): seq<Var>
    requires n <= |fs|
  {
    if n == 0 then [] else ImgFields(c, st, list, fs, n - 1) + [ImgField(c, st, list, fs[n - 1])]
  }

  ghost function ImgRefs(st: St, list: seq<Ref>, es: seq<Ref>, n: nat): seq<Ref>
    requires n <= |es|
  {
    if n == 0 then [] else ImgRefs(st, list, es, n - 1) + [Img(st, list, es[n - 1])]
  }

  /** What the importer makes of a type, but for the receiver of a signature. */
  ghost function Image(c: Source, st: St, list: seq<Ref>, t: Type): Type {
    match t
    case Basic(name) => t
    case Array(n, e) => Type.Array(n, Img(st, list, e))
    case Slice(e) => Type.Slice(Img(st, list, e))
    case Struct(fs) => Type.Struct(ImgFields(c, st, list, fs, |fs|))
    case Pointer(e) => Type.Pointer(Img(st, list, e))
    case Signature(_, ps, rs, v) => Type.Signature(None, ImgParams(st, list, ps, |ps|), ImgParams(st, list, rs, |rs|), v)
    case Interface(ms, es) => Type.Interface(ImgMembers(c, st, list, ms, |ms|), ImgRefs(st, list, es, |es|))
    case Map(k, e) => Type.Map(Img(st, list, k), Img(st, list, e))
    case Chan(d, e) => Type.Chan(d, Img(st, list, e))
    case Named(name, pkg, u, ms) => Type.Named(name, pkg, Img(st, list, u), ImgParams(st, list, ms, |ms|))
  }

  ghost function ImgRecv(st: St, list: seq<Ref>, t: Type): Option<Param> {
    if t.Signature? && t.recv.Some? then Some(ImgParam(st, list, t.recv.value)) else None
  }

  ghost predicate ParamsSeen(st: St, ps: seq<Param>, n: nat)
    requires n <= |ps|
  {
    n == 0 || (ps[n - 1].typ in st.types && ParamsSeen(st, ps, n - 1))
  }

  ghost predicate MembersSeen(st: St, ms: seq<Member>, n: nat)
    requires n <= |ms|
  {
    n == 0 || (ms[n - 1].typ in st.types && MembersSeen(st, ms, n - 1))
  }

  ghost predicate FieldsSeen(st: St, fs: seq<Var>, n: nat)
    requires n <= |fs|
  {
    n == 0 || (fs[n - 1].typ in st.types && FieldsSeen(st, fs, n - 1))
  }

  ghost predicate RefsSeen(st: St, es: seq<Ref>, n: nat)
    requires n <= |es|
  {
    n == 0 || (es[n - 1] in st.types && RefsSeen(st, es, n - 1))
  }

  /** Every type that a type mentions has a number. */
  ghost predicate AllSeen(st: St, t: Type) {
    match t
    case Basic(_) => true
    case Array(_, e) => e in st.types
    case Slice(e) => e in st.types
    case Struct(fs) => FieldsSeen(st, fs, |fs|)
    case Pointer(e) => e in st.types
    case Signature(recv, ps, rs, _) =>
      (recv.Some? ==> recv.value.typ in st.types) && ParamsSeen(st, ps, |ps|) && ParamsSeen(st, rs, |rs|)
    case Interface(ms, es) => MembersSeen(st, ms, |ms|) && RefsSeen(st, es, |es|)
    case Map(k, e) => k in st.types && e in st.types
    case Chan(_, e) => e in st.types
    case Named(_, _, u, ms) => u in st.types && ParamsSeen(st, ms, |ms|)
  }

  /** Numbers, once given, stay. */
  ghost predicate Later(st: St, list: seq<Ref>, st2: St, list2: seq<Ref>) {
    && (forall r :: r in st.types ==> st.types[r] < |list| && r in st2.types && st2.types[r] == st.types[r])
    && |list| <= |list2| && (forall i :: 0 <= i < |list| ==> list2[i] == list[i])
  }

  lemma {:induction false} ParamsStay(st: St, list: seq<Ref>, st2: St, list2: seq<Ref>, ps: seq<Param>, n: nat)
    requires Later(st, list, st2, list2) && n <= |ps| && ParamsSeen(st, ps, n)
    ensures ParamsSeen(st2, ps, n) && ImgParams(st2, list2, ps, n) == ImgParams(st, list, ps, n)
  {
    if n > 0 { ParamsStay(st, list, st2, list2, ps, n - 1); }
  }

  lemma {:induction false} MembersStay(c: Source, st: St, list: seq<Ref>, st2: St, list2: seq<Ref>, ms: seq<Member>, n: nat)
    requires Later(st, list, st2, list2) && n <= |ms| && MembersSeen(st, ms, n)
    ensures MembersSeen(st2, ms, n) && ImgMembers(c, st2, list2, ms, n) == ImgMembers(c, st, list, ms, n)
  {
    if n > 0 { MembersStay(c, st, list, st2, list2, ms, n - 1); }
  }

  lemma {:induction false} FieldsStay(c: Source, st: St, list: seq<Ref>, st2: St, list2: seq<Ref>, fs: seq<Var>, n: nat)
    requires Later(st, list, st2, list2) && n <= |fs| && FieldsSeen(st, fs, n)
    ensures FieldsSeen(st2, fs, n) && ImgFields(c, st2, list2, fs, n) == ImgFields(c, st, list, fs, n)
  {
    if n > 0 { FieldsStay(c, st, list, st2, list2, fs, n - 1); }
  }

  lemma {:induction false} RefsStay(st: St, list: seq<Ref>, st2: St, list2: seq<Ref>, es: seq<Ref>, n: nat)
    requires Later(st, list, st2, list2) && n <= |es| && RefsSeen(st, es, n)
    ensures RefsSeen(st2, es, n) && ImgRefs(st2, list2, es, n) == ImgRefs(st, list, es, n)
  {
    if n > 0 { RefsStay(st, list, st2, list2, es, n - 1); }
  }

  lemma ImageStays(c: Source, st: St, list: seq<Ref>, st2: St, list2: seq<Ref>, t: Type)
    requires Later(st, list, st2, list2) && AllSeen(st, t)
    ensures AllSeen(st2, t) && Image(c, st2, list2, t) == Image(c, st, list, t)
    ensures ImgRecv(st2, list2, t) == ImgRecv(st, list, t)
  {
    match t
    case Struct(fs) => FieldsStay(c, st, list, st2, list2, fs, |fs|);
    case Signature(_, ps, rs, _) =>
      ParamsStay(st, list, st2, list2, ps, |ps|);
      ParamsStay(st, list, st2, list2, rs, |rs|);
    case Interface(ms, es) =>
      MembersStay(c, st, list, st2, list2, ms, |ms|);
      RefsStay(st, list, st2, list2, es, |es|);
    case Named(_, _, _, ms) => ParamsStay(st, list, st2, list2, ms, |ms|);
    case _ =>
  }

  // ---------------------------------------------------------------------------
  // The correspondence at every matching point of the two recursions

  /** Predeclared types and aliases of basic types stand for themselves; what was imported before, stays. */
  ghost predicate Shared(c: Source, r: Ref) {
    r in c.base || IsBasic(c.g, r) || r in c.held
  }

  /** The object a with contents x is the one that stands for the shared type r. */
  ghost predicate StandsFor(c: Source, r: Ref, a: Ref, x: Type)
    requires r in c.g
  {
    if r in c.held then a == c.held[r] && HeldOk(c, r) && x == c.heap[a] else a == r && x == c.g[r]
  }

  /** The object imported before for the named type r has the name of r, an underlying type of the right
      kind, and methods with the names of those of r. */
  ghost predicate HeldOk(c: Source, r: Ref)
    requires r in c.held
  {
    var a := c.held[r];
    && IsNamed(c.g, r) && a != NIL && IsNamed(c.heap, a) && c.heap[a].name == c.g[r].name && c.heap[a].pkg == c.g[r].pkg
    && c.g[r].pkg.Some? && c.g[r].underlying in c.g && c.heap[a].underlying != NIL
    && c.heap[a].underlying in c.heap && Tag(c.heap[c.heap[a].underlying]) == Tag(c.g[c.g[r].underlying])
    && forall f :: f in c.g[r].funcs ==> HasName(c.heap[a].funcs, f.name)
  }

  predicate HasName(fs: seq<Param>, name: string) {
    exists i :: 0 <= i < |fs| && fs[i].name == name
  }

  /** An importer's type x is at least as far as its kind, and a pointer's base or a named type's
      underlying type is nil exactly while the type is in the making. */
  ghost predicate Tracks(st: St, list: seq<Ref>, r: Ref, x: Type, t: Type) {
    && Tag(x) == Tag(t)
    && (t.Pointer? ==> if r in st.open then x.elem == NIL else t.elem in st.types && x.elem == Img(st, list, t.elem))
    && (t.Named? ==> x.name == t.name && x.pkg == t.pkg)
    && (t.Named? ==> if r in st.open then x.underlying == NIL
                     else t.underlying in st.types && x.underlying == Img(st, list, t.underlying))
  }

  ghost predicate Known(c: Source, st: St, m: Mem, r: Ref) {
    var a := Img(st, m.typList, r);
    && r in c.g && a != NIL && a in m.heap
    && (if Shared(c, r) then StandsFor(c, r, a, m.heap[a]) && r !in st.open else Tracks(st, m.typList, r, m.heap[a], c.g[r]))
  }

  /** No other type has the same image. */
  ghost predicate Unique(st: St, list: seq<Ref>, r: Ref) {
    forall q {:trigger Img(st, list, q)} :: q in st.types && Img(st, list, q) == Img(st, list, r) ==> q == r
  }

  ghost predicate Numbers(st: St, m: Mem) {
    && |m.typList| == |st.types| > 0 && NIL in st.types && st.types[NIL] == 0 && m.typList[0] == NIL
    && (forall r :: r in st.types ==> st.types[r] < |m.typList|)
    && |m.pkgList| == |st.pkgs| && None in st.pkgs
    && (forall p :: p in st.pkgs ==> st.pkgs[p] < |m.pkgList| && m.pkgList[st.pkgs[p]] == p)
  }

  ghost predicate Store(c: Source, m: Mem) {
    && (forall a :: a in m.heap ==> 0 < a < m.next) && m.recvs.Keys <= m.heap.Keys && m.next > 0
    && (forall a :: a in c.heap ==> a in m.heap && m.heap[a] == c.heap[a])
    && (forall r :: r in c.universe ==> r in c.heap && r in c.g && c.heap[r] == c.g[r])
  }

  /** Of the named types still to come, those imported before are in scope, and no others; and packages
      known by path are the exported ones. */
  ghost predicate Fresh(c: Source, st: St, m: Mem) {
    && (forall r {:trigger c.g[r]} :: IsNamed(c.g, r) && r !in st.types && c.g[r].pkg.Some? ==>
          InScope(c, m.scope, r))
    && (forall p :: p in c.pkgs && p.path in m.imports ==> m.imports[p.path] == p)
  }

  ghost predicate InScope(c: Source, scope: map<(string, string), Ref>, r: Ref)
    requires IsNamed(c.g, r) && c.g[r].pkg.Some?
  {
    var key := (c.g[r].pkg.value.path, c.g[r].name);
    if r in c.held then key in scope && scope[key] == c.held[r] else key !in scope
  }

  predicate HasPlace(g: World, r: Ref) {
    IsNamed(g, r) && g[r].pkg.Some? && g[r].name != "_"
  }

  /** The place of a named type in the scopes of the packages. */
  function Place(g: World, r: Ref): (string, string)
    requires HasPlace(g, r)
  {
    (g[r].pkg.value.path, g[r].name)
  }

  /** Every named type that has a number, a blank one excepted, is in the scope of its package, and every
      package that has a number is among the imports. */
  ghost predicate Listed(c: Source, st: St, m: Mem) {
    forall k: nat {:trigger Uncover(k)} :: Uncover(k) ==> Entered(c, st, m)
  }

  ghost predicate Entered(c: Source, st: St, m: Mem) {
    && (forall r {:trigger HasPlace(c.g, r)} :: r in st.types && HasPlace(c.g, r) ==>
          Place(c.g, r) in m.scope && m.scope[Place(c.g, r)] == Img(st, m.typList, r))
    && (forall p :: p in st.pkgs && p.Some? ==> p.value.path in m.imports && m.imports[p.value.path] == p.value)
  }

  /** What was in scope or imported stays, and nothing is added but numbered types and packages. */
  ghost predicate Entries(c: Source, st: St, m: Mem, st2: St, m2: Mem) {
    forall k: nat {:trigger Uncover(k)} :: Uncover(k) ==> OnlyAdded(c, st, m, st2, m2)
  }

  ghost predicate OnlyAdded(c: Source, st: St, m: Mem, st2: St, m2: Mem) {
    && st.types.Keys <= st2.types.Keys && st.pkgs.Keys <= st2.pkgs.Keys
    && (forall x :: x in m.scope ==> x in m2.scope && m2.scope[x] == m.scope[x])
    && (forall x :: x in m2.scope ==> x in m.scope || HoldsPlace(c, st2, x))
    && (forall x :: x in m.imports ==> x in m2.imports && m2.imports[x] == m.imports[x])
    && (forall x :: x in m2.imports ==> x in m.imports || NamesPkg(c, st2, x))
  }

  /** A numbered type has this place. */
  ghost predicate HoldsPlace(c: Source, st: St, x: (string, string)) {
    exists r :: r in st.types && HasPlace(c.g, r) && Place(c.g, r) == x
  }

  ghost predicate NamesPkg(c: Source, st: St, x: string) {
    exists p :: p in c.pkgs && Some(p) in st.pkgs && p.path == x
  }

  lemma EntriesTrans(c: Source, st: St, m: Mem, st2: St, m2: Mem, st3: St, m3: Mem)
    requires Entries(c, st, m, st2, m2) && Entries(c, st2, m2, st3, m3)
    ensures Entries(c, st, m, st3, m3)
  {
    assert Uncover(0);
    forall x | x in m3.scope ensures x in m.scope || HoldsPlace(c, st3, x) {
      if x in m2.scope && x !in m.scope {
        var r :| r in st2.types && HasPlace(c.g, r) && Place(c.g, r) == x;
        assert r in st3.types;
      }
    }
    forall x | x in m3.imports ensures x in m.imports || NamesPkg(c, st3, x) {
      if x in m2.imports && x !in m.imports {
        var p :| p in c.pkgs && Some(p) in st2.pkgs && p.path == x;
        assert Some(p) in st3.pkgs;
      }
    }
  }

  /** A step that adds neither. */
  lemma ListedStays(c: Source, st: St, m: Mem, st2: St, m2: Mem)
    requires Listed(c, st, m) && st2.types == st.types && st2.pkgs == st.pkgs
    requires m2.typList == m.typList && m2.scope == m.scope && m2.imports == m.imports
    ensures Listed(c, st2, m2) && Entries(c, st, m, st2, m2)
  {
    assert Uncover(0);
    forall r | r in st2.types ensures Img(st2, m2.typList, r) == Img(st, m.typList, r) {}
  }

  /** No exported type has the image a. */
  ghost predicate Apart(st: St, list: seq<Ref>, a: Ref) {
    forall q {:trigger Img(st, list, q)} :: q in st.types ==> Img(st, list, q) != a
  }

  /** The receiver of the signature x has no name and, for its type, an interface object other than the one
      recorded for r, but of the same methods and embedded types. */
  ghost predicate Twin(c: Source, st: St, m: Mem, x: Ref, r: Ref) {
    && r in c.g && AllSeen(st, c.g[r]) && x in m.recvs && m.recvs[x].Some? && m.recvs[x].value.name == ""
    && var a := m.recvs[x].value.typ;
       a in m.heap && a !in c.heap && Apart(st, m.typList, a) && m.heap[a] == Image(c, st, m.typList, c.g[r])
  }

  /** The receiver of the signature x is the one exported. */
  ghost predicate OwnRecv(c: Source, st: St, m: Mem, x: Ref, s: Ref) {
    s in c.g && AllSeen(st, c.g[s]) && s !in st.open && x in m.recvs && m.recvs[x] == ImgRecv(st, m.typList, c.g[s])
  }

  /** The signature x belongs to a method of the interface r that has been read. NewInterface has replaced
      its receiver; only where the signature was itself in the making, and so has a smaller number than
      the interface, does its own receiver come to stand there again. */
  ghost predicate ReboundBy(c: Source, st: St, m: Mem, x: Ref, r: Ref, i: nat) {
    && r in c.g && c.g[r].Interface? && i < |c.g[r].methods| && r in st.types
    && var s := c.g[r].methods[i].typ;
       && s in st.types && Img(st, m.typList, s) == x
       && ((Twin(c, st, m, x, r) && (s in st.open ==> st.types[s] < st.types[r]))
           || (OwnRecv(c, st, m, x, s) && st.types[s] < st.types[r]))
  }

  ghost predicate Rebound(c: Source, st: St, m: Mem, x: Ref) {
    exists r: Ref, i: nat :: ReboundBy(c, st, m, x, r, i)
  }

  /** NewInterface has replaced the receivers of all methods of the interface r. */
  ghost predicate AllRebound(c: Source, st: St, m: Mem, r: Ref)
    requires r in c.g && c.g[r].Interface?
  {
    forall i {:trigger c.g[r].methods[i]} :: 0 <= i < |c.g[r].methods| ==> Img(st, m.typList, c.g[r].methods[i].typ) in m.rebound
  }

  ghost predicate Rel(c: Source, st: St, m: Mem) {
    forall k: nat {:trigger Seal(k)} :: Seal(k) ==> Related(c, st, m)
  }

  ghost predicate Related(c: Source, st: St, m: Mem) {
    && Numbers(st, m) && Store(c, m) && Fresh(c, st, m) && Listed(c, st, m)
    && (forall r {:trigger Known(c, st, m, r)} :: r in st.types && r != NIL ==> Known(c, st, m, r))
    && (forall r {:trigger Unique(st, m.typList, r)} :: r in st.types ==> Unique(st, m.typList, r))
    && (forall x {:trigger Rebound(c, st, m, x)} :: x in m.rebound ==> Rebound(c, st, m, x))
    && c.base <= st.types.Keys && st.open <= st.types.Keys && st.held == c.held.Keys
  }

  /** The type has all its contents. */
  ghost predicate Done(c: Source, st: St, m: Mem, r: Ref) {
    var a := Img(st, m.typList, r);
    && r in c.g && AllSeen(st, c.g[r]) && a in m.heap && m.heap[a] == Image(c, st, m.typList, c.g[r])
    && (c.g[r].Signature? ==> a in m.rebound || (a in m.recvs && m.recvs[a] == ImgRecv(st, m.typList, c.g[r])))
    && (c.g[r].Interface? ==> AllRebound(c, st, m, r))
  }

  /** Whatever was there stays as it was, but for receivers that NewInterface replaces; new types
      have all their contents, those in x excepted. */
  ghost predicate Grown(c: Source, st: St, m: Mem, st2: St, m2: Mem, x: set<Ref>) {
    forall k: nat {:trigger Seal(k)} :: Seal(k) ==> Extended(c, st, m, st2, m2, x)
  }

  ghost predicate Extended(c: Source, st: St, m: Mem, st2: St, m2: Mem, x: set<Ref>) {
    && Later(st, m.typList, st2, m2.typList) && Entries(c, st, m, st2, m2)
    && (forall a :: a in m.heap ==> a in m2.heap && m2.heap[a] == m.heap[a])
    && (forall a :: a in m.recvs ==> a in m2.recvs && (a in m2.rebound || m2.recvs[a] == m.recvs[a]))
    && m.rebound <= m2.rebound && m.next <= m2.next
    && (forall r {:trigger Done(c, st2, m2, r)} :: r in st2.types && r !in st.types && r !in x && !Shared(c, r) ==> Done(c, st2, m2, r))
  }

  lemma DoneStays(c: Source, st: St, m: Mem, st2: St, m2: Mem, r: Ref, x: set<Ref>)
    requires Grown(c, st, m, st2, m2, x) && Done(c, st, m, r) && r in st.types
    ensures Done(c, st2, m2, r)
  {
    assert Seal(0);
    ImageStays(c, st, m.typList, st2, m2.typList, c.g[r]);
    if c.g[r].Interface? {
      MembersReboundStay(c, st, m, st2, m2, r);
    }
  }

  lemma MembersReboundStay(c: Source, st: St, m: Mem, st2: St, m2: Mem, r: Ref)
    requires Later(st, m.typList, st2, m2.typList) && m.rebound <= m2.rebound
    requires r in c.g && c.g[r].Interface? && AllSeen(st, c.g[r]) && AllRebound(c, st, m, r)
    ensures AllRebound(c, st2, m2, r)
  {
    var ms := c.g[r].methods;
    forall i | 0 <= i < |ms| ensures Img(st2, m2.typList, ms[i].typ) in m2.rebound {
      MemberSeen(st, ms, |ms|, i);
      assert Img(st, m.typList, ms[i].typ) in m.rebound;
    }
  }

  lemma {:induction false} MemberSeen(st: St, ms: seq<Member>, n: nat, i: nat)
    requires i < n <= |ms| && MembersSeen(st, ms, n)
    ensures ms[i].typ in st.types
  {
    if i < n - 1 { MemberSeen(st, ms, n - 1, i); }
  }

  lemma GrownTrans(c: Source, st: St, m: Mem, st2: St, m2: Mem, st3: St, m3: Mem, x: set<Ref>, y: set<Ref>)
    requires Grown(c, st, m, st2, m2, x) && Grown(c, st2, m2, st3, m3, y)
    ensures Grown(c, st, m, st3, m3, x + y)
  {
    assert Seal(0);
    EntriesTrans(c, st, m, st2, m2, st3, m3);
    forall r | r in st3.types && r !in st.types && r !in x + y && !Shared(c, r) ensures Done(c, st3, m3, r) {
      if r in st2.types { DoneStays(c, st2, m2, st3, m3, r, y); }
    }
  }

  // ---------------------------------------------------------------------------
  // What the exported graph must be like

  ghost predicate PkgKnown(c: Source, p: Option<Pkg>) {
    p.Some? ==> p.value in c.pkgs
  }

  ghost predicate PkgsKnown(c: Source, t: Type) {
    match t
    case Struct(fs) => forall f :: f in fs ==> PkgKnown(c, f.pkg)
    case Interface(ms, _) => forall m :: m in ms ==> PkgKnown(c, m.pkg)
    case Named(_, pkg, _, _) => PkgKnown(c, pkg)
    case _ => true
  }

  /** No other type but r has its name in its package. */
  ghost predicate OnlyName(c: Source, r: Ref)
    requires IsNamed(c.g, r)
  {
    forall q {:trigger c.g[q]} :: IsNamed(c.g, q) && c.g[q].name == c.g[r].name && c.g[q].pkg == c.g[r].pkg ==> q == r
  }

  /** Types are well-formed; predeclared types are basic types and `error`; packages are known by
      their paths, and named types by package and name; what was imported before is what it should be. */
  ghost predicate SourceOk(c: Source) {
    forall k: nat {:trigger Seal(k)} :: Seal(k) ==> Checked(c)
  }

  ghost predicate Checked(c: Source) {
    && NIL !in c.g && c.base <= c.universe <= c.g.Keys
    && (forall r :: r in c.base ==> c.g[r].Basic? || (c.g[r].Named? && c.g[r].pkg.None? && c.g[r].underlying in c.universe))
    && (forall r :: IsBasic(c.g, r) ==> r in c.universe)
    && (forall r {:trigger c.g[r]} :: r in c.g && r !in c.base ==> TypeOk(c.g, c.g[r]) && PkgsKnown(c, c.g[r]))
    && (forall r :: IsNamed(c.g, r) ==> OnlyName(c, r))
    && (forall p, q :: p in c.pkgs && q in c.pkgs && p.path == q.path ==> p == q)
    && c.cur.Some? && (forall r :: r in c.held ==> HeldOk(c, r) && r !in c.base)
  }
}
