/** The importer of go/importer (import.go), reading what the exporter wrote. */
module Import {
  import opened Types
  import opened TypeGraph
  import opened Constants
  import opened Format
  import opened Mirror
  import opened MirrorSteps
  import Exact
  import ConstantCodec
  import opened Sealing

  ghost predicate Stream(c: Source, st: St, items: Items, data: seq<Token>) {
    forall k: nat {:trigger Unroll(k)} :: Unroll(k) ==> data == Emit(c.g, st, items).toks
  }

  /** Somewhere the reader looks into a type in the making. */
  ghost predicate Dirty(c: Source, st: St, items: Items) {
    forall k: nat {:trigger Unroll(k)} :: Unroll(k) ==> !Emit(c.g, st, items).clean
  }

  ghost predicate SameFate(c: Source, st: St, items: Items, st2: St, rest: Items) {
    forall k: nat {:trigger Unroll(k)} :: Unroll(k) ==>
      Emit(c.g, st, items).clean == Emit(c.g, st2, rest).clean && Emit(c.g, st, items).st == Emit(c.g, st2, rest).st
  }

  /** From state m on, with the items to read, the importer has come to state m2 with k left to read:
      the fate of the rest is the fate of the whole, and all types recorded on the way have their contents. */
  ghost predicate Went(c: Source, st: St, items: Items, m: Mem, st2: St, k: Items, m2: Mem) {
    && SameFate(c, st, items, st2, k) && Grown(c, st, m, st2, m2, {})
    && st2.open == st.open && st.types.Keys <= st2.types.Keys
  }

  lemma WentTrans(c: Source, st: St, items: Items, m: Mem, st1: St, k1: Items, m1: Mem, st2: St, k2: Items, m2: Mem)
    requires Went(c, st, items, m, st1, k1, m1) && Went(c, st1, k1, m1, st2, k2, m2)
    ensures Went(c, st, items, m, st2, k2, m2)
  {
    FateTrans(c, st, items, st1, k1, st2, k2);
    GrownTrans(c, st, m, st1, m1, st2, m2, {}, {});
  }

  lemma FateTrans(c: Source, st: St, items: Items, st1: St, k1: Items, st2: St, k2: Items)
    requires SameFate(c, st, items, st1, k1) && SameFate(c, st1, k1, st2, k2)
    ensures SameFate(c, st, items, st2, k2)
  {
    assert Unroll(0);
  }

  lemma DirtyBack(c: Source, st: St, items: Items, m: Mem, st1: St, k1: Items, m1: Mem)
    requires Went(c, st, items, m, st1, k1, m1) && Dirty(c, st1, k1)
    ensures Dirty(c, st, items)
  {
    assert Unroll(0);
  }

  /** Nothing has been read. */
  lemma WentNowhere(c: Source, st: St, items: Items, m: Mem)
    requires Rel(c, st, m)
    ensures Went(c, st, items, m, st, items, m)
  {
    RelRefl(c, st, m);
  }

  /** The tokens of a package, and the state after it. */
  ghost function PkgToks(st: St, p: Option<Pkg>): seq<Token>
    requires p.Some?
  {
    if p in st.pkgs then [Num(st.pkgs[p])] else [Num(PACKAGE_TAG), Str(p.value.name), Str(p.value.path)]
  }

  ghost function AfterPkg(st: St, p: Option<Pkg>): St {
    if p in st.pkgs then st else st.WithPkg(p)
  }

  lemma EmitPkg(g: World, st: St, p: Option<Pkg>, k: Items)
    requires p.Some?
    ensures Emit(g, st, Cons(P(p), k)) == Put(PkgToks(st, p), Emit(g, AfterPkg(st, p), k))
  {}

  lemma PkgNext(c: Source, st: St, p: Option<Pkg>, k: Items, data: seq<Token>)
    requires p.Some? && Stream(c, st, Cons(P(p), k), data)
    ensures data == PkgToks(st, p) + Emit(c.g, AfterPkg(st, p), k).toks
    ensures SameFate(c, st, Cons(P(p), k), AfterPkg(st, p), k)
  {
    assert Unroll(0);
  }

  lemma ValueNext(c: Source, st: St, v: Exact.Value, k: Items, data: seq<Token>)
    requires ConstantCodec.Writable(v) && Stream(c, st, Cons(V(v), k), data)
    ensures data == ConstantCodec.EncodeValue(v) + Emit(c.g, st, k).toks && SameFate(c, st, Cons(V(v), k), st, k)
  {
    EmitValue(c.g, st, v, k);
    PutNext(c, st, Cons(V(v), k), ConstantCodec.EncodeValue(v), k, data);
  }

  lemma PutNext(c: Source, st: St, items: Items, toks: seq<Token>, k: Items, data: seq<Token>)
    requires Emit(c.g, st, items) == Put(toks, Emit(c.g, st, k)) && Stream(c, st, items, data)
    ensures data == toks + Emit(c.g, st, k).toks && SameFate(c, st, items, st, k)
  {
    assert Unroll(0);
  }

  /** A signature that is in the making when the interface r is read has a smaller number. */
  ghost predicate NumberedBefore(c: Source, st: St, r: Ref)
    requires r in c.g && c.g[r].Interface? && r in st.types
  {
    forall i {:trigger c.g[r].methods[i]} :: 0 <= i < |c.g[r].methods| ==>
      var s := c.g[r].methods[i].typ; s in st.open && s in st.types ==> st.types[s] < st.types[r]
  }

  /** The signatures of the first n methods, and no others, have got new receivers, of type temp. */
  ghost predicate ReceiversSet(methods: seq<Member>, n: nat, temp: Ref, before: set<Ref>, after: set<Ref>, recvs: map<Ref, Option<Param>>)
    requires n <= |methods|
  {
    forall k: nat {:trigger Seal(k)} :: Seal(k) ==>
      && (forall x :: x in after <==> x in before || exists j :: 0 <= j < n && methods[j].typ == x)
      && forall j :: 0 <= j < n ==> methods[j].typ in recvs && recvs[methods[j].typ] == Some(TypeGraph.Param("", temp))
  }

  lemma SetMeansAll(c: Source, st: St, m: Mem, r: Ref, methods: seq<Member>, temp: Ref, before: set<Ref>)
    requires r in c.g && c.g[r].Interface? && MembersSeen(st, c.g[r].methods, |c.g[r].methods|)
    requires methods == ImgMembers(c, st, m.typList, c.g[r].methods, |c.g[r].methods|)
    requires ReceiversSet(methods, |methods|, temp, before, m.rebound, m.recvs)
    ensures AllRebound(c, st, m, r)
  {
    assert Seal(0);
    var ms := c.g[r].methods;
    MembersLength(c, st, m.typList, ms, |ms|);
    forall i | 0 <= i < |ms| ensures Img(st, m.typList, ms[i].typ) in m.rebound {
      MemberAt(c, st, m.typList, ms, |ms|, i);
      assert methods[i].typ in m.rebound;
    }
  }

  lemma MemberSignature(c: Source, st: St, list: seq<Ref>, r: Ref, i: nat)
    requires r in c.g && c.g[r].Interface? && TypeOk(c.g, c.g[r]) && i < |c.g[r].methods|
    requires MembersSeen(st, c.g[r].methods, |c.g[r].methods|)
    ensures var ms := c.g[r].methods;
            && ms[i].typ in st.types && ms[i].typ in c.g && |ImgMembers(c, st, list, ms, |ms|)| == |ms|
            && ImgMembers(c, st, list, ms, |ms|)[i].typ == Img(st, list, ms[i].typ)
  {
    var ms := c.g[r].methods;
    MembersLength(c, st, list, ms, |ms|);
    MemberAt(c, st, list, ms, |ms|, i);
    assert ms[i] in ms;
  }

  lemma OneReceiver(methods: seq<Member>, n: nat, temp: Ref, before: set<Ref>, after: set<Ref>, recvs: map<Ref, Option<Param>>)
    requires n < |methods| && ReceiversSet(methods, n, temp, before, after, recvs)
    ensures var x := methods[n].typ;
            ReceiversSet(methods, n + 1, temp, before, after + {x}, recvs[x := Some(TypeGraph.Param("", temp))])
  {
    assert Seal(0);
  }

  /** Basic types that are not predeclared are found in the universe by name. */
  ghost predicate InUniverse(c: Source, universe: map<string, Ref>) {
    forall k: nat {:trigger Seal(k)} :: Seal(k) ==>
      forall r :: IsBasic(c.g, r) && r !in c.base ==> c.g[r].name in universe && universe[c.g[r].name] == r
  }

  class Importer {
    const wordSize: nat
    const universe: map<string, Ref>
    var data: seq<Token>
    var imports: map<string, Pkg>
    var pkgList: seq<Option<Pkg>>
    var typList: seq<Ref>
    var scope: map<(string, string), Ref>
    // the objects
    var heap: World
    var recvs: map<Ref, Option<Param>>
    var next: Ref
    ghost var rebound: set<Ref>

    /** The importer knows the predeclared types by number, the objects of the universe, and what was
        imported before. */
    constructor (data: seq<Token>, predeclared: seq<Ref>, universe: map<string, Ref>, heap: World, next: Ref,
                 imports: map<string, Pkg>, scope: map<(string, string), Ref>, wordSize: nat)
      ensures this.data == data && this.universe == universe && this.wordSize == wordSize
      ensures Snap() == Mem([NIL] + predeclared, [None], heap, map[], {}, imports, scope, next)
    {
      this.data, this.universe, this.wordSize := data, universe, wordSize;
      this.imports, this.scope, this.heap, this.next := imports, scope, heap, next;
      pkgList, typList, recvs, rebound := [None], [NIL] + predeclared, map[], {};
    }

    ghost function Snap(): Mem
      reads this
    {
      Mem(typList, pkgList, heap, recvs, rebound, imports, scope, next)
    }

    /** The importer's lists and objects correspond to what the exporter has written in state st. */
    ghost predicate Ready(c: Source, st: St)
      reads this
    {
      SourceOk(c) && Rel(c, st, Snap()) && wordSize >= 1 && c.cur in st.pkgs && st.pkgs[c.cur] == 1 && InUniverse(c, universe)
    }

    /** The importer is at the point where the exporter, in state st, had the items to write. */
    ghost predicate At(c: Source, st: St, items: Items)
      reads this
    {
      Ready(c, st) && Stream(c, st, items, data)
    }

    /** From state m on, the items have been read and k is left to read. */
    ghost predicate Read(c: Source, st: St, items: Items, m: Mem, st2: St, k: Items)
      reads this
    {
      At(c, st2, k) && Went(c, st, items, m, st2, k, Snap())
    }

    method ReadNum(ghost c: Source, ghost st: St, ghost n: int, ghost k: Items) returns (x: int)
      requires At(c, st, Cons(N(n), k))
      modifies this`data
      ensures x == n && Read(c, st, Cons(N(n), k), old(Snap()), st, k)
    {
      assert Unroll(0);
      RelRefl(c, st, Snap());
      x := data[0].n;
      data := data[1..];
    }

    method ReadStr(ghost c: Source, ghost st: St, ghost s: string, ghost k: Items) returns (x: string)
      requires At(c, st, Cons(S(s), k))
      modifies this`data
      ensures x == s && Read(c, st, Cons(S(s), k), old(Snap()), st, k)
    {
      assert Unroll(0);
      RelRefl(c, st, Snap());
      x := data[0].s;
      data := data[1..];
    }

    method ReadValue(ghost c: Source, ghost st: St, ghost v: Exact.Value, ghost k: Items) returns (x: Exact.Value)
      requires At(c, st, Cons(V(v), k)) && ConstantCodec.Writable(v)
      modifies this`data
      ensures x == v && Read(c, st, Cons(V(v), k), old(Snap()), st, k)
    {
      ValueNext(c, st, v, k, data);
      RelRefl(c, st, Snap());
      x, data := ConstantCodec.ReadValue(data, wordSize, v, Emit(c.g, st, k).toks);
    }

    /** `pkg`. */
    method Package(ghost c: Source, ghost st: St, ghost p: Option<Pkg>, ghost rest: seq<Token>) returns (pkg: Option<Pkg>)
      requires Ready(c, st) && p.Some? && p.value in c.pkgs && data == PkgToks(st, p) + rest
      modifies this`data, this`imports, this`pkgList
      ensures pkg == p && Ready(c, AfterPkg(st, p)) && data == rest
      ensures Grown(c, st, old(Snap()), AfterPkg(st, p), Snap(), {})
      ensures imports == old(imports)[p.value.path := p.value]
    {
      RelNumbers(c, st, Snap());
      var i := data[0].n;
      if i >= 0 {
        data := data[1..];
        RelRefl(c, st, Snap());
        PkgThere(c, st, Snap(), p.value);
        pkg := pkgList[i];
      } else {
        var name, path := data[1].s, data[2].s;
        data := data[3..];
        pkg := NewPackage(name, path, c, st, p.value);
      }
    }

    /** Takes the package that was imported before, if there is one, or else makes a new one. */
    method NewPackage(name: string, path: string, ghost c: Source, ghost st: St, ghost p: Pkg) returns (pkg: Option<Pkg>)
      requires Rel(c, st, Snap()) && SourceOk(c) && Some(p) !in st.pkgs && p in c.pkgs && p == Pkg(name, path)
      modifies this`imports, this`pkgList
      ensures pkg == Some(p) && Rel(c, st.WithPkg(pkg), Snap()) && Grown(c, st, old(Snap()), st.WithPkg(pkg), Snap(), {})
      ensures imports == old(imports)[path := p]
    {
      assert Seal(0);
      ghost var before := Snap();
      var found: Pkg;
      if path in imports {
        found := imports[path];
      } else {
        found := Pkg(name, path);
        imports := imports[path := found];
      }
      pkg := Some(found);
      assert imports == before.imports[path := p];
      AddPkg(c, st, before, p, imports);
      pkgList := pkgList + [pkg];
    }

    /** `qualifiedName`. */
    method QualifiedName(ghost c: Source, ghost st: St, ghost p: Option<Pkg>, ghost n: string, ghost k: Items)
        returns (pkg: Option<Pkg>, name: string, ghost st2: St)
      requires At(c, st, NameThen(p, n, k)) && Owned(p, n) && PkgKnown(c, p)
      modifies this`data, this`imports, this`pkgList
      ensures name == n && pkg == ReadPkg(c.cur, p, n)
      ensures Read(c, st, NameThen(p, n, k), old(Snap()), st2, k) && st2.types == st.types
    {
      ghost var m0 := Snap();
      ghost var k1 := if Exported(n) then k else Cons(P(p), k);
      st2 := st;
      name := ReadStr(c, st, n, k1);
      RelNumbers(c, st, Snap());
      pkg := pkgList[1];
      if !Exported(name) {
        PkgNext(c, st, p, k, data);
        pkg := Package(c, st, p, Emit(c.g, AfterPkg(st, p), k).toks);
        st2 := AfterPkg(st, p);
        WentTrans(c, st, NameThen(p, n, k), m0, st, k1, m0, st2, k, Snap());
      }
    }

    // -------------------------------------------------------------------------
    // Objects

    /** `new` and `record`. */
    method Record(zero: Type, newScope: map<(string, string), Ref>, ghost c: Source, ghost st: St, ghost r: Ref) returns (a: Ref)
      requires Rel(c, st, Snap()) && r in c.g && r !in st.types && !Shared(c, r) && r != NIL && ZeroOf(zero, c.g[r])
      requires FreshAt(c, st, Snap(), r, zero, newScope)
      modifies this`typList, this`heap, this`recvs, this`next, this`scope
      ensures Reading(c, st, old(Snap()), st.Opened(r), Snap(), r)
      ensures a == Img(st.Opened(r), typList, r) && a !in old(heap) && a in heap && heap[a] == zero
      ensures pkgList == old(pkgList) && imports == old(imports)
    {
      a := next;
      ghost var m := Snap();
      AllocReading(c, st, m, r, zero, newScope);
      typList := typList + [a];
      heap := heap[a := zero];
      if zero.Signature? { recvs := recvs[a := None]; }
      scope := newScope;
      next := next + 1;
      assert Snap() == Allocated(m, zero, newScope);
    }

    /** `record` of an object that is there already. */
    method RecordOld(a: Ref, ghost c: Source, ghost st: St, ghost r: Ref)
      requires Ready(c, st) && Found(c, st, Snap(), r, a)
      modifies this`typList
      ensures var st1 := st.Opened(r).Closed(r);
              Ready(c, st1) && Grown(c, st, old(Snap()), st1, Snap(), {}) && r in st1.types && a == Img(st1, typList, r)
    {
      RecordFound(c, st, Snap(), r, a);
      typList := typList + [a];
    }

    /** The same for a type without a name. */
    method New(zero: Type, ghost c: Source, ghost st: St, ghost r: Ref) returns (a: Ref)
      requires Rel(c, st, Snap()) && SourceOk(c) && r in c.g && r !in st.types && !c.g[r].Basic? && !c.g[r].Named? && ZeroOf(zero, c.g[r])
      modifies this`typList, this`heap, this`recvs, this`next, this`scope
      ensures Reading(c, st, old(Snap()), st.Opened(r), Snap(), r)
      ensures a == Img(st.Opened(r), typList, r) && a !in old(heap) && a in heap && heap[a] == zero
    {
      SourceType(c, st, r, Snap());
      FreshStays(c, st, Snap(), r, zero);
      a := Record(zero, scope, c, st, r);
    }

    /** `*t = ...`: the object gets its contents. */
    method Fill(a: Ref, t: Type, recv: Option<Param>, ghost c: Source, ghost st0: St, ghost m0: Mem, ghost st: St, ghost r: Ref)
      requires Reading(c, st0, m0, st, Snap(), r) && r in c.g && AllSeen(st, c.g[r]) && r in st.open
      requires c.g[r].Interface? ==> AllRebound(c, st, Snap(), r)
      requires a == Img(st, typList, r) && t == Image(c, st, typList, c.g[r])
      requires t.Signature? ==> recv == ImgRecv(st, typList, c.g[r])
      modifies this`heap, this`recvs
      ensures Rel(c, st.Closed(r), Snap()) && Grown(c, st0, m0, st.Closed(r), Snap(), {})
      ensures a == Img(st.Closed(r), typList, r)
    {
      FillIn(c, st0, m0, st, Snap(), r);
      ghost var m := Snap();
      heap := heap[a := t];
      if t.Signature? { recvs := recvs[a := recv]; }
      assert Snap() == Filled(c, st, m, r, t, ImgRecv(st, typList, c.g[r]));
    }

    // -------------------------------------------------------------------------
    // Types

    /** A reference to an exported type has been read as t. */
    ghost predicate ReadRef(st2: St, r: Ref, t: Ref)
      reads this
    {
      r in st2.types && t == Img(st2, typList, r)
    }

    /** `typ`: fails, where the source panics, exactly if the reader looks into a type in the making. */
    method Typ(ghost c: Source, ghost st: St, ghost r: Ref, ghost k: Items, ghost left: set<Ref>)
        returns (ok: bool, t: Ref, ghost st2: St)
      requires At(c, st, Cons(T(r), k)) && (r in c.g || r in st.types) && c.g.Keys - st.types.Keys <= left
      modifies this
      ensures ok ==> Read(c, st, Cons(T(r), k), old(Snap()), st2, k) && ReadRef(st2, r, t)
      ensures !ok ==> Dirty(c, st, Cons(T(r), k))
      decreases left, 0
    {
      RelNumbers(c, st, Snap());
      TypNext(c, st, r, k, data);
      var i := data[0].n;
      data := data[1..];
      if i >= 0 {
        st2 := st;
        RelRefl(c, st, Snap());
        ok, t := true, typList[i];
      } else {
        OpenedShrinks(c.g, st, r);
        SourceType(c, st, r, Snap());
        ok, t, st2 := Contents(i, c, st, r, k, left - {r});
      }
    }

    /** All of a type has been read: it gets its contents. */
    method Finish(a: Ref, t: Type, recv: Option<Param>, ghost c: Source, ghost st: St, ghost m0: Mem, ghost m1: Mem,
                  ghost st2: St, ghost r: Ref, ghost k: Items)
        returns (ghost st3: St)
      requires Reading(c, st, m0, st.Opened(r), m1, r) && r in c.g && r !in st.types && r !in st.open
      requires Read(c, st.Opened(r), Body(c.g, r, c.g[r], k), m1, st2, Cons(Close(r), k))
      requires AllSeen(st2, c.g[r]) && t == Image(c, st2, typList, c.g[r]) && a == Img(st.Opened(r), m1.typList, r)
      requires t.Signature? ==> recv == ImgRecv(st2, typList, c.g[r])
      requires c.g[r].Interface? ==> AllRebound(c, st2, Snap(), r)
      modifies this`heap, this`recvs
      ensures Read(c, st, Cons(T(r), k), m0, st3, k) && ReadRef(st3, r, a)
    {
      ReadOn(c, st, m0, st.Opened(r), m1, st2, Snap(), r);
      ReadingOpens(c, st, m0, m1, r);
      Fill(a, t, recv, c, st, m0, st2, r);
      st3 := st2.Closed(r);
      CloseNext(c, st, r, st2, k, data);
    }

    ghost predicate AtBody(c: Source, st: St, r: Ref, k: Items)
      reads this
    {
      && Ready(c, st) && r in c.g && r !in st.types && r !in c.base
      && Stream(c, st.Opened(r), Body(c.g, r, c.g[r], k), data)
    }

    /** What follows the tag i of a new type. */
    method Contents(i: int, ghost c: Source, ghost st: St, ghost r: Ref, ghost k: Items, ghost left: set<Ref>)
        returns (ok: bool, t: Ref, ghost st2: St)
      requires AtBody(c, st, r, k) && i == Tag(c.g[r]) && c.g.Keys - st.Opened(r).types.Keys <= left
      modifies this
      ensures ok ==> Read(c, st, Cons(T(r), k), old(Snap()), st2, k) && ReadRef(st2, r, t)
      ensures !ok ==> Dirty(c, st, Cons(T(r), k))
      decreases left, 10
    {
      if i == BASIC_TAG {
        ok := true;
        t, st2 := BasicType(c, st, r, k);
      } else if i == ARRAY_TAG {
        ok, t, st2 := ArrayType(c, st, r, k, left);
      } else if i == SLICE_TAG {
        ok, t, st2 := SliceType(c, st, r, k, left);
      } else if i == STRUCT_TAG {
        ok, t, st2 := StructType(c, st, r, k, left);
      } else if i == POINTER_TAG {
        ok, t, st2 := PointerType(c, st, r, k, left);
      } else if i == SIGNATURE_TAG {
        ok, t, st2 := SignatureType(c, st, r, k, left);
      } else if i == INTERFACE_TAG {
        ok, t, st2 := InterfaceType(c, st, r, k, left);
      } else if i == MAP_TAG {
        ok, t, st2 := MapType(c, st, r, k, left);
      } else if i == CHAN_TAG {
        ok, t, st2 := ChanType(c, st, r, k, left);
      } else {
        ok, t, st2 := NamedType(c, st, r, k, left);
      }
      if !ok { DirtyBody(c, st, r, k); }
    }

    method BasicType(ghost c: Source, ghost st: St, ghost r: Ref, ghost k: Items) returns (t: Ref, ghost st2: St)
      requires AtBody(c, st, r, k) && c.g[r].Basic?
      modifies this`data, this`typList
      ensures Read(c, st, Cons(T(r), k), old(Snap()), st2, k) && ReadRef(st2, r, t)
    {
      SourceType(c, st, r, Snap());
      BasicNext(c, st, r, k, data);
      var name := data[0].s;
      data := data[1..];
      BasicFound(c, st, Snap(), universe, r);
      t := universe[name];
      st2 := st.Opened(r).Closed(r);
      RecordOld(t, c, st, r);
    }

    method ArrayType(ghost c: Source, ghost st: St, ghost r: Ref, ghost k: Items, ghost left: set<Ref>)
        returns (ok: bool, t: Ref, ghost st2: St)
      requires AtBody(c, st, r, k) && c.g[r].Array? && c.g.Keys - st.Opened(r).types.Keys <= left
      modifies this
      ensures ok ==> Read(c, st, Cons(T(r), k), old(Snap()), st2, k) && ReadRef(st2, r, t)
      ensures !ok ==> Dirty(c, st.Opened(r), Body(c.g, r, c.g[r], k))
      decreases left, 8
    {
      ghost var (m0, end) := (Snap(), Cons(Close(r), k));
      ghost var st1 := st.Opened(r);
      SourceType(c, st, r, Snap());
      t := New(Type.Array(0, NIL), c, st, r);
      ghost var m1 := Snap();
      ghost var (body, k1) := (Body(c.g, r, c.g[r], k), Cons(T(c.g[r].elem), end));
      var n := ReadNum(c, st1, c.g[r].len, k1);
      var e;
      ok, e, st2 := Typ(c, st1, c.g[r].elem, end, left);
      if !ok {
        DirtyBack(c, st1, body, m1, st1, k1, m1);
        return;
      }
      WentTrans(c, st1, body, m1, st1, k1, m1, st2, end, Snap());
      st2 := Finish(t, Type.Array(n, e), None, c, st, m0, m1, st2, r, k);
    }

    method SliceType(ghost c: Source, ghost st: St, ghost r: Ref, ghost k: Items, ghost left: set<Ref>)
        returns (ok: bool, t: Ref, ghost st2: St)
      requires AtBody(c, st, r, k) && c.g[r].Slice? && c.g.Keys - st.Opened(r).types.Keys <= left
      modifies this
      ensures ok ==> Read(c, st, Cons(T(r), k), old(Snap()), st2, k) && ReadRef(st2, r, t)
      ensures !ok ==> Dirty(c, st.Opened(r), Body(c.g, r, c.g[r], k))
      decreases left, 8
    {
      ghost var (m0, end) := (Snap(), Cons(Close(r), k));
      ghost var st1 := st.Opened(r);
      SourceType(c, st, r, Snap());
      t := New(Type.Slice(NIL), c, st, r);
      ghost var m1 := Snap();
      var e;
      ok, e, st2 := Typ(c, st1, c.g[r].elem, end, left);
      if !ok { return; }
      st2 := Finish(t, Type.Slice(e), None, c, st, m0, m1, st2, r, k);
    }

    method PointerType(ghost c: Source, ghost st: St, ghost r: Ref, ghost k: Items, ghost left: set<Ref>)
        returns (ok: bool, t: Ref, ghost st2: St)
      requires AtBody(c, st, r, k) && c.g[r].Pointer? && c.g.Keys - st.Opened(r).types.Keys <= left
      modifies this
      ensures ok ==> Read(c, st, Cons(T(r), k), old(Snap()), st2, k) && ReadRef(st2, r, t)
      ensures !ok ==> Dirty(c, st.Opened(r), Body(c.g, r, c.g[r], k))
      decreases left, 8
    {
      ghost var (m0, end) := (Snap(), Cons(Close(r), k));
      ghost var st1 := st.Opened(r);
      SourceType(c, st, r, Snap());
      t := New(Type.Pointer(NIL), c, st, r);
      ghost var m1 := Snap();
      var e;
      ok, e, st2 := Typ(c, st1, c.g[r].elem, end, left);
      if !ok { return; }
      st2 := Finish(t, Type.Pointer(e), None, c, st, m0, m1, st2, r, k);
    }

    method ChanType(ghost c: Source, ghost st: St, ghost r: Ref, ghost k: Items, ghost left: set<Ref>)
        returns (ok: bool, t: Ref, ghost st2: St)
      requires AtBody(c, st, r, k) && c.g[r].Chan? && c.g.Keys - st.Opened(r).types.Keys <= left
      modifies this
      ensures ok ==> Read(c, st, Cons(T(r), k), old(Snap()), st2, k) && ReadRef(st2, r, t)
      ensures !ok ==> Dirty(c, st.Opened(r), Body(c.g, r, c.g[r], k))
      decreases left, 8
    {
      ghost var (m0, end) := (Snap(), Cons(Close(r), k));
      ghost var st1 := st.Opened(r);
      SourceType(c, st, r, Snap());
      t := New(Type.Chan(0, NIL), c, st, r);
      ghost var m1 := Snap();
      ghost var (body, k1) := (Body(c.g, r, c.g[r], k), Cons(T(c.g[r].elem), end));
      var d := ReadNum(c, st1, c.g[r].dir, k1);
      var e;
      ok, e, st2 := Typ(c, st1, c.g[r].elem, end, left);
      if !ok {
        DirtyBack(c, st1, body, m1, st1, k1, m1);
        return;
      }
      WentTrans(c, st1, body, m1, st1, k1, m1, st2, end, Snap());
      st2 := Finish(t, Type.Chan(d, e), None, c, st, m0, m1, st2, r, k);
    }

    method MapType(ghost c: Source, ghost st: St, ghost r: Ref, ghost k: Items, ghost left: set<Ref>)
        returns (ok: bool, t: Ref, ghost st2: St)
      requires AtBody(c, st, r, k) && c.g[r].Map? && c.g.Keys - st.Opened(r).types.Keys <= left
      modifies this
      ensures ok ==> Read(c, st, Cons(T(r), k), old(Snap()), st2, k) && ReadRef(st2, r, t)
      ensures !ok ==> Dirty(c, st.Opened(r), Body(c.g, r, c.g[r], k))
      decreases left, 8
    {
      ghost var (m0, end) := (Snap(), Cons(Close(r), k));
      ghost var st1 := st.Opened(r);
      SourceType(c, st, r, Snap());
      t := New(Type.Map(NIL, NIL), c, st, r);
      ghost var m1 := Snap();
      var key, e;
      ok, key, e, st2 := TwoTypes(c, st1, c.g[r].key, c.g[r].elem, end, left);
      if !ok { return; }
      st2 := Finish(t, Type.Map(key, e), None, c, st, m0, m1, st2, r, k);
    }

    method TwoTypes(ghost c: Source, ghost st: St, ghost p: Ref, ghost q: Ref, ghost k: Items, ghost left: set<Ref>)
        returns (ok: bool, key: Ref, elem: Ref, ghost st2: St)
      requires At(c, st, Cons(T(p), Cons(T(q), k))) && p in c.g && q in c.g && c.g.Keys - st.types.Keys <= left
      modifies this
      ensures ok ==> Read(c, st, Cons(T(p), Cons(T(q), k)), old(Snap()), st2, k) && ReadRef(st2, p, key) && ReadRef(st2, q, elem)
      ensures !ok ==> Dirty(c, st, Cons(T(p), Cons(T(q), k)))
      decreases left, 1
    {
      ghost var (m0, st1) := (Snap(), st);
      elem, st2 := NIL, st;
      ghost var (items, k1) := (Cons(T(p), Cons(T(q), k)), Cons(T(q), k));
      ok, key, st1 := Typ(c, st, p, k1, left);
      if !ok { return; }
      ghost var m1 := Snap();
      ok, elem, st2 := Typ(c, st1, q, k, left);
      if !ok {
        DirtyBack(c, st, items, m0, st1, k1, m1);
        return;
      }
      WentTrans(c, st, items, m0, st1, k1, m1, st2, k, Snap());
      GrownSeen(c, st1, m1, st2, Snap(), {}, p);
    }

    method StructType(ghost c: Source, ghost st: St, ghost r: Ref, ghost k: Items, ghost left: set<Ref>)
        returns (ok: bool, t: Ref, ghost st2: St)
      requires AtBody(c, st, r, k) && c.g[r].Struct? && c.g.Keys - st.Opened(r).types.Keys <= left
      modifies this
      ensures ok ==> Read(c, st, Cons(T(r), k), old(Snap()), st2, k) && ReadRef(st2, r, t)
      ensures !ok ==> Dirty(c, st.Opened(r), Body(c.g, r, c.g[r], k))
      decreases left, 8
    {
      ghost var (m0, end, fs) := (Snap(), Cons(Close(r), k), c.g[r].fields);
      ghost var st1 := st.Opened(r);
      SourceType(c, st, r, Snap());
      t := New(Type.Struct([]), c, st, r);
      ghost var m1 := Snap();
      ghost var (body, k1) := (Body(c.g, r, c.g[r], k), FieldsThen(c.g, fs, 0, end));
      var n := ReadNum(c, st1, |fs|, k1);
      var fields;
      ok, fields, st2 := Fields(n, c, st1, fs, end, left);
      if !ok {
        DirtyBack(c, st1, body, m1, st1, k1, m1);
        return;
      }
      WentTrans(c, st1, body, m1, st1, k1, m1, st2, end, Snap());
      st2 := Finish(t, Type.Struct(fields), None, c, st, m0, m1, st2, r, k);
    }

    method Fields(n: nat, ghost c: Source, ghost st: St, ghost fs: seq<Var>, ghost k: Items, ghost left: set<Ref>)
        returns (ok: bool, fields: seq<Var>, ghost st2: St)
      requires At(c, st, FieldsThen(c.g, fs, 0, k)) && n == |fs| && c.g.Keys - st.types.Keys <= left
      requires forall f :: f in fs ==> FieldOk(c.g, f) && PkgKnown(c, f.pkg)
      modifies this
      ensures ok ==> Read(c, st, FieldsThen(c.g, fs, 0, k), old(Snap()), st2, k)
      ensures ok ==> FieldsSeen(st2, fs, |fs|) && fields == ImgFields(c, st2, typList, fs, |fs|)
      ensures !ok ==> Dirty(c, st, FieldsThen(c.g, fs, 0, k))
      decreases left, 5
    {
      ghost var m0 := Snap();
      ok, fields, st2 := true, [], st;
      WentNowhere(c, st, FieldsThen(c.g, fs, 0, k), m0);
      var i := 0;
      while i < n
        invariant 0 <= i <= n && ok && FieldsRead(c, st, fs, k, m0, st2, i, fields)
      {
        assert fs[i] in fs;
        ok, fields, st2 := NextField(fields, c, st, fs, i, k, m0, st2, left);
        if !ok { return; }
        i := i + 1;
      }
    }

    ghost predicate FieldsRead(c: Source, st: St, fs: seq<Var>, k: Items, m0: Mem, st2: St, i: nat, fields: seq<Var>)
      requires i <= |fs|
      reads this
    {
      && Read(c, st, FieldsThen(c.g, fs, 0, k), m0, st2, FieldsThen(c.g, fs, i, k))
      && FieldsSeen(st2, fs, i) && fields == ImgFields(c, st2, typList, fs, i)
    }

    method NextField(before: seq<Var>, ghost c: Source, ghost st: St, ghost fs: seq<Var>, ghost i: nat, ghost k: Items,
                     ghost m0: Mem, ghost st1: St, ghost left: set<Ref>)
        returns (ok: bool, fields: seq<Var>, ghost st2: St)
      requires i < |fs| && FieldsRead(c, st, fs, k, m0, st1, i, before) && c.g.Keys - st.types.Keys <= left
      requires FieldOk(c.g, fs[i]) && PkgKnown(c, fs[i].pkg)
      modifies this
      ensures ok ==> FieldsRead(c, st, fs, k, m0, st2, i + 1, fields)
      ensures !ok ==> Dirty(c, st, FieldsThen(c.g, fs, 0, k))
      decreases left, 4
    {
      ghost var m1 := Snap();
      var f;
      fields := before;
      ok, f, st2 := Field(c, st1, fs[i], FieldsThen(c.g, fs, i + 1, k), left);
      if !ok {
        DirtyBack(c, st, FieldsThen(c.g, fs, 0, k), m0, st1, FieldsThen(c.g, fs, i, k), m1);
        return;
      }
      WentTrans(c, st, FieldsThen(c.g, fs, 0, k), m0, st1, FieldsThen(c.g, fs, i, k), m1, st2, FieldsThen(c.g, fs, i + 1, k), Snap());
      GrownLater(c, st1, m1, st2, Snap(), {});
      FieldsStay(c, st1, m1.typList, st2, typList, fs, i);
      fields := fields + [f];
    }

    /** `field`, and the field's tag. */
    method Field(ghost c: Source, ghost st: St, ghost f: Var, ghost k: Items, ghost left: set<Ref>)
        returns (ok: bool, field: Var, ghost st2: St)
      requires At(c, st, FieldThen(c.g, f, k)) && FieldOk(c.g, f) && PkgKnown(c, f.pkg) && c.g.Keys - st.types.Keys <= left
      modifies this
      ensures ok ==> Read(c, st, FieldThen(c.g, f, k), old(Snap()), st2, k)
      ensures ok ==> f.typ in st2.types && field == ImgField(c, st2, typList, f)
      ensures !ok ==> Dirty(c, st, FieldThen(c.g, f, k))
      decreases left, 3
    {
      ghost var (m0, tail) := (Snap(), Cons(S(f.tag), k));
      ghost var (items, need) := (FieldThen(c.g, f, k), NeedBase(c.g, f, tail));
      field := Var(None, "", NIL, false, "");
      var pkg, name, typ;
      ok, pkg, name, typ, st2 := FieldType(c, st, f, need, left);
      if !ok { return; }
      ghost var m1 := Snap();
      var anonymous := name == "";
      if anonymous {
        ok, pkg, name := EmbeddedName(typ, c, st2, f, tail);
        if !ok {
          DirtyBack(c, st, items, m0, st2, need, m1);
          return;
        }
      } else {
        NotNeeded(c, st2, f, tail, m1, data);
      }
      WentTrans(c, st, items, m0, st2, need, m1, st2, tail, m1);
      var tag := ReadStr(c, st2, f.tag, k);
      WentTrans(c, st, items, m0, st2, tail, m1, st2, k, Snap());
      field := Var(pkg, name, typ, anonymous, tag);
    }

    method FieldType(ghost c: Source, ghost st: St, ghost f: Var, ghost k: Items, ghost left: set<Ref>)
        returns (ok: bool, pkg: Option<Pkg>, name: string, typ: Ref, ghost st2: St)
      requires At(c, st, NameThen(f.pkg, WrittenName(f), Cons(T(f.typ), k))) && FieldOk(c.g, f) && PkgKnown(c, f.pkg)
      requires c.g.Keys - st.types.Keys <= left
      modifies this
      ensures ok ==> Read(c, st, NameThen(f.pkg, WrittenName(f), Cons(T(f.typ), k)), old(Snap()), st2, k)
      ensures ok ==> name == WrittenName(f) && pkg == ReadPkg(c.cur, f.pkg, name) && ReadRef(st2, f.typ, typ)
      ensures !ok ==> Dirty(c, st, NameThen(f.pkg, WrittenName(f), Cons(T(f.typ), k)))
      decreases left, 2
    {
      ghost var (m0, items, k1) := (Snap(), NameThen(f.pkg, WrittenName(f), Cons(T(f.typ), k)), Cons(T(f.typ), k));
      pkg, name, st2 := QualifiedName(c, st, f.pkg, WrittenName(f), k1);
      ghost var (m1, st1) := (Snap(), st2);
      ok, typ, st2 := Typ(c, st1, f.typ, k, left);
      if !ok {
        DirtyBack(c, st, items, m0, st1, k1, m1);
        return;
      }
      WentTrans(c, st, items, m0, st1, k1, m1, st2, k, Snap());
    }

    /** An anonymous field is named after its type T or *T; this fails if *T is still in the making. */
    method EmbeddedName(typ: Ref, ghost c: Source, ghost st: St, ghost f: Var, ghost k: Items)
        returns (ok: bool, pkg: Option<Pkg>, name: string)
      requires At(c, st, NeedBase(c.g, f, k)) && f.anonymous && FieldOk(c.g, f) && ReadRef(st, f.typ, typ)
      ensures ok ==> Read(c, st, NeedBase(c.g, f, k), Snap(), st, k) && name == f.name && pkg == EmbeddedPkg(c.g, f)
      ensures !ok ==> Dirty(c, st, NeedBase(c.g, f, k))
    {
      EmbeddedBase(c, st, Snap(), f, k);
      var base := Deref(heap, typ);
      ok, pkg, name := true, None, "";
      if base in heap && heap[base].Basic? {
        name := heap[base].name;
        NotNeeded(c, st, f, k, Snap(), data);
      } else if base in heap && heap[base].Named? {
        pkg := heap[base].pkg;
        name := heap[base].name;
        NotNeeded(c, st, f, k, Snap(), data);
      } else {
        ok := false;
      }
    }

    // -------------------------------------------------------------------------
    // Signatures

    method Param(ghost c: Source, ghost st: St, ghost p: Param, ghost k: Items, ghost left: set<Ref>)
        returns (ok: bool, v: Param, ghost st2: St)
      requires At(c, st, ParamThen(p, k)) && p.typ in c.g && c.g.Keys - st.types.Keys <= left
      modifies this
      ensures ok ==> Read(c, st, ParamThen(p, k), old(Snap()), st2, k) && p.typ in st2.types && v == ImgParam(st2, typList, p)
      ensures !ok ==> Dirty(c, st, ParamThen(p, k))
      decreases left, 3
    {
      ghost var (m0, k1) := (Snap(), Cons(T(p.typ), k));
      var name := ReadStr(c, st, p.name, k1);
      var typ;
      ok, typ, st2 := Typ(c, st, p.typ, k, left);
      v := TypeGraph.Param(name, typ);
      if ok {
        WentTrans(c, st, ParamThen(p, k), m0, st, k1, m0, st2, k, Snap());
      } else {
        DirtyBack(c, st, ParamThen(p, k), m0, st, k1, m0);
      }
    }

    method Params(n: nat, ghost c: Source, ghost st: St, ghost ps: seq<Param>, ghost k: Items, ghost left: set<Ref>)
        returns (ok: bool, vars: seq<Param>, ghost st2: St)
      requires At(c, st, ParamsThen(ps, 0, k)) && n == |ps| && c.g.Keys - st.types.Keys <= left
      requires forall p :: p in ps ==> p.typ in c.g
      modifies this
      ensures ok ==> Read(c, st, ParamsThen(ps, 0, k), old(Snap()), st2, k)
      ensures ok ==> ParamsSeen(st2, ps, |ps|) && vars == ImgParams(st2, typList, ps, |ps|)
      ensures !ok ==> Dirty(c, st, ParamsThen(ps, 0, k))
      decreases left, 5
    {
      ghost var m0 := Snap();
      ok, vars, st2 := true, [], st;
      WentNowhere(c, st, ParamsThen(ps, 0, k), m0);
      var i := 0;
      while i < n
        invariant 0 <= i <= n && ok && ParamsRead(c, st, ps, k, m0, st2, i, vars)
      {
        assert ps[i] in ps;
        ok, vars, st2 := NextParam(vars, c, st, ps, i, k, m0, st2, left);
        if !ok { return; }
        i := i + 1;
      }
      assert Unwrap(0);
    }

    ghost predicate ParamsRead(c: Source, st: St, ps: seq<Param>, k: Items, m0: Mem, st2: St, i: nat, vars: seq<Param>)
      requires i <= |ps|
      reads this
    {
      forall z: nat {:trigger Unwrap(z)} :: Unwrap(z) ==>
        && Read(c, st, ParamsThen(ps, 0, k), m0, st2, ParamsThen(ps, i, k))
        && ParamsSeen(st2, ps, i) && vars == ImgParams(st2, typList, ps, i)
    }

    method NextParam(before: seq<Param>, ghost c: Source, ghost st: St, ghost ps: seq<Param>, ghost i: nat, ghost k: Items,
                     ghost m0: Mem, ghost st1: St, ghost left: set<Ref>)
        returns (ok: bool, vars: seq<Param>, ghost st2: St)
      requires i < |ps| && ParamsRead(c, st, ps, k, m0, st1, i, before) && c.g.Keys - st.types.Keys <= left
      requires ps[i].typ in c.g
      modifies this
      ensures ok ==> ParamsRead(c, st, ps, k, m0, st2, i + 1, vars)
      ensures !ok ==> Dirty(c, st, ParamsThen(ps, 0, k))
      decreases left, 4
    {
      assert Unwrap(0);
      ghost var m1 := Snap();
      var v;
      vars := before;
      ok, v, st2 := Param(c, st1, ps[i], ParamsThen(ps, i + 1, k), left);
      if !ok {
        DirtyBack(c, st, ParamsThen(ps, 0, k), m0, st1, ParamsThen(ps, i, k), m1);
        return;
      }
      WentTrans(c, st, ParamsThen(ps, 0, k), m0, st1, ParamsThen(ps, i, k), m1, st2, ParamsThen(ps, i + 1, k), Snap());
      GrownLater(c, st1, m1, st2, Snap(), {});
      ParamsStay(st1, m1.typList, st2, typList, ps, i);
      vars := vars + [v];
    }

    /** `tuple`. */
    method Tuple(ghost c: Source, ghost st: St, ghost ps: seq<Param>, ghost k: Items, ghost left: set<Ref>)
        returns (ok: bool, vars: seq<Param>, ghost st2: St)
      requires At(c, st, TupleThen(ps, k)) && c.g.Keys - st.types.Keys <= left
      requires forall p :: p in ps ==> p.typ in c.g
      modifies this
      ensures ok ==> Read(c, st, TupleThen(ps, k), old(Snap()), st2, k)
      ensures ok ==> ParamsSeen(st2, ps, |ps|) && vars == ImgParams(st2, typList, ps, |ps|)
      ensures !ok ==> Dirty(c, st, TupleThen(ps, k))
      decreases left, 6
    {
      ghost var (m0, k1) := (Snap(), ParamsThen(ps, 0, k));
      var n := ReadNum(c, st, |ps|, k1);
      ok, vars, st2 := Params(n, c, st, ps, k, left);
      if ok {
        WentTrans(c, st, TupleThen(ps, k), m0, st, k1, m0, st2, k, Snap());
      } else {
        DirtyBack(c, st, TupleThen(ps, k), m0, st, k1, m0);
      }
    }

    method Bool(ghost c: Source, ghost st: St, ghost b: bool, ghost k: Items) returns (x: bool)
      requires At(c, st, BoolThen(b, k))
      modifies this`data
      ensures x == b && Read(c, st, BoolThen(b, k), old(Snap()), st, k)
    {
      var n := ReadNum(c, st, if b then 1 else 0, k);
      x := n != 0;
    }

    method SignatureType(ghost c: Source, ghost st: St, ghost r: Ref, ghost k: Items, ghost left: set<Ref>)
        returns (ok: bool, t: Ref, ghost st2: St)
      requires AtBody(c, st, r, k) && c.g[r].Signature? && c.g.Keys - st.Opened(r).types.Keys <= left
      modifies this
      ensures ok ==> Read(c, st, Cons(T(r), k), old(Snap()), st2, k) && ReadRef(st2, r, t)
      ensures !ok ==> Dirty(c, st.Opened(r), Body(c.g, r, c.g[r], k))
      decreases left, 9
    {
      ghost var (m0, end) := (Snap(), Cons(Close(r), k));
      ghost var st1 := st.Opened(r);
      SourceType(c, st, r, Snap());
      t := New(Type.Signature(None, [], [], false), c, st, r);
      ghost var m1 := Snap();
      var recv, params, results, variadic;
      ok, recv, params, results, variadic, st2 := Signature(c, st1, c.g[r], end, left);
      if !ok { return; }
      st2 := Finish(t, Type.Signature(None, params, results, variadic), recv, c, st, m0, m1, st2, r, k);
    }

    /** `signature`. A variadic signature has a last parameter of slice type, as NewSignature demands. */
    method Signature(ghost c: Source, ghost st: St, ghost t: Type, ghost k: Items, ghost left: set<Ref>)
        returns (ok: bool, recv: Option<Param>, params: seq<Param>, results: seq<Param>, variadic: bool, ghost st2: St)
      requires t.Signature? && At(c, st, SignatureThen(t, k)) && SignatureOk(c.g, t) && c.g.Keys - st.types.Keys <= left
      modifies this
      ensures ok ==> Read(c, st, SignatureThen(t, k), old(Snap()), st2, k) && AllSeen(st2, t)
      ensures ok ==> Image(c, st2, typList, t) == Type.Signature(None, params, results, variadic)
      ensures ok ==> recv == ImgRecv(st2, typList, t)
      ensures !ok ==> Dirty(c, st, SignatureThen(t, k))
      decreases left, 8
    {
      ghost var (m0, last) := (Snap(), BoolThen(t.variadic, k));
      ghost var tuples := TupleThen(t.params, TupleThen(t.results, last));
      params, results, variadic := [], [], false;
      ok, recv, st2 := Receiver(c, st, t, tuples, left);
      if !ok { return; }
      ghost var (m1, st1) := (Snap(), st2);
      ok, params, results, st2 := TwoTuples(c, st1, t.params, t.results, last, left);
      if !ok {
        DirtyBack(c, st, SignatureThen(t, k), m0, st1, tuples, m1);
        return;
      }
      WentTrans(c, st, SignatureThen(t, k), m0, st1, tuples, m1, st2, last, Snap());
      if t.recv.Some? { GrownSeen(c, st1, m1, st2, Snap(), {}, t.recv.value.typ); }
      ghost var m2 := Snap();
      variadic := Variadic(params, c, st2, t, k);
      WentTrans(c, st, SignatureThen(t, k), m0, st2, last, m2, st2, k, Snap());
    }

    /** The last flag, with the check of NewSignature. */
    method Variadic(params: seq<Param>, ghost c: Source, ghost st: St, ghost t: Type, ghost k: Items) returns (variadic: bool)
      requires t.Signature? && At(c, st, BoolThen(t.variadic, k)) && SignatureOk(c.g, t) && ParamsSeen(st, t.params, |t.params|)
      requires params == ImgParams(st, typList, t.params, |t.params|)
      modifies this`data
      ensures variadic == t.variadic && Read(c, st, BoolThen(t.variadic, k), old(Snap()), st, k)
    {
      variadic := Bool(c, st, t.variadic, k);
      VariadicSlice(c, st, Snap(), t, |t.params|);
      assert variadic ==> params != [] && params[|params| - 1].typ in heap && heap[params[|params| - 1].typ].Slice?;
    }

    method Receiver(ghost c: Source, ghost st: St, ghost t: Type, ghost k: Items, ghost left: set<Ref>)
        returns (ok: bool, recv: Option<Param>, ghost st2: St)
      requires t.Signature? && (t.recv.Some? ==> t.recv.value.typ in c.g) && c.g.Keys - st.types.Keys <= left
      requires At(c, st, ReceiverThen(t, k))
      modifies this
      ensures ok ==> Read(c, st, ReceiverThen(t, k), old(Snap()), st2, k)
      ensures ok ==> recv == ImgRecv(st2, typList, t) && (t.recv.Some? ==> t.recv.value.typ in st2.types)
      ensures !ok ==> Dirty(c, st, ReceiverThen(t, k))
      decreases left, 4
    {
      ghost var m0 := Snap();
      ok, recv, st2 := true, None, st;
      ghost var k1 := if t.recv.Some? then ParamThen(t.recv.value, k) else k;
      var some := Bool(c, st, t.recv.Some?, k1);
      if some {
        var p;
        ok, p, st2 := Param(c, st, t.recv.value, k, left);
        recv := Some(p);
        if ok {
          WentTrans(c, st, ReceiverThen(t, k), m0, st, k1, m0, st2, k, Snap());
        } else {
          DirtyBack(c, st, ReceiverThen(t, k), m0, st, k1, m0);
        }
      }
    }

    method TwoTuples(ghost c: Source, ghost st: St, ghost ps: seq<Param>, ghost rs: seq<Param>, ghost k: Items, ghost left: set<Ref>)
        returns (ok: bool, params: seq<Param>, results: seq<Param>, ghost st2: St)
      requires At(c, st, TupleThen(ps, TupleThen(rs, k))) && c.g.Keys - st.types.Keys <= left
      requires (forall p :: p in ps ==> p.typ in c.g) && forall p :: p in rs ==> p.typ in c.g
      modifies this
      ensures ok ==> Read(c, st, TupleThen(ps, TupleThen(rs, k)), old(Snap()), st2, k)
      ensures ok ==> ParamsSeen(st2, ps, |ps|) && params == ImgParams(st2, typList, ps, |ps|)
      ensures ok ==> ParamsSeen(st2, rs, |rs|) && results == ImgParams(st2, typList, rs, |rs|)
      ensures !ok ==> Dirty(c, st, TupleThen(ps, TupleThen(rs, k)))
      decreases left, 7
    {
      ghost var m0 := Snap();
      results := [];
      ghost var (items, k1) := (TupleThen(ps, TupleThen(rs, k)), TupleThen(rs, k));
      ok, params, st2 := Tuple(c, st, ps, k1, left);
      if !ok { return; }
      ghost var (m1, st1) := (Snap(), st2);
      ok, results, st2 := Tuple(c, st1, rs, k, left);
      if !ok {
        DirtyBack(c, st, items, m0, st1, k1, m1);
        return;
      }
      WentTrans(c, st, items, m0, st1, k1, m1, st2, k, Snap());
      GrownLater(c, st1, m1, st2, Snap(), {});
      ParamsStay(st1, m1.typList, st2, typList, ps, |ps|);
    }

    // -------------------------------------------------------------------------
    // Interfaces

    method Member(ghost c: Source, ghost st: St, ghost m: Member, ghost k: Items, ghost left: set<Ref>)
        returns (ok: bool, method1: Member, ghost st2: St)
      requires At(c, st, MemberThen(m, k)) && IsSignature(c.g, m.typ) && Owned(m.pkg, m.name) && PkgKnown(c, m.pkg)
      requires c.g.Keys - st.types.Keys <= left
      modifies this
      ensures ok ==> Read(c, st, MemberThen(m, k), old(Snap()), st2, k)
      ensures ok ==> m.typ in st2.types && method1 == ImgMember(c, st2, typList, m)
      ensures !ok ==> Dirty(c, st, MemberThen(m, k))
      decreases left, 3
    {
      ghost var m0 := Snap();
      var pkg, name, typ;
      ghost var k1 := Cons(T(m.typ), k);
      pkg, name, st2 := QualifiedName(c, st, m.pkg, m.name, k1);
      ghost var (m1, st1) := (Snap(), st2);
      method1 := TypeGraph.Member(pkg, name, NIL);
      ok, typ, st2 := Typ(c, st1, m.typ, k, left);
      if !ok {
        DirtyBack(c, st, MemberThen(m, k), m0, st1, k1, m1);
        return;
      }
      WentTrans(c, st, MemberThen(m, k), m0, st1, k1, m1, st2, k, Snap());
      KindOf(c, st2, Snap(), m.typ);
      assert IsSignature(heap, typ);
      method1 := TypeGraph.Member(pkg, name, typ);
    }

    ghost predicate MembersRead(c: Source, st: St, ms: seq<Member>, k: Items, m0: Mem, st2: St, i: nat, methods: seq<Member>)
      requires i <= |ms|
      reads this
    {
      && Read(c, st, MembersThen(ms, 0, k), m0, st2, MembersThen(ms, i, k))
      && MembersSeen(st2, ms, i) && methods == ImgMembers(c, st2, typList, ms, i)
    }

    method NextMember(before: seq<Member>, ghost c: Source, ghost st: St, ghost ms: seq<Member>, ghost i: nat, ghost k: Items,
                      ghost m0: Mem, ghost st1: St, ghost left: set<Ref>)
        returns (ok: bool, methods: seq<Member>, ghost st2: St)
      requires i < |ms| && MembersRead(c, st, ms, k, m0, st1, i, before) && c.g.Keys - st.types.Keys <= left
      requires IsSignature(c.g, ms[i].typ) && Owned(ms[i].pkg, ms[i].name) && PkgKnown(c, ms[i].pkg)
      modifies this
      ensures ok ==> MembersRead(c, st, ms, k, m0, st2, i + 1, methods)
      ensures !ok ==> Dirty(c, st, MembersThen(ms, 0, k))
      decreases left, 4
    {
      ghost var m1 := Snap();
      var f;
      methods := before;
      ok, f, st2 := Member(c, st1, ms[i], MembersThen(ms, i + 1, k), left);
      if !ok {
        DirtyBack(c, st, MembersThen(ms, 0, k), m0, st1, MembersThen(ms, i, k), m1);
        return;
      }
      WentTrans(c, st, MembersThen(ms, 0, k), m0, st1, MembersThen(ms, i, k), m1, st2, MembersThen(ms, i + 1, k), Snap());
      GrownLater(c, st1, m1, st2, Snap(), {});
      MembersStay(c, st1, m1.typList, st2, typList, ms, i);
      methods := methods + [f];
    }

    method Members(n: nat, ghost c: Source, ghost st: St, ghost ms: seq<Member>, ghost k: Items, ghost left: set<Ref>)
        returns (ok: bool, methods: seq<Member>, ghost st2: St)
      requires At(c, st, MembersThen(ms, 0, k)) && n == |ms| && c.g.Keys - st.types.Keys <= left
      requires forall m :: m in ms ==> IsSignature(c.g, m.typ) && Owned(m.pkg, m.name) && PkgKnown(c, m.pkg)
      modifies this
      ensures ok ==> MembersRead(c, st, ms, k, old(Snap()), st2, |ms|, methods)
      ensures !ok ==> Dirty(c, st, MembersThen(ms, 0, k))
      decreases left, 5
    {
      ghost var m0 := Snap();
      ok, methods, st2 := true, [], st;
      WentNowhere(c, st, MembersThen(ms, 0, k), m0);
      var i := 0;
      while i < n
        invariant 0 <= i <= n && ok && MembersRead(c, st, ms, k, m0, st2, i, methods)
      {
        assert ms[i] in ms;
        ok, methods, st2 := NextMember(methods, c, st, ms, i, k, m0, st2, left);
        if !ok { return; }
        i := i + 1;
      }
    }

    ghost predicate EmbeddedsRead(c: Source, st: St, es: seq<Ref>, k: Items, m0: Mem, st2: St, i: nat, embeddeds: seq<Ref>)
      requires i <= |es|
      reads this
    {
      forall z: nat {:trigger Unwrap(z)} :: Unwrap(z) ==>
        && Read(c, st, RefsThen(es, 0, k), m0, st2, RefsThen(es, i, k))
        && RefsSeen(st2, es, i) && embeddeds == ImgRefs(st2, typList, es, i)
    }

    lemma NoEmbeddeds(c: Source, st: St, es: seq<Ref>, k: Items)
      requires At(c, st, RefsThen(es, 0, k))
      ensures EmbeddedsRead(c, st, es, k, Snap(), st, 0, [])
    {
      WentNowhere(c, st, RefsThen(es, 0, k), Snap());
    }

    method NextEmbedded(before: seq<Ref>, ghost c: Source, ghost st: St, ghost es: seq<Ref>, ghost i: nat, ghost k: Items,
                        ghost m0: Mem, ghost st1: St, ghost left: set<Ref>)
        returns (ok: bool, embeddeds: seq<Ref>, ghost st2: St)
      requires i < |es| && EmbeddedsRead(c, st, es, k, m0, st1, i, before) && c.g.Keys - st.types.Keys <= left
      requires IsNamed(c.g, es[i])
      modifies this
      ensures ok ==> EmbeddedsRead(c, st, es, k, m0, st2, i + 1, embeddeds)
      ensures !ok ==> Dirty(c, st, RefsThen(es, 0, k))
      decreases left, 4
    {
      ghost var m1 := Snap();
      var e;
      embeddeds := before;
      assert Unwrap(0);
      ok, e, st2 := Typ(c, st1, es[i], RefsThen(es, i + 1, k), left);
      if !ok {
        DirtyBack(c, st, RefsThen(es, 0, k), m0, st1, RefsThen(es, i, k), m1);
        return;
      }
      WentTrans(c, st, RefsThen(es, 0, k), m0, st1, RefsThen(es, i, k), m1, st2, RefsThen(es, i + 1, k), Snap());
      GrownLater(c, st1, m1, st2, Snap(), {});
      RefsStay(st1, m1.typList, st2, typList, es, i);
      KindOf(c, st2, Snap(), es[i]);
      assert IsNamed(heap, e);
      embeddeds := embeddeds + [e];
    }

    method Embeddeds(n: nat, ghost c: Source, ghost st: St, ghost es: seq<Ref>, ghost k: Items, ghost left: set<Ref>)
        returns (ok: bool, embeddeds: seq<Ref>, ghost st2: St)
      requires At(c, st, RefsThen(es, 0, k)) && n == |es| && c.g.Keys - st.types.Keys <= left
      requires forall e :: e in es ==> IsNamed(c.g, e)
      modifies this
      ensures ok ==> EmbeddedsRead(c, st, es, k, old(Snap()), st2, |es|, embeddeds)
      ensures !ok ==> Dirty(c, st, RefsThen(es, 0, k))
      decreases left, 5
    {
      ghost var m0 := Snap();
      ok, embeddeds, st2 := true, [], st;
      NoEmbeddeds(c, st, es, k);
      var i := 0;
      while i < n
        invariant 0 <= i <= n && ok && EmbeddedsRead(c, st, es, k, m0, st2, i, embeddeds)
      {
        assert es[i] in es;
        ok, embeddeds, st2 := NextEmbedded(embeddeds, c, st, es, i, k, m0, st2, left);
        if !ok { return; }
        i := i + 1;
      }
    }

    method InterfaceType(ghost c: Source, ghost st: St, ghost r: Ref, ghost k: Items, ghost left: set<Ref>)
        returns (ok: bool, t: Ref, ghost st2: St)
      requires AtBody(c, st, r, k) && c.g[r].Interface? && c.g.Keys - st.Opened(r).types.Keys <= left
      modifies this
      ensures ok ==> Read(c, st, Cons(T(r), k), old(Snap()), st2, k) && ReadRef(st2, r, t)
      ensures !ok ==> Dirty(c, st.Opened(r), Body(c.g, r, c.g[r], k))
      decreases left, 9
    {
      ghost var (m0, end) := (Snap(), Cons(Close(r), k));
      ghost var (ms, es) := (c.g[r].methods, c.g[r].embeddeds);
      ghost var st1 := st.Opened(r);
      SourceType(c, st, r, Snap());
      t := New(Type.Interface([], []), c, st, r);
      ghost var m1 := Snap();
      ghost var (body, needs) := (Body(c.g, r, c.g[r], k), NeedsThen(es, 0, end));
      var methods, embeddeds;
      ok, methods, embeddeds, st2 := InterfaceParts(c, st1, ms, es, needs, left);
      if !ok { return; }
      ghost var m2 := Snap();
      OpenBefore(c, st, m0, r, m1, st2, m2);
      ok := NewInterface(methods, embeddeds, c, st2, r, end);
      if !ok {
        DirtyBack(c, st1, body, m1, st2, needs, m2);
        return;
      }
      WentTrans(c, st1, body, m1, st2, needs, m2, st2, end, Snap());
      st2 := Finish(t, Type.Interface(methods, embeddeds), None, c, st, m0, m1, st2, r, k);
    }

    method InterfaceParts(ghost c: Source, ghost st: St, ghost ms: seq<Member>, ghost es: seq<Ref>, ghost k: Items,
                          ghost left: set<Ref>)
        returns (ok: bool, methods: seq<Member>, embeddeds: seq<Ref>, ghost st2: St)
      requires At(c, st, Cons(N(|ms|), MembersThen(ms, 0, Cons(N(|es|), RefsThen(es, 0, k)))))
      requires c.g.Keys - st.types.Keys <= left
      requires forall m :: m in ms ==> IsSignature(c.g, m.typ) && Owned(m.pkg, m.name) && PkgKnown(c, m.pkg)
      requires forall e :: e in es ==> IsNamed(c.g, e)
      modifies this
      ensures ok ==> Read(c, st, Cons(N(|ms|), MembersThen(ms, 0, Cons(N(|es|), RefsThen(es, 0, k)))), old(Snap()), st2, k)
      ensures ok ==> MembersSeen(st2, ms, |ms|) && methods == ImgMembers(c, st2, typList, ms, |ms|)
      ensures ok ==> RefsSeen(st2, es, |es|) && embeddeds == ImgRefs(st2, typList, es, |es|)
      ensures !ok ==> Dirty(c, st, Cons(N(|ms|), MembersThen(ms, 0, Cons(N(|es|), RefsThen(es, 0, k)))))
      decreases left, 8
    {
      ghost var m0 := Snap();
      embeddeds := [];
      ghost var k3 := RefsThen(es, 0, k);
      ghost var k2 := Cons(N(|es|), k3);
      ghost var k1 := MembersThen(ms, 0, k2);
      ghost var items := Cons(N(|ms|), k1);
      var n := ReadNum(c, st, |ms|, k1);
      ok, methods, st2 := Members(n, c, st, ms, k2, left);
      if !ok {
        DirtyBack(c, st, items, m0, st, k1, m0);
        return;
      }
      ghost var (m1, st1) := (Snap(), st2);
      WentTrans(c, st, items, m0, st, k1, m0, st1, k2, m1);
      n := ReadNum(c, st1, |es|, k3);
      WentTrans(c, st, items, m0, st1, k2, m1, st1, k3, m1);
      ok, embeddeds, st2 := Embeddeds(n, c, st1, es, k, left);
      assert Unwrap(0);
      if !ok {
        DirtyBack(c, st, items, m0, st1, k3, m1);
        return;
      }
      WentTrans(c, st, items, m0, st1, k3, m1, st2, k, Snap());
      GrownLater(c, st1, m1, st2, Snap(), {});
      MembersStay(c, st1, m1.typList, st2, typList, ms, |ms|);
    }

    /** NewInterface: sets the receivers of the methods, to a new interface object that is not the one
        recorded, and looks up the underlying types of the embedded types. */
    method NewInterface(methods: seq<Member>, embeddeds: seq<Ref>, ghost c: Source, ghost st: St, ghost r: Ref, ghost k: Items)
        returns (ok: bool)
      requires r in c.g && c.g[r].Interface? && TypeOk(c.g, c.g[r]) && r in st.types && NumberedBefore(c, st, r)
      requires var (ms, es) := (c.g[r].methods, c.g[r].embeddeds);
        && At(c, st, NeedsThen(es, 0, k)) && MembersSeen(st, ms, |ms|) && RefsSeen(st, es, |es|)
        && methods == ImgMembers(c, st, typList, ms, |ms|) && embeddeds == ImgRefs(st, typList, es, |es|)
      modifies this`heap, this`recvs, this`rebound, this`next
      ensures AllRebound(c, st, Snap(), r)
      ensures ok ==> Read(c, st, NeedsThen(c.g[r].embeddeds, 0, k), old(Snap()), st, k)
      ensures !ok ==> Dirty(c, st, NeedsThen(c.g[r].embeddeds, 0, k))
    {
      ghost var m0 := Snap();
      var temp := NewObject(Type.Interface(methods, embeddeds), c, st);
      ghost var m1 := Snap();
      SetReceivers(methods, temp, c, st, r);
      GrownTrans(c, st, m0, st, m1, st, Snap(), {}, {});
      ok := LookUp(embeddeds, c, st, c.g[r].embeddeds, k);
    }

    method NewObject(t: Type, ghost c: Source, ghost st: St) returns (a: Ref)
      requires Ready(c, st)
      modifies this`heap, this`next
      ensures Ready(c, st) && Grown(c, st, old(Snap()), st, Snap(), {})
      ensures a in heap && heap[a] == t && Apart(st, typList, a) && a !in c.heap
    {
      AllocTemp(c, st, Snap(), t);
      a := next;
      heap := heap[a := t];
      next := next + 1;
    }

    method LookUp(embeddeds: seq<Ref>, ghost c: Source, ghost st: St, ghost es: seq<Ref>, ghost k: Items) returns (ok: bool)
      requires At(c, st, NeedsThen(es, 0, k)) && RefsSeen(st, es, |es|) && embeddeds == ImgRefs(st, typList, es, |es|)
      requires forall e :: e in es ==> IsNamed(c.g, e) && c.g[e].underlying in c.g && c.g[c.g[e].underlying].Interface?
      ensures ok ==> SameFate(c, st, NeedsThen(es, 0, k), st, k) && Stream(c, st, k, data)
      ensures !ok ==> Dirty(c, st, NeedsThen(es, 0, k))
    {
      var j := 0;
      ok := true;
      RefsLength(st, typList, es, |es|);
      while j < |embeddeds|
        invariant 0 <= j <= |embeddeds| == |es| && ok
        invariant SameFate(c, st, NeedsThen(es, 0, k), st, NeedsThen(es, j, k)) && Stream(c, st, NeedsThen(es, j, k), data)
      {
        assert es[j] in es;
        RefAt(st, typList, es, |es|, j);
        EmbeddedUnderlying(c, st, Snap(), es[j]);
        NeedNext(c, st, es, j, k, data);
        var u := heap[embeddeds[j]].underlying;
        if u !in heap || !heap[u].Interface? {
          ok := false;
          return;
        }
        j := j + 1;
      }
    }

    method SetReceivers(methods: seq<Member>, temp: Ref, ghost c: Source, ghost st: St, ghost r: Ref)
      requires Ready(c, st) && r in c.g && c.g[r].Interface? && TypeOk(c.g, c.g[r]) && r in st.types && NumberedBefore(c, st, r)
      requires var ms := c.g[r].methods; MembersSeen(st, ms, |ms|) && methods == ImgMembers(c, st, typList, ms, |ms|)
      requires AllSeen(st, c.g[r]) && Temp(c, st, Snap(), r, temp)
      modifies this`recvs, this`rebound
      ensures Ready(c, st) && Grown(c, st, old(Snap()), st, Snap(), {}) && AllRebound(c, st, Snap(), r)
      ensures ReceiversSet(methods, |methods|, temp, old(rebound), rebound, recvs)
    {
      ghost var m0 := Snap();
      RelRefl(c, st, m0);
      MembersLength(c, st, typList, c.g[r].methods, |c.g[r].methods|);
      var i := 0;
      while i < |methods|
        invariant 0 <= i <= |methods| == |c.g[r].methods| && Ready(c, st) && Grown(c, st, m0, st, Snap(), {}) && Temp(c, st, Snap(), r, temp)
        invariant ReceiversSet(methods, i, temp, m0.rebound, rebound, recvs)
      {
        MemberSignature(c, st, typList, r, i);
        OneReceiver(methods, i, temp, m0.rebound, rebound, recvs);
        SetReceiver(methods[i].typ, temp, c, st, r, i, m0);
        i := i + 1;
      }
      SetMeansAll(c, st, Snap(), r, methods, temp, m0.rebound);
    }

    method SetReceiver(sig: Ref, temp: Ref, ghost c: Source, ghost st: St, ghost r: Ref, ghost i: nat, ghost m0: Mem)
      requires Ready(c, st) && Grown(c, st, m0, st, Snap(), {}) && r in c.g && c.g[r].Interface? && i < |c.g[r].methods|
      requires c.g[r].methods[i].typ in st.types && c.g[r].methods[i].typ in c.g && sig == Img(st, typList, c.g[r].methods[i].typ)
      requires r in st.types && NumberedBefore(c, st, r) && AllSeen(st, c.g[r]) && Temp(c, st, Snap(), r, temp)
      modifies this`recvs, this`rebound
      ensures Ready(c, st) && Grown(c, st, m0, st, Snap(), {}) && Temp(c, st, Snap(), r, temp)
      ensures rebound == old(rebound) + {sig} && recvs == old(recvs)[sig := Some(TypeGraph.Param("", temp))]
    {
      ghost var m1 := Snap();
      NotNil(c, c.g[r].methods[i].typ);
      Rebind(c, st, m1, r, i, temp);
      recvs := recvs[sig := Some(TypeGraph.Param("", temp))];
      rebound := rebound + {sig};
      GrownTrans(c, st, m0, st, m1, st, Snap(), {}, {});
    }

    // -------------------------------------------------------------------------
    // Named types

    /** The named type r, recorded as a at (st1, m1), is in the making; items are left to read in state
        st2, where open types are in the making. */
    ghost predicate Making(c: Source, st: St, whole: Items, st1: St, m1: Mem, st2: St, items: Items, r: Ref, a: Ref, open: set<Ref>)
      reads this
    {
      && At(c, st2, items) && Reading(c, st1, m1, st2, Snap(), r) && SameFate(c, st, whole, st2, items)
      && st.types.Keys <= st2.types.Keys && st2.open == open
      && IsNamed(c.g, r) && a == Img(st2, typList, r) && a in heap && heap[a].Named?
      && heap[a].name == c.g[r].name && heap[a].pkg == c.g[r].pkg
    }

    method NamedType(ghost c: Source, ghost st: St, ghost r: Ref, ghost k: Items, ghost left: set<Ref>)
        returns (ok: bool, t: Ref, ghost st2: St)
      requires AtBody(c, st, r, k) && c.g[r].Named? && c.g.Keys - st.Opened(r).types.Keys <= left
      modifies this
      ensures ok ==> Read(c, st, Cons(T(r), k), old(Snap()), st2, k) && ReadRef(st2, r, t)
      ensures ok && HasPlace(c.g, r) ==> Place(c.g, r) in scope && scope[Place(c.g, r)] == t
      ensures !ok ==> Dirty(c, st.Opened(r), Body(c.g, r, c.g[r], k))
      decreases left, 9
    {
      ghost var m0 := Snap();
      SourceType(c, st, r, m0);
      ghost var st1, m1;
      var found;
      found, t, st1, m1 := NamedHead(c, st, r, k);
      if found {
        ok, st2 := HeldParts(t, c, st, m0, st1, r, k, left);
      } else {
        ok, st2 := NewParts(t, c, st, m0, st1, m1, r, k, left);
      }
      if ok && HasPlace(c.g, r) { PlaceThere(c, st2, Snap(), r); }
    }

    /** The contents of a new named type. */
    method NewParts(t: Ref, ghost c: Source, ghost st: St, ghost m0: Mem, ghost st1: St, ghost m1: Mem, ghost r: Ref, ghost k: Items,
                    ghost left: set<Ref>)
        returns (ok: bool, ghost st2: St)
      requires IsNamed(c.g, r) && TypeOk(c.g, c.g[r]) && r !in st.types && r !in st.open && r in st.Opened(r).open
      requires Making(c, st.Opened(r), Body(c.g, r, c.g[r], k), st1, m1, st1.Opened(r), UnderlyingThen(c.g, r, k), r, t,
                      st.Opened(r).open)
      requires Grown(c, st, m0, st1, m1, {}) && st1.types == st.types && heap[t].underlying == NIL && heap[t].funcs == []
      requires c.g.Keys - st.Opened(r).types.Keys <= left
      modifies this
      ensures ok ==> Read(c, st, Cons(T(r), k), m0, st2, k) && ReadRef(st2, r, t)
      ensures !ok ==> Dirty(c, st.Opened(r), Body(c.g, r, c.g[r], k))
      decreases left, 8
    {
      ghost var (sr, whole) := (st.Opened(r), Body(c.g, r, c.g[r], k));
      ok, st2 := NamedUnderlying(t, c, sr, whole, st1, m1, r, k, left);
      if !ok { return; }
      ok, st2 := NamedMethods(t, c, sr, whole, st1, m1, st2, r, k, sr.open - {r}, left);
      if !ok { return; }
      GrownTrans(c, st, m0, st1, m1, st2, Snap(), {}, {});
      TagNext(c, st, r, st2, k);
    }

    /** The name and the package of a named type. If something of that name is in the package's scope, it is
        the type; if not, a new type goes into scope. */
    method NamedHead(ghost c: Source, ghost st: St, ghost r: Ref, ghost k: Items)
        returns (found: bool, t: Ref, ghost st1: St, ghost m1: Mem)
      requires AtBody(c, st, r, k) && c.g[r].Named?
      modifies this
      ensures found <==> r in c.held
      ensures found ==> HeldAt(c, st, old(Snap()), st1, r, k, t)
      ensures !found ==> Making(c, st.Opened(r), Body(c.g, r, c.g[r], k), st1, m1, st1.Opened(r), UnderlyingThen(c.g, r, k), r, t,
                                st.Opened(r).open)
      ensures !found ==> Grown(c, st, old(Snap()), st1, m1, {}) && st1.types == st.types && r in st.Opened(r).open
      ensures !found ==> heap[t].underlying == NIL && heap[t].funcs == []
    {
      ghost var m0 := Snap();
      SourceType(c, st, r, m0);
      var name, pkg;
      name, pkg, st1 := NameAndPackage(c, st, r, k);
      m1 := Snap();
      var key := (pkg.value.path, name);
      ScopeTells(c, st1, m1, r);
      SourceType(c, st1, r, m1);
      found := key in scope;
      if found {
        t := scope[key];
        RecordHeld(t, c, st, m0, st1, r, k);
      } else {
        t := NewNamed(name, pkg, c, st1, r);
      }
    }

    /** The name of a named type, and its package. */
    method NameAndPackage(ghost c: Source, ghost st: St, ghost r: Ref, ghost k: Items)
        returns (name: string, pkg: Option<Pkg>, ghost st1: St)
      requires AtBody(c, st, r, k) && c.g[r].Named? && c.g[r].pkg.Some? && PkgKnown(c, c.g[r].pkg)
      modifies this`data, this`imports, this`pkgList
      ensures name == c.g[r].name && pkg == c.g[r].pkg && st1 == AfterPkg(st, pkg)
      ensures Ready(c, st1) && Stream(c, st1.Opened(r), UnderlyingThen(c.g, r, k), data) && Grown(c, st, old(Snap()), st1, Snap(), {})
      ensures SameFate(c, st.Opened(r), Body(c.g, r, c.g[r], k), st1.Opened(r), UnderlyingThen(c.g, r, k))
    {
      NamedNext(c, st, r, k, data);
      name := data[0].s;
      data := data[1..];
      st1 := AfterPkg(st, c.g[r].pkg);
      pkg := Package(c, st, c.g[r].pkg, Emit(c.g, st1.Opened(r), UnderlyingThen(c.g, r, k)).toks);
    }

    /** A new type goes into the scope of its package. */
    method NewNamed(name: string, pkg: Option<Pkg>, ghost c: Source, ghost st: St, ghost r: Ref) returns (t: Ref)
      requires Ready(c, st) && IsNamed(c.g, r) && r !in st.types && r !in c.held && pkg.Some? && PkgKnown(c, pkg)
      requires c.g[r].name == name && c.g[r].pkg == pkg
      modifies this`typList, this`heap, this`recvs, this`next, this`scope
      ensures Ready(c, st.Opened(r)) && Reading(c, st, old(Snap()), st.Opened(r), Snap(), r) && t == Img(st.Opened(r), typList, r)
      ensures t in heap && heap[t] == Type.Named(name, pkg, NIL, [])
    {
      ghost var m := Snap();
      var zero := Type.Named(name, pkg, NIL, []);
      var newScope := if name == "_" then scope else scope[(pkg.value.path, name) := next];
      FreshNamed(c, st, m, r, zero, newScope);
      SourceType(c, st, r, m);
      t := Record(zero, newScope, c, st, r);
      ReadingAt(c, st, m, st.Opened(r), Snap(), r);
    }

    /** The named type r, which was imported before as a, has been recorded; its contents are left to read. */
    ghost predicate HeldAt(c: Source, st: St, m0: Mem, st1: St, r: Ref, k: Items, a: Ref)
      reads this
    {
      && IsNamed(c.g, r) && At(c, st1.Opened(r), UnderlyingThen(c.g, r, k)) && Grown(c, st, m0, st1.Opened(r), Snap(), {})
      && SameFate(c, st.Opened(r), Body(c.g, r, c.g[r], k), st1.Opened(r), UnderlyingThen(c.g, r, k))
      && st1.types == st.types && st1.open == st.open && r !in st.open && st1.Opened(r).open == st.open && r in c.held
      && a == Img(st1.Opened(r), typList, r) && a == c.held[r] && HeldOk(c, r)
    }

    method RecordHeld(t: Ref, ghost c: Source, ghost st: St, ghost m0: Mem, ghost st1: St, ghost r: Ref, ghost k: Items)
      requires IsNamed(c.g, r) && Ready(c, st1) && Stream(c, st1.Opened(r), UnderlyingThen(c.g, r, k), data)
      requires Grown(c, st, m0, st1, Snap(), {}) && st1.types == st.types && st1.open == st.open
      requires SameFate(c, st.Opened(r), Body(c.g, r, c.g[r], k), st1.Opened(r), UnderlyingThen(c.g, r, k))
      requires r !in st1.types && r !in st1.open && r in c.held && t == c.held[r] && HeldOk(c, r) && r in st1.held
      modifies this`typList
      ensures HeldAt(c, st, m0, st1, r, k, t)
    {
      ghost var m1 := Snap();
      HeldFound(c, st1, m1, r);
      assert st1.Opened(r).Closed(r) == st1.Opened(r);
      RecordOld(t, c, st1, r);
      GrownTrans(c, st, m0, st1, m1, st1.Opened(r), Snap(), {}, {});
    }

    /** The contents of a type imported before are read, but it has its underlying type and its methods. */
    method HeldParts(t: Ref, ghost c: Source, ghost st: St, ghost m0: Mem, ghost st1: St, ghost r: Ref, ghost k: Items,
                     ghost left: set<Ref>)
        returns (ok: bool, ghost st2: St)
      requires HeldAt(c, st, m0, st1, r, k, t) && r !in st.types && TypeOk(c.g, c.g[r]) && c.g.Keys - st1.Opened(r).types.Keys <= left
      modifies this
      ensures ok ==> Read(c, st, Cons(T(r), k), m0, st2, k) && ReadRef(st2, r, t)
      ensures !ok ==> Dirty(c, st.Opened(r), Body(c.g, r, c.g[r], k))
      decreases left, 8
    {
      ghost var (sr, whole, sh, items, m1) := (st.Opened(r), Body(c.g, r, c.g[r], k), st1.Opened(r), UnderlyingThen(c.g, r, k), Snap());
      ok, st2 := HeldUnderlying(t, c, sh, r, k, left);
      if !ok {
        DirtyFate(c, sr, whole, sh, items);
        return;
      }
      ghost var (m2, stu) := (Snap(), st2);
      ok, st2 := HeldMethods(t, c, stu, r, k, left);
      if !ok {
        DirtyBack(c, sh, items, m1, stu, FuncsThen(c.g, r, k), m2);
        DirtyFate(c, sr, whole, sh, items);
        return;
      }
      WentTrans(c, sh, items, m1, stu, FuncsThen(c.g, r, k), m2, st2, k, Snap());
      FateTrans(c, sr, whole, sh, items, st2, k);
      GrownTrans(c, st, m0, sh, m1, st2, Snap(), {}, {});
      GrownSeen(c, sh, m1, st2, Snap(), {}, r);
      TagNext(c, st, r, st2, k);
    }

    /** The underlying type that is read is not the one that the type has. */
    method HeldUnderlying(t: Ref, ghost c: Source, ghost st: St, ghost r: Ref, ghost k: Items, ghost left: set<Ref>)
        returns (ok: bool, ghost st2: St)
      requires IsNamed(c.g, r) && At(c, st, UnderlyingThen(c.g, r, k)) && TypeOk(c.g, c.g[r]) && c.g.Keys - st.types.Keys <= left
      requires r in c.held && t == c.held[r] && HeldOk(c, r) && r !in st.open
      modifies this
      ensures ok ==> Read(c, st, UnderlyingThen(c.g, r, k), old(Snap()), st2, FuncsThen(c.g, r, k))
      ensures !ok ==> Dirty(c, st, UnderlyingThen(c.g, r, k))
      decreases left, 7
    {
      ghost var funcs := FuncsThen(c.g, r, k);
      var typ;
      ok, typ, st2 := Typ(c, st, c.g[r].underlying, Cons(Close(r), funcs), left);
      if ok {
        assert st2.Closed(r) == st2;
        CloseStep(c, st, UnderlyingThen(c.g, r, k), st2, r, funcs, data);
        HeldObject(c, st2, Snap(), r);
        assert heap[t].underlying != NIL;
      }
    }

    /** The methods are read, but each has a name that the type has a method of already. */
    method HeldMethods(t: Ref, ghost c: Source, ghost st: St, ghost r: Ref, ghost k: Items, ghost left: set<Ref>)
        returns (ok: bool, ghost st2: St)
      requires IsNamed(c.g, r) && At(c, st, FuncsThen(c.g, r, k)) && TypeOk(c.g, c.g[r]) && c.g.Keys - st.types.Keys <= left
      requires r in c.held && t == c.held[r] && HeldOk(c, r)
      modifies this
      ensures ok ==> Read(c, st, FuncsThen(c.g, r, k), old(Snap()), st2, k)
      ensures !ok ==> Dirty(c, st, FuncsThen(c.g, r, k))
      decreases left, 7
    {
      ghost var (m0, params) := (Snap(), ParamsThen(c.g[r].funcs, 0, k));
      var n := ReadNum(c, st, |c.g[r].funcs|, params);
      ok, st2 := HeldFuncs(n, t, c, st, r, k, left);
      if ok {
        WentTrans(c, st, FuncsThen(c.g, r, k), m0, st, params, m0, st2, k, Snap());
      } else {
        DirtyBack(c, st, FuncsThen(c.g, r, k), m0, st, params, m0);
      }
    }

    method HeldFuncs(n: int, t: Ref, ghost c: Source, ghost st: St, ghost r: Ref, ghost k: Items, ghost left: set<Ref>)
        returns (ok: bool, ghost st2: St)
      requires IsNamed(c.g, r) && n == |c.g[r].funcs| && At(c, st, ParamsThen(c.g[r].funcs, 0, k)) && TypeOk(c.g, c.g[r])
      requires c.g.Keys - st.types.Keys <= left && r in c.held && t == c.held[r] && HeldOk(c, r)
      modifies this
      ensures ok ==> Read(c, st, ParamsThen(c.g[r].funcs, 0, k), old(Snap()), st2, k)
      ensures !ok ==> Dirty(c, st, ParamsThen(c.g[r].funcs, 0, k))
      decreases left, 6
    {
      ghost var (m0, ms) := (Snap(), c.g[r].funcs);
      WentNowhere(c, st, ParamsThen(ms, 0, k), m0);
      var methods := [];
      ok, st2 := true, st;
      var i := 0;
      while i < n
        invariant 0 <= i <= n && ok && ParamsRead(c, st, ms, k, m0, st2, i, methods)
      {
        assert ms[i] in ms;
        ok, methods, st2 := NextParam(methods, c, st, ms, i, k, m0, st2, left);
        if !ok { return; }
        HeldMethod(t, methods, c, st, st2, r, k, m0, i);
        i := i + 1;
      }
      assert Unwrap(0);
    }

    /** The underlying type of a named type, which the type gets as soon as it is read. */
    method NamedUnderlying(t: Ref, ghost c: Source, ghost sr: St, ghost whole: Items, ghost st1: St, ghost m1: Mem,
                           ghost r: Ref, ghost k: Items, ghost left: set<Ref>)
        returns (ok: bool, ghost st2: St)
      requires IsNamed(c.g, r) && Making(c, sr, whole, st1, m1, st1.Opened(r), UnderlyingThen(c.g, r, k), r, t, sr.open) && r in sr.open
      requires c.g.Keys - sr.types.Keys <= left && heap[t].underlying == NIL && heap[t].funcs == [] && TypeOk(c.g, c.g[r])
      modifies this
      ensures ok ==> Making(c, sr, whole, st1, m1, st2, FuncsThen(c.g, r, k), r, t, sr.open - {r})
      ensures ok ==> c.g[r].underlying in st2.types && heap[t].underlying == Img(st2, typList, c.g[r].underlying) && heap[t].funcs == []
      ensures !ok ==> Dirty(c, sr, whole)
      decreases left, 7
    {
      ghost var (m2, items, u) := (Snap(), UnderlyingThen(c.g, r, k), c.g[r].underlying);
      var typ;
      ok, typ, st2 := Typ(c, st1.Opened(r), u, Cons(Close(r), FuncsThen(c.g, r, k)), left);
      if !ok {
        DirtyFate(c, sr, whole, st1.Opened(r), items);
        return;
      }
      FateTrans(c, sr, whole, st1.Opened(r), items, st2, Cons(Close(r), FuncsThen(c.g, r, k)));
      ReadOn(c, st1, m1, st1.Opened(r), m2, st2, Snap(), r);
      KindOf(c, st2, Snap(), u);
      assert typ in heap && !heap[typ].Named?;
      StoreUnderlying(t, typ, c, sr, whole, st1, m1, st2, r, k);
      st2 := st2.Closed(r);
    }

    /** `SetUnderlying`. */
    method StoreUnderlying(t: Ref, typ: Ref, ghost c: Source, ghost sr: St, ghost whole: Items, ghost st1: St, ghost m1: Mem, ghost st2: St,
                           ghost r: Ref, ghost k: Items)
      requires IsNamed(c.g, r) && Making(c, sr, whole, st1, m1, st2, Cons(Close(r), FuncsThen(c.g, r, k)), r, t, sr.open) && r in sr.open
      requires heap[t].underlying == NIL && heap[t].funcs == [] && TypeOk(c.g, c.g[r])
      requires c.g[r].underlying in st2.types && typ == Img(st2, typList, c.g[r].underlying)
      modifies `heap
      ensures Making(c, sr, whole, st1, m1, st2.Closed(r), FuncsThen(c.g, r, k), r, t, sr.open - {r})
      ensures heap[t].underlying == typ && heap[t].funcs == []
    {
      SetUnderlying(c, st1, m1, st2, Snap(), r);
      CloseStep(c, sr, whole, st2, r, FuncsThen(c.g, r, k), data);
      heap := heap[t := heap[t].(underlying := typ)];
      ReadingAt(c, st1, m1, st2.Closed(r), Snap(), r);
    }

    /** After i methods. */
    ghost predicate Adding(c: Source, sr: St, whole: Items, st1: St, m1: Mem, st2: St, r: Ref, k: Items, i: nat, t: Ref, open: set<Ref>)
      requires r in c.g && c.g[r].Named? && i <= |c.g[r].funcs|
      reads this
    {
      && Making(c, sr, whole, st1, m1, st2, ParamsThen(c.g[r].funcs, i, k), r, t, open)
      && c.g[r].underlying in st2.types && heap[t].underlying == Img(st2, typList, c.g[r].underlying)
      && ParamsSeen(st2, c.g[r].funcs, i) && heap[t].funcs == ImgParams(st2, typList, c.g[r].funcs, i)
    }

    method NamedMethods(t: Ref, ghost c: Source, ghost sr: St, ghost whole: Items, ghost st1: St, ghost m1: Mem, ghost stu: St,
                        ghost r: Ref, ghost k: Items, ghost open: set<Ref>, ghost left: set<Ref>)
        returns (ok: bool, ghost st2: St)
      requires IsNamed(c.g, r) && Making(c, sr, whole, st1, m1, stu, FuncsThen(c.g, r, k), r, t, open) && TypeOk(c.g, c.g[r])
      requires c.g.Keys - sr.types.Keys <= left
      requires c.g[r].underlying in stu.types && heap[t].underlying == Img(stu, typList, c.g[r].underlying) && heap[t].funcs == []
      modifies this
      ensures ok ==> At(c, st2, k) && SameFate(c, sr, whole, st2, k) && Grown(c, st1, m1, st2, Snap(), {})
      ensures ok ==> ReadRef(st2, r, t) && st2.open == open && sr.types.Keys <= st2.types.Keys
      ensures !ok ==> Dirty(c, sr, whole)
      decreases left, 7
    {
      var n := FuncCount(t, c, sr, whole, st1, m1, stu, r, k, open);
      ok, st2 := AddMethods(n, t, c, sr, whole, st1, m1, stu, r, k, open, left);
      if !ok { return; }
      ReadingAt(c, st1, m1, st2, Snap(), r);
      NamedDone(c, st1, m1, st2, Snap(), r);
    }

    method AddMethods(n: nat, t: Ref, ghost c: Source, ghost sr: St, ghost whole: Items, ghost st1: St, ghost m1: Mem,
                      ghost stu: St, ghost r: Ref, ghost k: Items, ghost open: set<Ref>, ghost left: set<Ref>)
        returns (ok: bool, ghost st2: St)
      requires IsNamed(c.g, r) && TypeOk(c.g, c.g[r]) && n == |c.g[r].funcs| && c.g.Keys - sr.types.Keys <= left
      requires Adding(c, sr, whole, st1, m1, stu, r, k, 0, t, open)
      modifies this
      ensures ok ==> Adding(c, sr, whole, st1, m1, st2, r, k, n, t, open)
      ensures !ok ==> Dirty(c, sr, whole)
      decreases left, 6, 1
    {
      ok, st2 := true, stu;
      var i := 0;
      while i < n
        invariant 0 <= i <= n && ok && Adding(c, sr, whole, st1, m1, st2, r, k, i, t, open)
      {
        assert c.g[r].funcs[i] in c.g[r].funcs;
        ok, st2 := NextMethod(t, c, sr, whole, st1, m1, st2, r, k, i, open, left);
        if !ok { return; }
        i := i + 1;
      }
    }

    method FuncCount(t: Ref, ghost c: Source, ghost sr: St, ghost whole: Items, ghost st1: St, ghost m1: Mem, ghost stu: St,
                     ghost r: Ref, ghost k: Items, ghost open: set<Ref>)
        returns (n: int)
      requires IsNamed(c.g, r) && Making(c, sr, whole, st1, m1, stu, FuncsThen(c.g, r, k), r, t, open)
      modifies this`data
      ensures n == |c.g[r].funcs| && Making(c, sr, whole, st1, m1, stu, ParamsThen(c.g[r].funcs, 0, k), r, t, open)
    {
      ghost var ms := c.g[r].funcs;
      n := ReadNum(c, stu, |ms|, ParamsThen(ms, 0, k));
      FateTrans(c, sr, whole, stu, FuncsThen(c.g, r, k), stu, ParamsThen(ms, 0, k));
    }

    /** Reads a method and adds it, unless there is a method with its name already. */
    method NextMethod(t: Ref, ghost c: Source, ghost sr: St, ghost whole: Items, ghost st1: St, ghost m1: Mem, ghost sti: St,
                      ghost r: Ref, ghost k: Items, ghost i: nat, ghost open: set<Ref>, ghost left: set<Ref>)
        returns (ok: bool, ghost st2: St)
      requires r in c.g && c.g[r].Named? && i < |c.g[r].funcs| && Adding(c, sr, whole, st1, m1, sti, r, k, i, t, open)
      requires c.g.Keys - sr.types.Keys <= left && TypeOk(c.g, c.g[r]) && IsSignature(c.g, c.g[r].funcs[i].typ)
      modifies this
      ensures ok ==> Adding(c, sr, whole, st1, m1, st2, r, k, i + 1, t, open)
      ensures !ok ==> Dirty(c, sr, whole)
      decreases left, 6, 0
    {
      ghost var (m2, ms) := (Snap(), c.g[r].funcs);
      ghost var (items, k1) := (ParamsThen(ms, i, k), ParamsThen(ms, i + 1, k));
      var f;
      ok, f, st2 := Param(c, sti, ms[i], k1, left);
      if !ok {
        DirtyFate(c, sr, whole, sti, items);
        return;
      }
      FateTrans(c, sr, whole, sti, items, st2, k1);
      MethodRead(c, st1, m1, sti, m2, st2, Snap(), r, i);
      assert IsSignature(heap, f.typ);
      AddMethod(t, f, c, st1, m1, st2, r, i);
    }

    method AddMethod(t: Ref, f: Param, ghost c: Source, ghost st1: St, ghost m1: Mem, ghost st: St, ghost r: Ref, ghost i: nat)
      requires r in c.g && c.g[r].Named? && i < |c.g[r].funcs| && TypeOk(c.g, c.g[r]) && Ready(c, st)
      requires Reading(c, st1, m1, st, Snap(), r) && t == Img(st, typList, r) && t in heap && heap[t].Named?
      requires heap[t].funcs == ImgParams(st, typList, c.g[r].funcs, i) && f == ImgParam(st, typList, c.g[r].funcs[i])
      modifies this`heap
      ensures Ready(c, st) && Reading(c, st1, m1, st, Snap(), r)
      ensures heap == old(heap)[t := old(heap[t]).(funcs := ImgParams(st, typList, c.g[r].funcs, i + 1))]
    {
      NoSuchName(st, typList, c.g[r].funcs, i, i);
      if !HasName(heap[t].funcs, f.name) {
        AddFunc(c, st1, m1, st, Snap(), r, heap[t].funcs + [f]);
        heap := heap[t := heap[t].(funcs := heap[t].funcs + [f])];
        ReadingAt(c, st1, m1, st, Snap(), r);
      }
    }

    /** `AddMethod` on a type imported before: the method is there. */
    method HeldMethod(t: Ref, methods: seq<Param>, ghost c: Source, ghost st: St, ghost st2: St, ghost r: Ref, ghost k: Items,
                      ghost m0: Mem, ghost i: nat)
      requires IsNamed(c.g, r) && r in c.held && t == c.held[r] && HeldOk(c, r) && i < |c.g[r].funcs|
      requires ParamsRead(c, st, c.g[r].funcs, k, m0, st2, i + 1, methods)
    {
      assert Unwrap(0);
      HeldObject(c, st2, Snap(), r);
      LastName(st2, typList, c.g[r].funcs, i);
      assert HasName(heap[t].funcs, methods[|methods| - 1].name);
    }

    // -------------------------------------------------------------------------
    // The objects of a package

    /** `obj`. */
    method Obj(ghost c: Source, ghost st: St, ghost o: Object, ghost k: Items) returns (ok: bool, obj: Object, ghost st2: St)
      requires At(c, st, ObjThen(o, k)) && ObjectOk(c.g, o)
      modifies this
      ensures ok ==> Read(c, st, ObjThen(o, k), old(Snap()), st2, k)
      ensures ok ==> o.typ in st2.types && obj == ImgObj(st2, typList, o)
      ensures !ok ==> Dirty(c, st, ObjThen(o, k))
    {
      ghost var (m0, whole, k1) := (Snap(), ObjThen(o, k), AfterTag(o, k));
      var tag := ReadNum(c, st, ObjTag(o), k1);
      if tag == TYPE_TAG {
        var typ;
        ok, typ, st2 := Typ(c, st, o.typ, k, c.g.Keys);
        obj := TypeName(typ);
        if ok {
          KindOf(c, st2, Snap(), o.typ);
          assert IsNamed(heap, typ);
        }
      } else {
        ok, obj, st2 := NamedObj(tag, c, st, o, k);
      }
      if ok {
        WentTrans(c, st, whole, m0, st, k1, m0, st2, k, Snap());
      } else {
        DirtyBack(c, st, whole, m0, st, k1, m0);
      }
    }

    method NamedObj(tag: int, ghost c: Source, ghost st: St, ghost o: Object, ghost k: Items)
        returns (ok: bool, obj: Object, ghost st2: St)
      requires At(c, st, AfterTag(o, k)) && ObjectOk(c.g, o) && !o.TypeName? && tag == ObjTag(o)
      modifies this
      ensures ok ==> Read(c, st, AfterTag(o, k), old(Snap()), st2, k)
      ensures ok ==> o.typ in st2.types && obj == ImgObj(st2, typList, o)
      ensures !ok ==> Dirty(c, st, AfterTag(o, k))
    {
      ghost var (m0, whole) := (Snap(), AfterTag(o, k));
      ghost var k2 := if o.Const? then Cons(V(o.val), k) else k;
      var v;
      ok, v, st2 := Param(c, st, TypeGraph.Param(o.name, o.typ), k2, c.g.Keys);
      obj := Variable(v.name, v.typ);
      if !ok { return; }
      if tag == CONST_TAG {
        ghost var m1 := Snap();
        var val := ReadValue(c, st2, o.val, k);
        obj := Const(v.name, v.typ, val);
        WentTrans(c, st, whole, m0, st2, k2, m1, st2, k, Snap());
      } else if tag == FUNC_TAG {
        KindOf(c, st2, Snap(), o.typ);
        assert IsSignature(heap, v.typ);
        obj := Func(v.name, v.typ);
      }
    }

    ghost predicate ObjsRead(c: Source, st: St, os: seq<Object>, m0: Mem, st2: St, i: nat, objs: seq<Object>)
      requires i <= |os|
      reads this
    {
      && Read(c, st, ObjsThen(os, 0, Nil), m0, st2, ObjsThen(os, i, Nil))
      && ObjsSeen(st2, os, i) && objs == ImgObjs(st2, typList, os, i)
    }

    method NextObj(before: seq<Object>, ghost c: Source, ghost st: St, ghost os: seq<Object>, ghost i: nat, ghost m0: Mem, ghost st1: St)
        returns (ok: bool, objs: seq<Object>, ghost st2: St)
      requires i < |os| && ObjsRead(c, st, os, m0, st1, i, before) && ObjectOk(c.g, os[i])
      modifies this
      ensures ok ==> ObjsRead(c, st, os, m0, st2, i + 1, objs)
      ensures !ok ==> Dirty(c, st, ObjsThen(os, 0, Nil))
    {
      ghost var m1 := Snap();
      ghost var (whole, ki, kn) := (ObjsThen(os, 0, Nil), ObjsThen(os, i, Nil), ObjsThen(os, i + 1, Nil));
      var o;
      objs := before;
      ok, o, st2 := Obj(c, st1, os[i], kn);
      if !ok {
        DirtyBack(c, st, whole, m0, st1, ki, m1);
        return;
      }
      WentTrans(c, st, whole, m0, st1, ki, m1, st2, kn, Snap());
      GrownLater(c, st1, m1, st2, Snap(), {});
      ObjsStay(st1, m1.typList, st2, typList, os, i);
      objs := objs + [o];
    }

    /** `ImportData`, after the magic string, on what ExportData wrote: it succeeds exactly if the reader
        never has to look into a type in the making, and then every type it has recorded has all its
        contents, and nothing is left to read. */
    method ImportData(ghost c: Source, ghost st: St, ghost os: seq<Object>)
        returns (ok: bool, objs: seq<Object>, ghost st2: St)
      requires Starting(c, st) && data == Emit(c.g, st, PackageItems(c.cur, os)).toks && forall o :: o in os ==> ObjectOk(c.g, o)
      modifies this
      ensures ok <==> Emit(c.g, st, PackageItems(c.cur, os)).clean
      ensures ok ==> Ready(c, st2) && st2 == Emit(c.g, st, PackageItems(c.cur, os)).st && data == []
      ensures ok ==> Grown(c, st, old(Snap()), st2, Snap(), {})
      ensures ok ==> Listed(c, st2, Snap()) && Entries(c, st, old(Snap()), st2, Snap())
      ensures ok ==> ObjsSeen(st2, os, |os|) && objs == ImgObjs(st2, typList, os, |os|)
    {
      ghost var m0 := Snap();
      ghost var st1 := Header(c, st, os);
      ghost var m1 := Snap();
      ok, objs, st2 := Objects(c, st1, os);
      if ok {
        GrownTrans(c, st, m0, st1, m1, st2, Snap(), {}, {});
        GrownEntries(c, st, m0, st2, Snap());
      }
      ImportOutcome(c, st, os, st1, st2, data, ok);
    }

    /** The version and the package that is imported. */
    method Header(ghost c: Source, ghost st: St, ghost os: seq<Object>) returns (ghost st1: St)
      requires Starting(c, st) && data == Emit(c.g, st, PackageItems(c.cur, os)).toks
      modifies this`data, this`imports, this`pkgList
      ensures st1 == st.WithPkg(c.cur) && At(c, st1, Cons(N(|os|), ObjsThen(os, 0, Nil))) && Grown(c, st, old(Snap()), st1, Snap(), {})
    {
      HeaderNext(c, st, os);
      var version := data[0].s;
      assert version == VERSION;
      var name, path := data[2].s, data[3].s;
      data := data[4..];
      var pkg := NewPackage(name, path, c, st, c.cur.value);
      st1 := st.WithPkg(c.cur);
    }

    /** Before the first package. */
    ghost predicate Starting(c: Source, st: St)
      reads this
    {
      && SourceOk(c) && Rel(c, st, Snap()) && wordSize >= 1 && InUniverse(c, universe)
      && st.pkgs == map[None := 0] && c.cur.Some? && c.cur.value in c.pkgs
    }

    method Objects(ghost c: Source, ghost st: St, ghost os: seq<Object>) returns (ok: bool, objs: seq<Object>, ghost st2: St)
      requires At(c, st, Cons(N(|os|), ObjsThen(os, 0, Nil))) && forall o :: o in os ==> ObjectOk(c.g, o)
      modifies this
      ensures ok ==> Read(c, st, Cons(N(|os|), ObjsThen(os, 0, Nil)), old(Snap()), st2, Nil)
      ensures ok ==> ObjsSeen(st2, os, |os|) && objs == ImgObjs(st2, typList, os, |os|)
      ensures !ok ==> Dirty(c, st, Cons(N(|os|), ObjsThen(os, 0, Nil)))
    {
      ghost var (m0, whole, k1) := (Snap(), Cons(N(|os|), ObjsThen(os, 0, Nil)), ObjsThen(os, 0, Nil));
      var n := ReadNum(c, st, |os|, k1);
      ok, objs, st2 := true, [], st;
      WentNowhere(c, st, k1, m0);
      var i := 0;
      while i < n
        invariant 0 <= i <= n && ok && ObjsRead(c, st, os, m0, st2, i, objs)
      {
        assert os[i] in os;
        ok, objs, st2 := NextObj(objs, c, st, os, i, m0, st2);
        if !ok {
          DirtyBack(c, st, whole, m0, st, k1, m0);
          return;
        }
        i := i + 1;
      }
      WentTrans(c, st, whole, m0, st, k1, m0, st2, Nil, Snap());
    }
  }

  ghost function ImgObj(st: St, list: seq<Ref>, o: Object): Object {
    match o
    case Const(name, typ, val) => Const(name, Img(st, list, typ), val)
    case TypeName(typ) => TypeName(Img(st, list, typ))
    case Variable(name, typ) => Variable(name, Img(st, list, typ))
    case Func(name, typ) => Func(name, Img(st, list, typ))
  }

  ghost function ImgObjs(st: St, list: seq<Ref>, os: seq<Object>, n: nat): seq<Object>
    requires n <= |os|
  {
    if n == 0 then [] else ImgObjs(st, list, os, n - 1) + [ImgObj(st, list, os[n - 1])]
  }

  ghost predicate ObjsSeen(st: St, os: seq<Object>, n: nat)
    requires n <= |os|
  {
    n == 0 || (os[n - 1].typ in st.types && ObjsSeen(st, os, n - 1))
  }

  lemma {:induction false} ObjsStay(st: St, list: seq<Ref>, st2: St, list2: seq<Ref>, os: seq<Object>, n: nat)
    requires Later(st, list, st2, list2) && n <= |os| && ObjsSeen(st, os, n)
    ensures ObjsSeen(st2, os, n) && ImgObjs(st2, list2, os, n) == ImgObjs(st, list, os, n)
  {
    if n > 0 { ObjsStay(st, list, st2, list2, os, n - 1); }
  }

  function ObjTag(o: Object): int {
    match o
    case Const(_, _, _) => CONST_TAG
    case TypeName(_) => TYPE_TAG
    case Variable(_, _) => VAR_TAG
    case Func(_, _) => FUNC_TAG
  }

  function AfterTag(o: Object, k: Items): Items {
    if o.TypeName? then Cons(T(o.typ), k)
    else ParamThen(TypeGraph.Param(o.name, o.typ), if o.Const? then Cons(V(o.val), k) else k)
  }

  /** The stream of a package up to its objects. */
  lemma HeaderNext(c: Source, st: St, os: seq<Object>)
    requires st.pkgs == map[None := 0] && c.cur.Some?
    ensures var (p, k) := (c.cur.value, Cons(N(|os|), ObjsThen(os, 0, Nil)));
            var (o, o1) := (Emit(c.g, st, PackageItems(c.cur, os)), Emit(c.g, st.WithPkg(c.cur), k));
            && o == Put([Str(VERSION)] + [Num(PACKAGE_TAG), Str(p.name), Str(p.path)], o1)
            && Stream(c, st.WithPkg(c.cur), k, o1.toks)
            && c.cur in st.WithPkg(c.cur).pkgs && st.WithPkg(c.cur).pkgs[c.cur] == 1
  {
    var (p, k) := (c.cur.value, Cons(N(|os|), ObjsThen(os, 0, Nil)));
    var o1 := Emit(c.g, st.WithPkg(c.cur), k);
    assert Emit(c.g, st, Cons(P(c.cur), k)) == Put([Num(PACKAGE_TAG), Str(p.name), Str(p.path)], o1);
    assert [Str(VERSION)] + ([Num(PACKAGE_TAG), Str(p.name), Str(p.path)] + o1.toks)
        == [Str(VERSION)] + [Num(PACKAGE_TAG), Str(p.name), Str(p.path)] + o1.toks;
  }

  lemma ImportOutcome(c: Source, st: St, os: seq<Object>, st1: St, st2: St, data: seq<Token>, ok: bool)
    requires st.pkgs == map[None := 0] && c.cur.Some? && st1 == st.WithPkg(c.cur)
    requires ok ==> SameFate(c, st1, Cons(N(|os|), ObjsThen(os, 0, Nil)), st2, Nil) && Stream(c, st2, Nil, data)
    requires !ok ==> Dirty(c, st1, Cons(N(|os|), ObjsThen(os, 0, Nil)))
    ensures ok <==> Emit(c.g, st, PackageItems(c.cur, os)).clean
    ensures ok ==> st2 == Emit(c.g, st, PackageItems(c.cur, os)).st && data == []
  {
    assert Unroll(0);
    HeaderNext(c, st, os);
  }

  /** What has been read of a named type stays while its next method is read. */
  lemma MethodRead(c: Source, st1: St, m1: Mem, sti: St, m2: Mem, st2: St, m3: Mem, r: Ref, i: nat)
    requires SourceOk(c) && Reading(c, st1, m1, sti, m2, r) && Grown(c, sti, m2, st2, m3, {}) && Rel(c, st2, m3)
    requires IsNamed(c.g, r) && c.g[r].underlying in sti.types && i < |c.g[r].funcs| && ParamsSeen(sti, c.g[r].funcs, i)
    requires c.g[r].funcs[i].typ in st2.types && IsSignature(c.g, c.g[r].funcs[i].typ)
    ensures Reading(c, st1, m1, st2, m3, r)
    ensures var a := Img(sti, m2.typList, r); Img(st2, m3.typList, r) == a && a in m2.heap && a in m3.heap && m3.heap[a] == m2.heap[a]
    ensures var u := c.g[r].underlying; u in st2.types && Img(st2, m3.typList, u) == Img(sti, m2.typList, u)
    ensures var ms := c.g[r].funcs;
            && ParamsSeen(st2, ms, i + 1) && ImgParams(st2, m3.typList, ms, i) == ImgParams(sti, m2.typList, ms, i)
            && IsSignature(m3.heap, Img(st2, m3.typList, ms[i].typ))
  {
    ReadOn(c, st1, m1, sti, m2, st2, m3, r);
    GrownLater(c, sti, m2, st2, m3, {});
    ParamsStay(sti, m2.typList, st2, m3.typList, c.g[r].funcs, i);
    KindOf(c, st2, m3, c.g[r].funcs[i].typ);
  }

  lemma LastName(st: St, list: seq<Ref>, ps: seq<Param>, i: nat)
    requires i < |ps|
    ensures var vs := ImgParams(st, list, ps, i + 1); vs != [] && vs[|vs| - 1].name == ps[i].name
  {}

  /** Objects imported before stay as they are. */
  lemma HeldObject(c: Source, st: St, m: Mem, r: Ref)
    requires Rel(c, st, m) && r in c.held && HeldOk(c, r)
    ensures c.held[r] in m.heap && m.heap[c.held[r]] == c.heap[c.held[r]]
  {
    RelNumbers(c, st, m);
  }

  /** Among the images of the first n methods none is named like method i. */
  lemma {:induction false} NoSuchName(st: St, list: seq<Ref>, ms: seq<Param>, n: nat, i: nat)
    requires n <= i < |ms| && forall j, k :: 0 <= j < k < |ms| ==> ms[j].name != ms[k].name
    ensures !HasName(ImgParams(st, list, ms, n), ms[i].name)
    decreases n
  {
    if n > 0 {
      NoSuchName(st, list, ms, n - 1, i);
      var before := ImgParams(st, list, ms, n - 1);
      var fs := ImgParams(st, list, ms, n);
      forall j | 0 <= j < |fs| ensures fs[j].name != ms[i].name {
        if j < |before| { assert fs[j] == before[j]; }
      }
    }
  }

  ghost function UnderlyingThen(g: World, r: Ref, k: Items): Items
    requires IsNamed(g, r)
  {
    Cons(T(g[r].underlying), Cons(Close(r), FuncsThen(g, r, k)))
  }

  ghost function FuncsThen(g: World, r: Ref, k: Items): Items
    requires IsNamed(g, r)
  {
    Cons(N(|g[r].funcs|), ParamsThen(g[r].funcs, 0, k))
  }

  lemma NamedNext(c: Source, st: St, r: Ref, k: Items, data: seq<Token>)
    requires IsNamed(c.g, r) && r !in st.types && c.g[r].pkg.Some? && Stream(c, st.Opened(r), Body(c.g, r, c.g[r], k), data)
    ensures var st1 := AfterPkg(st, c.g[r].pkg);
            && data != [] && data[0] == Str(c.g[r].name)
            && data[1..] == PkgToks(st, c.g[r].pkg) + Emit(c.g, st1.Opened(r), UnderlyingThen(c.g, r, k)).toks
            && SameFate(c, st.Opened(r), Body(c.g, r, c.g[r], k), st1.Opened(r), UnderlyingThen(c.g, r, k))
  {
    assert Unroll(0);
    var p, body := c.g[r].pkg, UnderlyingThen(c.g, r, k);
    EmitPkg(c.g, st.Opened(r), p, body);
    assert AfterPkg(st.Opened(r), p) == AfterPkg(st, p).Opened(r);
    assert Body(c.g, r, c.g[r], k) == Cons(S(c.g[r].name), Cons(P(p), body));
  }

  lemma CloseStep(c: Source, sr: St, whole: Items, st: St, r: Ref, k: Items, data: seq<Token>)
    requires SameFate(c, sr, whole, st, Cons(Close(r), k)) && Stream(c, st, Cons(Close(r), k), data)
    ensures SameFate(c, sr, whole, st.Closed(r), k) && Stream(c, st.Closed(r), k, data)
  {
    assert Unroll(0);
  }

  lemma DirtyFate(c: Source, st: St, items: Items, st1: St, k1: Items)
    requires SameFate(c, st, items, st1, k1) && Dirty(c, st1, k1)
    ensures Dirty(c, st, items)
  {
    assert Unroll(0);
  }

  lemma TagNext(c: Source, st: St, r: Ref, st2: St, k: Items)
    requires r in c.g && r !in st.types && SameFate(c, st.Opened(r), Body(c.g, r, c.g[r], k), st2, k)
    ensures SameFate(c, st, Cons(T(r), k), st2, k)
  {
    assert Unroll(0);
  }

  lemma UniverseHas(c: Source, universe: map<string, Ref>, r: Ref)
    requires SourceOk(c) && InUniverse(c, universe) && IsBasic(c.g, r) && r !in c.base
    ensures c.g[r].name in universe && universe[c.g[r].name] == r && r in c.universe && r !in c.held
  {
    assert Seal(0);
  }

  lemma BasicFound(c: Source, st: St, m: Mem, universe: map<string, Ref>, r: Ref)
    requires SourceOk(c) && Rel(c, st, m) && InUniverse(c, universe) && IsBasic(c.g, r) && r !in c.base && r !in st.types
    ensures c.g[r].name in universe && Found(c, st, m, r, universe[c.g[r].name])
  {
    NotNil(c, r);
    UniverseHas(c, universe, r);
    RelNumbers(c, st, m);
  }

  lemma HeldFound(c: Source, st: St, m: Mem, r: Ref)
    requires SourceOk(c) && Rel(c, st, m) && r in c.held && HeldOk(c, r) && r !in st.types
    ensures Found(c, st, m, r, c.held[r])
  {
    NotNil(c, r);
    RelNumbers(c, st, m);
  }

  /** The base of an anonymous field's type is found exactly if the type is not a pointer in the
      making; then it has the name and package of the exported one. */
  lemma EmbeddedBase(c: Source, st: St, m: Mem, f: Var, k: Items)
    requires SourceOk(c) && Rel(c, st, m) && f.anonymous && FieldOk(c.g, f) && f.typ in st.types
    ensures var b, t := Deref(m.heap, Img(st, m.typList, f.typ)), Deref(c.g, f.typ);
            if c.g[f.typ].Pointer? && f.typ in st.open then
              b !in m.heap && Dirty(c, st, NeedBase(c.g, f, k))
            else
              && (IsBasic(m.heap, b) || IsNamed(m.heap, b)) && m.heap[b].name == f.name
              && (IsBasic(m.heap, b) <==> IsBasic(c.g, t)) && (IsNamed(m.heap, b) ==> m.heap[b].pkg == EmbeddedPkg(c.g, f))
  {
    NotNil(c, f.typ);
    RelKnown(c, st, m, f.typ);
    if c.g[f.typ].Pointer? {
      PointerNotShared(c, f.typ);
      if f.typ in st.open {
        RelNumbers(c, st, m);
        NeedDirty(c, st, f, k);
      } else {
        NotNil(c, c.g[f.typ].elem);
        RelKnown(c, st, m, c.g[f.typ].elem);
      }
    }
  }

  lemma PointerNotShared(c: Source, r: Ref)
    requires SourceOk(c) && r in c.g && c.g[r].Pointer?
    ensures !Shared(c, r)
  {
    assert Seal(0);
  }

  lemma NeedDirty(c: Source, st: St, f: Var, k: Items)
    requires f.anonymous && f.typ in c.g && c.g[f.typ].Pointer? && f.typ in st.open
    ensures Dirty(c, st, NeedBase(c.g, f, k))
  {
    assert Unroll(0);
  }

  lemma TypNext(c: Source, st: St, r: Ref, k: Items, data: seq<Token>)
    requires Stream(c, st, Cons(T(r), k), data) && (r in c.g || r in st.types)
    ensures data != [] && data[0].Num? && (data[0].n >= 0 <==> r in st.types)
    ensures r in st.types ==> data[0].n == st.types[r] && Stream(c, st, k, data[1..]) && SameFate(c, st, Cons(T(r), k), st, k)
    ensures r !in st.types ==> data[0].n == Tag(c.g[r]) && Stream(c, st.Opened(r), Body(c.g, r, c.g[r], k), data[1..])
  {
    assert Unroll(0);
  }

  lemma DirtyBody(c: Source, st: St, r: Ref, k: Items)
    requires r in c.g && r !in st.types && Dirty(c, st.Opened(r), Body(c.g, r, c.g[r], k))
    ensures Dirty(c, st, Cons(T(r), k))
  {
    assert Unroll(0);
  }

  /** What was in the making when r was numbered has a smaller number. */
  lemma OpenBefore(c: Source, st: St, m0: Mem, r: Ref, m1: Mem, st2: St, m2: Mem)
    requires Rel(c, st, m0) && r in c.g && c.g[r].Interface? && TypeOk(c.g, c.g[r]) && r !in st.types
    requires Grown(c, st.Opened(r), m1, st2, m2, {}) && st2.open == st.Opened(r).open
    ensures r in st2.types && NumberedBefore(c, st2, r)
  {
    RelNumbers(c, st, m0);
    RelOpen(c, st, m0);
    GrownLater(c, st.Opened(r), m1, st2, m2, {});
    forall i | 0 <= i < |c.g[r].methods| && c.g[r].methods[i].typ in st2.open
      ensures c.g[r].methods[i].typ in st2.types && st2.types[c.g[r].methods[i].typ] < st2.types[r]
    {
      assert c.g[r].methods[i] in c.g[r].methods;
    }
  }

  /** A new type is in the making. */
  lemma ReadingOpens(c: Source, st: St, m0: Mem, m1: Mem, r: Ref)
    requires Reading(c, st, m0, st.Opened(r), m1, r) && r !in st.open
    ensures r in st.Opened(r).open && st.Opened(r).Closed(r).open == st.open
  {
    assert Seal(0);
  }

  lemma CloseNext(c: Source, st: St, r: Ref, st2: St, k: Items, data: seq<Token>)
    requires r in c.g && r !in st.types && Stream(c, st2, Cons(Close(r), k), data)
    requires SameFate(c, st.Opened(r), Body(c.g, r, c.g[r], k), st2, Cons(Close(r), k))
    ensures SameFate(c, st, Cons(T(r), k), st2.Closed(r), k) && Stream(c, st2.Closed(r), k, data)
  {
    assert Unroll(0);
  }

  lemma NeedNext(c: Source, st: St, es: seq<Ref>, j: nat, k: Items, data: seq<Token>)
    requires j < |es| && SameFate(c, st, NeedsThen(es, 0, k), st, NeedsThen(es, j, k)) && Stream(c, st, NeedsThen(es, j, k), data)
    ensures if es[j] in st.open then Dirty(c, st, NeedsThen(es, 0, k))
            else SameFate(c, st, NeedsThen(es, 0, k), st, NeedsThen(es, j + 1, k)) && Stream(c, st, NeedsThen(es, j + 1, k), data)
  {
    assert Unroll(0);
  }

  lemma NotNil(c: Source, r: Ref)
    requires SourceOk(c) && r in c.g
    ensures r != NIL
  {
    assert Seal(0);
  }

  lemma NotNeeded(c: Source, st: St, f: Var, k: Items, m: Mem, data: seq<Token>)
    requires Rel(c, st, m) && Stream(c, st, NeedBase(c.g, f, k), data)
    requires !(f.anonymous && f.typ in c.g && c.g[f.typ].Pointer? && f.typ in st.open)
    ensures Went(c, st, NeedBase(c.g, f, k), m, st, k, m) && Stream(c, st, k, data)
  {
    assert Unroll(0);
    RelRefl(c, st, m);
  }

  /** A recorded type has its kind from the start. */
  lemma KindOf(c: Source, st: St, m: Mem, r: Ref)
    requires SourceOk(c) && Rel(c, st, m) && r in st.types && r in c.g
    ensures var a := Img(st, m.typList, r); a in m.heap && Tag(m.heap[a]) == Tag(c.g[r])
  {
    NotNil(c, r);
    RelKnown(c, st, m, r);
  }

  lemma VariadicSlice(c: Source, st: St, m: Mem, t: Type, n: nat)
    requires SourceOk(c) && Rel(c, st, m) && t.Signature? && SignatureOk(c.g, t) && ParamsSeen(st, t.params, |t.params|)
    requires n == |t.params|
    ensures t.variadic ==>
              var vs := ImgParams(st, m.typList, t.params, |t.params|);
              vs != [] && vs[|vs| - 1].typ in m.heap && m.heap[vs[|vs| - 1].typ].Slice?
  {
    if t.variadic {
      assert t.params[n - 1] in t.params;
      KindOf(c, st, m, t.params[n - 1].typ);
    }
  }

  lemma BasicNext(c: Source, st: St, r: Ref, k: Items, data: seq<Token>)
    requires IsBasic(c.g, r) && r !in st.types && r !in st.open && Stream(c, st.Opened(r), Body(c.g, r, c.g[r], k), data)
    ensures data != [] && data[0] == Str(c.g[r].name) && Stream(c, st.Opened(r).Closed(r), k, data[1..])
    ensures SameFate(c, st, Cons(T(r), k), st.Opened(r).Closed(r), k) && st.Opened(r).Closed(r).open == st.open
  {
    assert Unroll(0);
    var end := Cons(Close(r), k);
    assert Body(c.g, r, c.g[r], k) == Cons(S(c.g[r].name), end);
    assert Emit(c.g, st.Opened(r), end) == Emit(c.g, st.Opened(r).Closed(r), k);
    assert st.open + {r} - {r} == st.open;
  }

  lemma {:induction false} MemberAt(c: Source, st: St, list: seq<Ref>, ms: seq<Member>, n: nat, i: nat)
    requires i < n <= |ms| && MembersSeen(st, ms, n)
    ensures |ImgMembers(c, st, list, ms, n)| == n && ImgMembers(c, st, list, ms, n)[i] == ImgMember(c, st, list, ms[i])
    ensures ms[i].typ in st.types
    decreases n
  {
    MembersLength(c, st, list, ms, n - 1);
    if i < n - 1 { MemberAt(c, st, list, ms, n - 1, i); }
  }

  lemma {:induction false} MembersLength(c: Source, st: St, list: seq<Ref>, ms: seq<Member>, n: nat)
    requires n <= |ms|
    ensures |ImgMembers(c, st, list, ms, n)| == n
    decreases n
  {
    if n > 0 { MembersLength(c, st, list, ms, n - 1); }
  }

  lemma {:induction false} RefAt(st: St, list: seq<Ref>, es: seq<Ref>, n: nat, i: nat)
    requires i < n <= |es| && RefsSeen(st, es, n)
    ensures |ImgRefs(st, list, es, n)| == n && ImgRefs(st, list, es, n)[i] == Img(st, list, es[i]) && es[i] in st.types
    decreases n
  {
    RefsLength(st, list, es, n - 1);
    if i < n - 1 { RefAt(st, list, es, n - 1, i); }
  }

  lemma {:induction false} RefsLength(st: St, list: seq<Ref>, es: seq<Ref>, n: nat)
    requires n <= |es|
    ensures |ImgRefs(st, list, es, n)| == n
    decreases n
  {
    if n > 0 { RefsLength(st, list, es, n - 1); }
  }

  /** The underlying type of an embedded type is an interface, if the type is not in the making. */
  lemma EmbeddedUnderlying(c: Source, st: St, m: Mem, e: Ref)
    requires SourceOk(c) && Rel(c, st, m) && e in st.types && IsNamed(c.g, e)
    requires c.g[e].underlying in c.g && c.g[c.g[e].underlying].Interface?
    ensures var a := Img(st, m.typList, e);
            && IsNamed(m.heap, a)
            && (m.heap[a].underlying in m.heap && m.heap[m.heap[a].underlying].Interface? <==> e !in st.open)
  {
    NotNil(c, e);
    RelKnown(c, st, m, e);
    RelNumbers(c, st, m);
    if e in c.base { BaseClosed(c, st, m, e); }
    if e !in c.base && e !in c.held && e !in st.open {
      NotNil(c, c.g[e].underlying);
      RelKnown(c, st, m, c.g[e].underlying);
    }
  }

  lemma BaseClosed(c: Source, st: St, m: Mem, e: Ref)
    requires SourceOk(c) && Rel(c, st, m) && IsNamed(c.g, e) && e in c.base
    ensures c.g[e].underlying in c.universe
  {
    assert Seal(0);
  }
}
