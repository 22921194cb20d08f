/** The exporter of go/importer (export.go). */
module Export {
  import opened Types
  import opened TypeGraph
  import opened Constants
  import opened Format
  import Exact
  import ConstantCodec

  /** All types that are not written yet are as the type checker leaves them. */
  ghost predicate Sound(g: World, st: St) {
    forall r {:trigger g[r]} :: r in g && r !in st.types ==> TypeOk(g, g[r])
  }

  /** From d0 the exporter has written data d1: what there was to write is what it has written and
      what there still is to write. */
  ghost predicate Wrote(g: World, st: St, items: Items, st2: St, k: Items, d0: seq<Token>, d1: seq<Token>) {
    && d0 + Emit(g, st, items).toks == d1 + Emit(g, st2, k).toks
    && Emit(g, st, items).st == Emit(g, st2, k).st
    && st.types.Keys <= st2.types.Keys
  }

  lemma WroteTokens(g: World, st: St, items: Items, st2: St, k: Items, ts: seq<Token>, d0: seq<Token>, d1: seq<Token>)
    requires Emit(g, st, items) == Put(ts, Emit(g, st2, k)) && d1 == d0 + ts && st.types.Keys <= st2.types.Keys
    ensures Wrote(g, st, items, st2, k, d0, d1)
  {
    assert d0 + (ts + Emit(g, st2, k).toks) == d0 + ts + Emit(g, st2, k).toks;
  }

  class Exporter {
    const world: World
    const wordSize: nat
    var data: seq<Token>
    var pkgIndex: map<Option<Pkg>, nat>
    var typIndex: map<Ref, nat>

    /** The predeclared types are numbered from 1; number 0 is nil. */
    constructor (world: World, predeclared: seq<Ref>, wordSize: nat)
      requires wordSize >= 1
      ensures this.world == world && this.wordSize == wordSize
      ensures data == [] && forall held :: Sync(Initial(predeclared, held))
    {
      this.world, this.wordSize := world, wordSize;
      data := [];
      pkgIndex := map[None := 0];
      typIndex := Numbered(predeclared, map[NIL := 0]);
    }

    ghost predicate Sync(st: St)
      reads this
    {
      typIndex == st.types && pkgIndex == st.pkgs && wordSize >= 1
    }

    method WriteNum(n: int, ghost st: St, ghost k: Items)
      modifies this`data
      ensures Wrote(world, st, Cons(N(n), k), st, k, old(data), data)
    {
      data := data + [Num(n)];
      WroteTokens(world, st, Cons(N(n), k), st, k, [Num(n)], old(data), data);
    }

    method WriteStr(s: string, ghost st: St, ghost k: Items)
      modifies this`data
      ensures Wrote(world, st, Cons(S(s), k), st, k, old(data), data)
    {
      data := data + [Str(s)];
      WroteTokens(world, st, Cons(S(s), k), st, k, [Str(s)], old(data), data);
    }

    method Value(v: Exact.Value, ghost st: St, ghost k: Items)
      requires ConstantCodec.Writable(v) && wordSize >= 1
      modifies this`data
      ensures Wrote(world, st, Cons(V(v), k), st, k, old(data), data)
    {
      var toks := ConstantCodec.WriteValue(v, wordSize);
      data := data + toks;
      EmitValue(world, st, v, k);
      WroteTokens(world, st, Cons(V(v), k), st, k, toks, old(data), data);
    }

    /** `pkg`. */
    method Package(p: Option<Pkg>, ghost st: St, ghost k: Items) returns (ghost st2: St)
      requires Sync(st) && (p.Some? || p in st.pkgs)
      modifies this`data, this`pkgIndex
      ensures Sync(st2) && Wrote(world, st, Cons(P(p), k), st2, k, old(data), data) && st2.types == st.types
    {
      if p in pkgIndex {
        data := data + [Num(pkgIndex[p])];
        WroteTokens(world, st, Cons(P(p), k), st, k, [Num(pkgIndex[p])], old(data), data);
        return st;
      }
      pkgIndex := pkgIndex[p := |pkgIndex|];
      st2 := st.WithPkg(p);
      var toks := [Num(PACKAGE_TAG), Str(p.value.name), Str(p.value.path)];
      data := data + toks;
      WroteTokens(world, st, Cons(P(p), k), st2, k, toks, old(data), data);
    }

    method QualifiedName(pkg: Option<Pkg>, name: string, ghost st: St, ghost k: Items) returns (ghost st2: St)
      requires Sync(st) && Owned(pkg, name)
      modifies this`data, this`pkgIndex
      ensures Sync(st2) && Wrote(world, st, NameThen(pkg, name, k), st2, k, old(data), data) && st2.types == st.types
    {
      WriteStr(name, st, if Exported(name) then k else Cons(P(pkg), k));
      st2 := st;
      if !Exported(name) {
        st2 := Package(pkg, st, k);
      }
    }

    /** `typ`: writes the number of a type written before, or else its tag and contents. */
    method Typ(r: Ref, ghost st: St, ghost k: Items, ghost left: set<Ref>) returns (ghost st2: St)
      requires Sync(st) && Sound(world, st) && (r in world || r in st.types)
      modifies this`data, this`pkgIndex, this`typIndex
      ensures Sync(st2) && Wrote(world, st, Cons(T(r), k), st2, k, old(data), data)
      requires world.Keys - typIndex.Keys <= left
      decreases left, 0
    {
      if r in typIndex {
        data := data + [Num(typIndex[r])];
        WroteTokens(world, st, Cons(T(r), k), st, k, [Num(typIndex[r])], old(data), data);
        return st;
      }
      OpenedShrinks(world, st, r);
      typIndex := typIndex[r := |typIndex|];
      var t := world[r];
      data := data + [Num(Tag(t))];
      ghost var st1 := st.Opened(r);
      WroteTokens(world, st, Cons(T(r), k), st1, Body(world, r, t, k), [Num(Tag(t))], old(data), data);
      st2 := Contents(r, t, st1, k, left - {r});
    }

    /** What follows the tag. */
    method Contents(r: Ref, t: Type, ghost st: St, ghost k: Items, ghost left: set<Ref>) returns (ghost st2: St)
      requires Sync(st) && Sound(world, st) && TypeOk(world, t)
      modifies this`data, this`pkgIndex, this`typIndex
      ensures Sync(st2) && Wrote(world, st, Body(world, r, t, k), st2, k, old(data), data)
      requires world.Keys - typIndex.Keys <= left
      decreases left, 9
    {
      ghost var end := Cons(Close(r), k);
      match t {
        case Basic(name) =>
          WriteStr(name, st, end);
          st2 := st;
        case Array(n, e) =>
          WriteNum(n, st, Cons(T(e), end));
          st2 := Typ(e, st, end, left);
        case Slice(e) => st2 := Typ(e, st, end, left);
        case Struct(fs) =>
          WriteNum(|fs|, st, FieldsThen(world, fs, 0, end));
          st2 := Fields(fs, st, end, left);
        case Pointer(e) => st2 := Typ(e, st, end, left);
        case Signature(_, _, _, _) => st2 := Signature(t, st, end, left);
        case Interface(ms, es) => st2 := Interface(ms, es, st, end, left);
        case Map(key, e) =>
          st2 := Typ(key, st, Cons(T(e), end), left);
          st2 := Typ(e, st2, end, left);
        case Chan(d, e) =>
          WriteNum(d, st, Cons(T(e), end));
          st2 := Typ(e, st, end, left);
        case Named(name, pkg, u, ms) =>
          st2 := Named(r, t, st, k, left);
          return;
      }
      CloseWritesNothing(world, r, st2, k);
      st2 := st2.Closed(r);
    }

    method Named(r: Ref, t: Type, ghost st: St, ghost k: Items, ghost left: set<Ref>) returns (ghost st2: St)
      requires Sync(st) && Sound(world, st) && TypeOk(world, t) && t.Named?
      modifies this`data, this`pkgIndex, this`typIndex
      ensures Sync(st2) && Wrote(world, st, Body(world, r, t, k), st2, k, old(data), data)
      requires world.Keys - typIndex.Keys <= left
      decreases left, 8
    {
      ghost var methods := Cons(N(|t.funcs|), ParamsThen(t.funcs, 0, k));
      ghost var body := Cons(T(t.underlying), Cons(Close(r), methods));
      WriteStr(t.name, st, Cons(P(t.pkg), body));
      st2 := Package(t.pkg, st, body);
      st2 := Typ(t.underlying, st2, Cons(Close(r), methods), left);
      CloseWritesNothing(world, r, st2, methods);
      st2 := Tuple(t.funcs, st2.Closed(r), k, left);
    }

    method Fields(fs: seq<Var>, ghost st: St, ghost k: Items, ghost left: set<Ref>) returns (ghost st2: St)
      requires Sync(st) && Sound(world, st) && forall f :: f in fs ==> FieldOk(world, f)
      modifies this`data, this`pkgIndex, this`typIndex
      ensures Sync(st2) && Wrote(world, st, FieldsThen(world, fs, 0, k), st2, k, old(data), data)
      requires world.Keys - typIndex.Keys <= left
      decreases left, 5
    {
      st2 := st;
      var i := 0;
      while i < |fs|
        invariant 0 <= i <= |fs| && Sync(st2) && Sound(world, st2)
        invariant Wrote(world, st, FieldsThen(world, fs, 0, k), st2, FieldsThen(world, fs, i, k), old(data), data)
      {
        assert fs[i] in fs;
        st2 := Field(fs[i], st2, FieldsThen(world, fs, i + 1, k), left);
        i := i + 1;
      }
    }

    /** `field`, and the field's tag. */
    method Field(f: Var, ghost st: St, ghost k: Items, ghost left: set<Ref>) returns (ghost st2: St)
      requires Sync(st) && Sound(world, st) && FieldOk(world, f)
      modifies this`data, this`pkgIndex, this`typIndex
      ensures Sync(st2) && Wrote(world, st, FieldThen(world, f, k), st2, k, old(data), data)
      requires world.Keys - typIndex.Keys <= left
      decreases left, 3
    {
      var name := "";
      if !f.anonymous { name := f.name; }
      ghost var tag := Cons(S(f.tag), k);
      st2 := QualifiedName(f.pkg, name, st, Cons(T(f.typ), NeedBase(world, f, tag)));
      st2 := Typ(f.typ, st2, NeedBase(world, f, tag), left);
      WriteStr(f.tag, st2, k);
    }

    method Param(p: Param, ghost st: St, ghost k: Items, ghost left: set<Ref>) returns (ghost st2: St)
      requires Sync(st) && Sound(world, st) && p.typ in world
      modifies this`data, this`pkgIndex, this`typIndex
      ensures Sync(st2) && Wrote(world, st, ParamThen(p, k), st2, k, old(data), data)
      requires world.Keys - typIndex.Keys <= left
      decreases left, 3
    {
      WriteStr(p.name, st, Cons(T(p.typ), k));
      st2 := Typ(p.typ, st, k, left);
    }

    method Params(ps: seq<Param>, ghost st: St, ghost k: Items, ghost left: set<Ref>) returns (ghost st2: St)
      requires Sync(st) && Sound(world, st) && forall p :: p in ps ==> p.typ in world
      modifies this`data, this`pkgIndex, this`typIndex
      ensures Sync(st2) && Wrote(world, st, ParamsThen(ps, 0, k), st2, k, old(data), data)
      requires world.Keys - typIndex.Keys <= left
      decreases left, 4
    {
      st2 := st;
      var i := 0;
      while i < |ps|
        invariant 0 <= i <= |ps| && Sync(st2) && Sound(world, st2)
        invariant Wrote(world, st, ParamsThen(ps, 0, k), st2, ParamsThen(ps, i, k), old(data), data)
      {
        assert ps[i] in ps;
        st2 := Param(ps[i], st2, ParamsThen(ps, i + 1, k), left);
        i := i + 1;
      }
    }

    /** `tuple`. */
    method Tuple(ps: seq<Param>, ghost st: St, ghost k: Items, ghost left: set<Ref>) returns (ghost st2: St)
      requires Sync(st) && Sound(world, st) && forall p :: p in ps ==> p.typ in world
      modifies this`data, this`pkgIndex, this`typIndex
      ensures Sync(st2) && Wrote(world, st, TupleThen(ps, k), st2, k, old(data), data)
      requires world.Keys - typIndex.Keys <= left
      decreases left, 5
    {
      WriteNum(|ps|, st, ParamsThen(ps, 0, k));
      st2 := Params(ps, st, k, left);
    }

    method Bool(b: bool, ghost st: St, ghost k: Items)
      modifies this`data
      ensures Wrote(world, st, BoolThen(b, k), st, k, old(data), data)
    {
      WriteNum(if b then 1 else 0, st, k);
    }

    method Signature(t: Type, ghost st: St, ghost k: Items, ghost left: set<Ref>) returns (ghost st2: St)
      requires Sync(st) && Sound(world, st) && t.Signature? && SignatureOk(world, t)
      modifies this`data, this`pkgIndex, this`typIndex
      ensures Sync(st2) && Wrote(world, st, SignatureThen(t, k), st2, k, old(data), data)
      requires world.Keys - typIndex.Keys <= left
      decreases left, 8
    {
      ghost var last := BoolThen(t.variadic, k);
      ghost var rest := TupleThen(t.params, TupleThen(t.results, last));
      st2 := st;
      if t.recv.Some? {
        Bool(true, st, ParamThen(t.recv.value, rest));
        st2 := Param(t.recv.value, st, rest, left);
      } else {
        Bool(false, st, rest);
      }
      st2 := Tuple(t.params, st2, TupleThen(t.results, last), left);
      st2 := Tuple(t.results, st2, last, left);
      Bool(t.variadic, st2, k);
    }

    method Interface(ms: seq<Member>, es: seq<Ref>, ghost st: St, ghost k: Items, ghost left: set<Ref>) returns (ghost st2: St)
      requires Sync(st) && Sound(world, st)
      requires forall m :: m in ms ==> IsSignature(world, m.typ) && Owned(m.pkg, m.name)
      requires forall e :: e in es ==> e in world
      modifies this`data, this`pkgIndex, this`typIndex
      ensures Sync(st2)
      ensures Wrote(world, st, Cons(N(|ms|), MembersThen(ms, 0, Cons(N(|es|), RefsThen(es, 0, NeedsThen(es, 0, k))))), st2, k,
                    old(data), data)
      requires world.Keys - typIndex.Keys <= left
      decreases left, 8
    {
      ghost var needs := NeedsThen(es, 0, k);
      ghost var embeddeds := Cons(N(|es|), RefsThen(es, 0, needs));
      WriteNum(|ms|, st, MembersThen(ms, 0, embeddeds));
      st2 := Members(ms, st, embeddeds, left);
      WriteNum(|es|, st2, RefsThen(es, 0, needs));
      st2 := Embeddeds(es, st2, needs, left);
      NeedsWriteNothing(world, es, 0, st2, k);
    }

    method Members(ms: seq<Member>, ghost st: St, ghost k: Items, ghost left: set<Ref>) returns (ghost st2: St)
      requires Sync(st) && Sound(world, st)
      requires forall m :: m in ms ==> IsSignature(world, m.typ) && Owned(m.pkg, m.name)
      modifies this`data, this`pkgIndex, this`typIndex
      ensures Sync(st2) && Sound(world, st2) && Wrote(world, st, MembersThen(ms, 0, k), st2, k, old(data), data)
      requires world.Keys - typIndex.Keys <= left
      decreases left, 5
    {
      st2 := st;
      var i := 0;
      while i < |ms|
        invariant 0 <= i <= |ms| && Sync(st2) && Sound(world, st2)
        invariant Wrote(world, st, MembersThen(ms, 0, k), st2, MembersThen(ms, i, k), old(data), data)
      {
        assert ms[i] in ms;
        ghost var rest := MembersThen(ms, i + 1, k);
        assert MembersThen(ms, i, k) == MemberThen(ms[i], rest);
        st2 := Member(ms[i], st2, rest, left);
        i := i + 1;
      }
    }

    method Member(m: Member, ghost st: St, ghost k: Items, ghost left: set<Ref>) returns (ghost st2: St)
      requires Sync(st) && Sound(world, st) && IsSignature(world, m.typ) && Owned(m.pkg, m.name)
      modifies this`data, this`pkgIndex, this`typIndex
      ensures Sync(st2) && Wrote(world, st, MemberThen(m, k), st2, k, old(data), data)
      requires world.Keys - typIndex.Keys <= left
      decreases left, 3
    {
      st2 := QualifiedName(m.pkg, m.name, st, Cons(T(m.typ), k));
      st2 := Typ(m.typ, st2, k, left);
    }

    method Embeddeds(es: seq<Ref>, ghost st: St, ghost k: Items, ghost left: set<Ref>) returns (ghost st2: St)
      requires Sync(st) && Sound(world, st) && forall e :: e in es ==> e in world
      modifies this`data, this`pkgIndex, this`typIndex
      ensures Sync(st2) && Wrote(world, st, RefsThen(es, 0, k), st2, k, old(data), data)
      requires world.Keys - typIndex.Keys <= left
      decreases left, 5
    {
      st2 := st;
      var i := 0;
      while i < |es|
        invariant 0 <= i <= |es| && Sync(st2) && Sound(world, st2)
        invariant Wrote(world, st, RefsThen(es, 0, k), st2, RefsThen(es, i, k), old(data), data)
      {
        assert es[i] in es;
        ghost var rest := RefsThen(es, i + 1, k);
        assert RefsThen(es, i, k) == Cons(T(es[i]), rest);
        st2 := Typ(es[i], st2, rest, left);
        i := i + 1;
      }
    }

    /** `obj`. */
    method Obj(o: Object, ghost st: St, ghost k: Items) returns (ghost st2: St)
      requires Sync(st) && Sound(world, st) && ObjectOk(world, o)
      modifies this`data, this`pkgIndex, this`typIndex
      ensures Sync(st2) && Wrote(world, st, ObjThen(o, k), st2, k, old(data), data)
    {
      ghost var left := world.Keys;
      match o
      case Const(name, typ, val) =>
        WriteNum(CONST_TAG, st, Cons(S(name), Cons(T(typ), Cons(V(val), k))));
        WriteStr(name, st, Cons(T(typ), Cons(V(val), k)));
        st2 := Typ(typ, st, Cons(V(val), k), left);
        Value(val, st2, k);
      case TypeName(typ) =>
        WriteNum(TYPE_TAG, st, Cons(T(typ), k));
        st2 := Typ(typ, st, k, left);
      case Variable(name, typ) =>
        WriteNum(VAR_TAG, st, Cons(S(name), Cons(T(typ), k)));
        WriteStr(name, st, Cons(T(typ), k));
        st2 := Typ(typ, st, k, left);
      case Func(name, typ) =>
        WriteNum(FUNC_TAG, st, Cons(S(name), Cons(T(typ), k)));
        WriteStr(name, st, Cons(T(typ), k));
        st2 := Typ(typ, st, k, left);
    }

    /** `ExportData`, after the magic string: the package and its exported objects. */
    method ExportData(cur: Option<Pkg>, os: seq<Object>, ghost st: St)
      requires data == [] && Sync(st) && Sound(world, st) && cur.Some? && forall o :: o in os ==> ObjectOk(world, o)
      modifies this`data, this`pkgIndex, this`typIndex
      ensures data == Emit(world, st, PackageItems(cur, os)).toks
      ensures Sync(Emit(world, st, PackageItems(cur, os)).st)
    {
      ghost var objs := Cons(N(|os|), ObjsThen(os, 0, Nil));
      WriteStr(VERSION, st, Cons(P(cur), objs));
      ghost var st1 := Package(cur, st, objs);
      WriteNum(|os|, st1, ObjsThen(os, 0, Nil));
      var i := 0;
      while i < |os|
        invariant 0 <= i <= |os| && Sync(st1) && Sound(world, st1)
        invariant Wrote(world, st, PackageItems(cur, os), st1, ObjsThen(os, i, Nil), [], data)
      {
        assert os[i] in os;
        st1 := Obj(os[i], st1, ObjsThen(os, i + 1, Nil));
        i := i + 1;
      }
      assert [] + Emit(world, st, PackageItems(cur, os)).toks == Emit(world, st, PackageItems(cur, os)).toks;
      assert data + [] == data;
    }
  }

  lemma CloseWritesNothing(g: World, r: Ref, st: St, k: Items)
    ensures Emit(g, st, Cons(Close(r), k)) == Emit(g, st.Closed(r), k)
  {}

  lemma {:induction false} NeedsWriteNothing(g: World, es: seq<Ref>, i: nat, st: St, k: Items)
    requires i <= |es|
    ensures Emit(g, st, NeedsThen(es, i, k)).toks == Emit(g, st, k).toks
    ensures Emit(g, st, NeedsThen(es, i, k)).st == Emit(g, st, k).st
    decreases |es| - i
  {
    if i < |es| { NeedsWriteNothing(g, es, i + 1, st, k); }
  }

  function Numbered(refs: seq<Ref>, m: map<Ref, nat>): map<Ref, nat> {
    if refs == [] then m else Numbered(refs[1..], m[refs[0] := |m|])
  }

  function Initial(predeclared: seq<Ref>, held: set<Ref>): St {
    St(Numbered(predeclared, map[NIL := 0]), map[None := 0], {}, held)
  }
}
