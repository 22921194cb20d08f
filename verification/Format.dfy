/** The export format: which tokens a type graph becomes, given which types and packages have
    been written before. */
module Format {
  import opened Types
  import opened TypeGraph
  import opened Constants
  import Exact
  import ConstantCodec

  const PACKAGE_TAG := -1
  const CONST_TAG := -2
  const TYPE_TAG := -3
  const VAR_TAG := -4
  const FUNC_TAG := -5
  const BASIC_TAG := -6
  const ARRAY_TAG := -7
  const SLICE_TAG := -8
  const STRUCT_TAG := -9
  const POINTER_TAG := -10
  const SIGNATURE_TAG := -11
  const INTERFACE_TAG := -12
  const MAP_TAG := -13
  const CHAN_TAG := -14
  const NAMED_TAG := -15

  function Tag(t: Type): int {
    match t
    case Basic(_) => BASIC_TAG
    case Array(_, _) => ARRAY_TAG
    case Slice(_) => SLICE_TAG
    case Struct(_) => STRUCT_TAG
    case Pointer(_) => POINTER_TAG
    case Signature(_, _, _, _) => SIGNATURE_TAG
    case Interface(_, _) => INTERFACE_TAG
    case Map(_, _) => MAP_TAG
    case Chan(_, _) => CHAN_TAG
    case Named(_, _, _, _) => NAMED_TAG
  }

  /** What is left to write. Close marks the point from which a type has its contents, Need one
      where the reader looks into a type. */
  datatype Item =
    | N(n: int)
    | S(s: string)
    | P(pkg: Option<Pkg>)
    | T(typ: Ref)
    | V(val: Exact.Value)
    | Close(closed: Ref)
    | Need(needed: Ref)

  datatype Items = Nil | Cons(head: Item, tail: Items)

  /** A name, with its package unless it is exported. */
  function NameThen(pkg: Option<Pkg>, name: string, k: Items): Items {
    Cons(S(name), if Exported(name) then k else Cons(P(pkg), k))
  }

  /** The written name of a field. */
  function WrittenName(f: Var): string {
    if f.anonymous then "" else f.name
  }

  function FieldThen(g: World, f: Var, k: Items): Items {
    NameThen(f.pkg, WrittenName(f), Cons(T(f.typ), NeedBase(g, f, Cons(S(f.tag), k))))
  }

  /** The reader dereferences the pointer of an anonymous field. */
  function NeedBase(g: World, f: Var, k: Items): Items {
    if f.anonymous && f.typ in g && g[f.typ].Pointer? then Cons(Need(f.typ), k) else k
  }

  function FieldsThen(g: World, fs: seq<Var>, i: nat, k: Items): Items
    requires i <= |fs|
    decreases |fs| - i
  {
    if i == |fs| then k else FieldThen(g, fs[i], FieldsThen(g, fs, i + 1, k))
  }

  function ParamThen(p: Param, k: Items): Items {
    Cons(S(p.name), Cons(T(p.typ), k))
  }

  function ParamsThen(ps: seq<Param>, i: nat, k: Items): Items
    requires i <= |ps|
    decreases |ps| - i
  {
    if i == |ps| then k else ParamThen(ps[i], ParamsThen(ps, i + 1, k))
  }

  function TupleThen(ps: seq<Param>, k: Items): Items {
    Cons(N(|ps|), ParamsThen(ps, 0, k))
  }

  function BoolThen(b: bool, k: Items): Items {
    Cons(N(if b then 1 else 0), k)
  }

  /** The receiver of a signature, if it has one. */
  function ReceiverThen(t: Type, k: Items): Items
    requires t.Signature?
  {
    if t.recv.Some? then BoolThen(true, ParamThen(t.recv.value, k)) else BoolThen(false, k)
  }

  function SignatureThen(t: Type, k: Items): Items
    requires t.Signature?
  {
    ReceiverThen(t, TupleThen(t.params, TupleThen(t.results, BoolThen(t.variadic, k))))
  }

  function MemberThen(m: Member, k: Items): Items {
    NameThen(m.pkg, m.name, Cons(T(m.typ), k))
  }

  function MembersThen(ms: seq<Member>, i: nat, k: Items): Items
    requires i <= |ms|
    decreases |ms| - i
  {
    if i == |ms| then k else MemberThen(ms[i], MembersThen(ms, i + 1, k))
  }

  function RefsThen(es: seq<Ref>, i: nat, k: Items): Items
    requires i <= |es|
    decreases |es| - i
  {
    if i == |es| then k else Cons(T(es[i]), RefsThen(es, i + 1, k))
  }

  /** The reader looks up the underlying types of all embedded types at the end of an interface. */
  function NeedsThen(es: seq<Ref>, i: nat, k: Items): Items
    requires i <= |es|
    decreases |es| - i
  {
    if i == |es| then k else Cons(Need(es[i]), NeedsThen(es, i + 1, k))
  }

  /** What follows the tag of a type. A named type has its contents once its underlying type is
      read; any other type only at its end. */
  function Body(g: World, r: Ref, t: Type, k: Items): Items {
    var end := Cons(Close(r), k);
    match t
    case Basic(name) => Cons(S(name), end)
    case Array(n, e) => Cons(N(n), Cons(T(e), end))
    case Slice(e) => Cons(T(e), end)
    case Struct(fs) => Cons(N(|fs|), FieldsThen(g, fs, 0, end))
    case Pointer(e) => Cons(T(e), end)
    case Signature(_, _, _, _) => SignatureThen(t, end)
    case Interface(ms, es) => Cons(N(|ms|), MembersThen(ms, 0, Cons(N(|es|), RefsThen(es, 0, NeedsThen(es, 0, end)))))
    case Map(key, e) => Cons(T(key), Cons(T(e), end))
    case Chan(d, e) => Cons(N(d), Cons(T(e), end))
    case Named(name, pkg, u, ms) =>
      Cons(S(name), Cons(P(pkg), Cons(T(u), Cons(Close(r), Cons(N(|ms|), ParamsThen(ms, 0, k))))))
  }

  /** An exported object of the package's scope. */
  datatype Object =
    | Const(name: string, typ: Ref, val: Exact.Value)
    | TypeName(typ: Ref)
    | Variable(name: string, typ: Ref)
    | Func(name: string, typ: Ref)

  function ObjThen(o: Object, k: Items): Items {
    match o
    case Const(name, typ, val) => Cons(N(CONST_TAG), Cons(S(name), Cons(T(typ), Cons(V(val), k))))
    case TypeName(typ) => Cons(N(TYPE_TAG), Cons(T(typ), k))
    case Variable(name, typ) => Cons(N(VAR_TAG), Cons(S(name), Cons(T(typ), k)))
    case Func(name, typ) => Cons(N(FUNC_TAG), Cons(S(name), Cons(T(typ), k)))
  }

  function ObjsThen(os: seq<Object>, i: nat, k: Items): Items
    requires i <= |os|
    decreases |os| - i
  {
    if i == |os| then k else ObjThen(os[i], ObjsThen(os, i + 1, k))
  }

  const VERSION := "v0"

  /** The export data of a package, after the magic string. */
  function PackageItems(cur: Option<Pkg>, os: seq<Object>): Items {
    Cons(S(VERSION), Cons(P(cur), Cons(N(|os|), ObjsThen(os, 0, Nil))))
  }

  ghost predicate ObjectOk(g: World, o: Object) {
    match o
    case Const(_, typ, val) => typ in g && ConstantCodec.Writable(val)
    case TypeName(typ) => IsNamed(g, typ)
    case Variable(_, typ) => typ in g
    case Func(_, typ) => IsSignature(g, typ)
  }

  /** The types and packages written so far, with their numbers; the types in the making; and the types
      that the reader has from before, which are never in the making. */
  datatype St = St(types: map<Ref, nat>, pkgs: map<Option<Pkg>, nat>, open: set<Ref>, held: set<Ref>) {
    function Opened(r: Ref): St {
      St(types[r := |types|], pkgs, if r in held then open else open + {r}, held)
    }

    function Closed(r: Ref): St {
      this.(open := open - {r})
    }

    function WithPkg(p: Option<Pkg>): St {
      this.(pkgs := pkgs[p := |pkgs|])
    }
  }

  /** The outcome: the final state, the tokens, and whether the reader only looks into types that
      have their contents by then. */
  datatype Out = Out(st: St, toks: seq<Token>, clean: bool)

  function Put(toks: seq<Token>, o: Out): Out {
    Out(o.st, toks + o.toks, o.clean)
  }

  lemma OpenedShrinks(g: World, st: St, r: Ref)
    requires r in g && r !in st.types
    ensures g.Keys - st.Opened(r).types.Keys < g.Keys - st.types.Keys
  {
    assert r in g.Keys - st.types.Keys && r !in g.Keys - st.Opened(r).types.Keys;
  }

  ghost function Emit(g: World, st: St, items: Items): Out
    decreases g.Keys - st.types.Keys, items
  {
    match items
    case Nil => Out(st, [], true)
    case Cons(N(i), k) => Put([Num(i)], Emit(g, st, k))
    case Cons(S(s), k) => Put([Str(s)], Emit(g, st, k))
    case Cons(P(p), k) =>
      if p in st.pkgs then Put([Num(st.pkgs[p])], Emit(g, st, k))
      else if p.None? then Out(st, [], false)
      else Put([Num(PACKAGE_TAG), Str(p.value.name), Str(p.value.path)], Emit(g, st.WithPkg(p), k))
    case Cons(T(r), k) =>
      if r in st.types then Put([Num(st.types[r])], Emit(g, st, k))
      else if r !in g then Out(st, [], false)
      else
        OpenedShrinks(g, st, r);
        Put([Num(Tag(g[r]))], Emit(g, st.Opened(r), Body(g, r, g[r], k)))
    case Cons(V(v), k) =>
      Put(if ConstantCodec.Writable(v) then ConstantCodec.EncodeValue(v) else [], Emit(g, st, k))
    case Cons(Close(r), k) => Emit(g, st.Closed(r), k)
    case Cons(Need(r), k) =>
      var o := Emit(g, st, k);
      Out(o.st, o.toks, o.clean && r !in st.open)
  }

  lemma EmitValue(g: World, st: St, v: Exact.Value, k: Items)
    requires ConstantCodec.Writable(v)
    ensures Emit(g, st, Cons(V(v), k)) == Put(ConstantCodec.EncodeValue(v), Emit(g, st, k))
  {
    EmitEncoded(g, st, v, k, ConstantCodec.EncodeValue(v));
  }

  lemma EmitEncoded(g: World, st: St, v: Exact.Value, k: Items, toks: seq<Token>)
    requires ConstantCodec.Writable(v) ==> toks == ConstantCodec.EncodeValue(v)
    requires !ConstantCodec.Writable(v) ==> toks == []
    ensures Emit(g, st, Cons(V(v), k)) == Put(toks, Emit(g, st, k))
  {}
}
