/** The graph of types that go/importer writes and reads. A reference plays the part of a Go
    pointer; a type in the making is a node with zero contents. */
module TypeGraph {
  import opened Types

  const NIL: Ref := 0

  datatype Pkg = Pkg(name: string, path: string)

  datatype Param = Param(name: string, typ: Ref)

  /** A method of an interface. */
  datatype Member = Member(pkg: Option<Pkg>, name: string, typ: Ref)

  datatype Var = Var(pkg: Option<Pkg>, name: string, typ: Ref, anonymous: bool, tag: string)

  datatype Type =
    | Basic(name: string)
    | Array(len: int, elem: Ref)
    | Slice(elem: Ref)
    | Struct(fields: seq<Var>)
    | Pointer(elem: Ref)
    | Signature(recv: Option<Param>, params: seq<Param>, results: seq<Param>, variadic: bool)
    | Interface(methods: seq<Member>, embeddeds: seq<Ref>)
    | Map(key: Ref, elem: Ref)
    | Chan(dir: int, elem: Ref)
    | Named(name: string, pkg: Option<Pkg>, underlying: Ref, funcs: seq<Param>)

  type World = map<Ref, Type>

  /** `deref`: a pointer's base, which is nil while the pointer is in the making. */
  function Deref(g: World, r: Ref): Ref {
    if r in g && g[r].Pointer? then g[r].elem else r
  }

  /** The package of a field or method with a name that is not exported is known. */
  predicate Owned(pkg: Option<Pkg>, name: string) {
    Exported(name) || pkg.Some?
  }

  predicate IsBasic(g: World, r: Ref) {
    r in g && g[r].Basic?
  }

  predicate IsNamed(g: World, r: Ref) {
    r in g && g[r].Named?
  }

  predicate IsSignature(g: World, r: Ref) {
    r in g && g[r].Signature?
  }

  /** An anonymous field has type T or *T for a type name T, and the name of T. */
  predicate FieldOk(g: World, f: Var) {
    && f.typ in g && Owned(f.pkg, f.name) && f.name != "" && (f.anonymous ==> f.pkg.Some?)
    && (f.anonymous ==>
          var t := Deref(g, f.typ);
          (IsBasic(g, t) || IsNamed(g, t)) && g[t].name == f.name)
  }

  predicate SignatureOk(g: World, t: Type)
    requires t.Signature?
  {
    && (t.recv.Some? ==> t.recv.value.typ in g)
    && (forall p :: p in t.params ==> p.typ in g) && (forall p :: p in t.results ==> p.typ in g)
    && (t.variadic ==> t.params != [] && g[t.params[|t.params| - 1].typ].Slice?)
  }

  /** What the type checker guarantees of every type of a checked package, apart from predeclared ones. */
  predicate TypeOk(g: World, t: Type) {
    match t
    case Basic(_) => true
    case Array(_, e) => e in g
    case Slice(e) => e in g
    case Pointer(e) => e in g
    case Struct(fs) => forall f :: f in fs ==> FieldOk(g, f)
    case Signature(_, _, _, _) => SignatureOk(g, t)
    case Interface(ms, es) =>
      && (forall m :: m in ms ==> IsSignature(g, m.typ) && Owned(m.pkg, m.name))
      && (forall e :: e in es ==> IsNamed(g, e) && g[e].underlying in g && g[g[e].underlying].Interface?)
    case Map(k, e) => k in g && e in g
    case Chan(_, e) => e in g
    case Named(_, pkg, u, ms) =>
      && pkg.Some? && u in g && !g[u].Named?
      && (forall m :: m in ms ==> IsSignature(g, m.typ))
      && (forall i, j :: 0 <= i < j < |ms| ==> ms[i].name != ms[j].name)
  }
}
