/** The type graph of a checked Go program (go/types/types.go, objects.go).
    A type is a node of a finite graph; a reference plays the part of a Go pointer,
    so two references are equal exactly when the source's `==` on types says so. */
module Types {

  datatype Option<+T> = None | Some(value: T)

  type Ref = nat

  /** A package is known by its path; None is the nil package of the universe scope. */
  type Package = Option<string>

  /** A struct field (`Var` with `anonymous`), together with its tag. */
  datatype Field = Field(pkg: Package, name: string, typ: Ref, anonymous: bool, tag: string)

  /** A method. `obj` is the identity of the `Func` object, `ptrRecv` tells whether the
      receiver is of the form *T, `typ` refers to its signature. */
  datatype Method = Method(obj: nat, pkg: Package, name: string, typ: Ref, ptrRecv: bool)

  datatype Node =
    | Basic(kind: int)
    | Array(len: int, elem: Ref)
    | Slice(elem: Ref)
    | Struct(fields: seq<Field>)
    | Pointer(elem: Ref)
    | Tuple(vars: seq<Ref>)
    | Signature(params: Ref, results: Ref, variadic: bool)
    | Interface(allMethods: seq<Method>)
    | Map(key: Ref, elem: Ref)
    | Chan(dir: int, elem: Ref)
    | Named(obj: nat, underlying: Ref, methods: seq<Method>)

  type Graph = map<Ref, Node>

  /** The types mentioned directly by a node that type identity looks at, in order.
      Named types are compared by declaration, so nothing below them is looked at. */
  function Parts(n: Node): seq<Ref> {
    match n
    case Basic(_) => []
    case Array(_, e) => [e]
    case Slice(e) => [e]
    case Struct(fs) => seq(|fs|, i requires 0 <= i < |fs| => fs[i].typ)
    case Pointer(e) => [e]
    case Tuple(vs) => vs
    case Signature(p, r, _) => [p, r]
    case Interface(ms) => seq(|ms|, i requires 0 <= i < |ms| => ms[i].typ)
    case Map(k, e) => [k, e]
    case Chan(_, e) => [e]
    case Named(_, _, _) => []
  }

  /** Every type mentioned by a node is a node of the graph. */
  ghost predicate Closed(g: Graph) {
    forall x, i :: x in g && 0 <= i < |Parts(g[x])| ==> Parts(g[x])[i] in g
  }

  /** `ast.IsExported`, for names that start with an ASCII letter. */
  predicate Exported(name: string) {
    |name| > 0 && 'A' <= name[0] <= 'Z'
  }

  /** `Id` (objects.go): the name itself if exported, else qualified by the package path. */
  function Id(pkg: Package, name: string): string {
    if Exported(name) then name else Prefix(pkg) + "." + name
  }

  function Prefix(pkg: Package): string {
    if pkg.None? || pkg.value == "" then "_" else pkg.value
  }

  /** `object.sameId` (objects.go). */
  predicate SameId(pkg0: Package, name0: string, pkg: Package, name: string) {
    name == name0 && (Exported(name0) || pkg == pkg0)
  }

  /** An identifier as the language sees it: no dot in the name, and an unexported one
      belongs to a package with a proper path. */
  predicate ProperName(pkg: Package, name: string) {
    && '.' !in name
    && (!Exported(name) ==> pkg.Some? && pkg.value != "" && pkg.value != "_")
  }

  /** The two ways in which the package compares identifiers, by `sameId` and by equal `Id` strings,
      disagree exactly on an unexported name in two different packages that both qualify it alike: no
      package, one without a path, and one with the path "_". */
  lemma SameIdIffEqualIds(p0: Package, n0: string, p: Package, n: string)
    requires '.' !in n0 && '.' !in n
    ensures (SameId(p0, n0, p, n) <==> Id(p0, n0) == Id(p, n)) <==> !(n0 == n && !Exported(n) && p0 != p && Prefix(p0) == Prefix(p))
    ensures ProperName(p0, n0) && ProperName(p, n) ==> (SameId(p0, n0, p, n) <==> Id(p0, n0) == Id(p, n))
  {
    if !Exported(n0) { assert Id(p0, n0)[|Prefix(p0)|] == '.'; }
    if !Exported(n) { assert Id(p, n)[|Prefix(p)|] == '.'; }
    if Id(p0, n0) == Id(p, n) && !Exported(n0) {
      DottedSplit(Prefix(p0), n0, Prefix(p), n);
    }
  }

  lemma DottedSplit(a: string, b: string, c: string, d: string)
    requires a + "." + b == c + "." + d
    requires '.' !in b && '.' !in d
    ensures a == c && b == d
  {
    var s := a + "." + b;
    assert s[|a|] == '.' && (c + "." + d)[|c|] == '.';
    assert forall k :: |a| < k < |s| ==> s[k] == b[k - |a| - 1];
    assert forall k :: |c| < k < |s| ==> s[k] == d[k - |c| - 1];
    assert |a| == |c|;
    assert a == s[..|a|] && c == s[..|c|];
    assert b == s[|a| + 1..] && d == s[|c| + 1..];
  }
}
