/** Which packages can be imported again, whatever the order of their objects: a condition on the type
    graph alone. */
module Cleanness {
  import opened Types
  import opened TypeGraph
  import opened Format
  import opened Export

  // ---------------------------------------------------------------------------
  // The condition

  /** The type mentions r. */
  ghost predicate Mentions(t: Type, r: Ref) {
    match t
    case Basic(_) => false
    case Array(_, e) => e == r
    case Slice(e) => e == r
    case Pointer(e) => e == r
    case Struct(fs) => exists i :: 0 <= i < |fs| && fs[i].typ == r
    case Signature(recv, ps, rs, _) => (recv.Some? && recv.value.typ == r) || HasParam(ps, r) || HasParam(rs, r)
    case Interface(ms, es) => (exists i :: 0 <= i < |ms| && ms[i].typ == r) || r in es
    case Map(k, e) => k == r || e == r
    case Chan(_, e) => e == r
    case Named(_, _, u, ms) => u == r || HasParam(ms, r)
  }

  ghost predicate HasParam(ps: seq<Param>, r: Ref) {
    exists i :: 0 <= i < |ps| && ps[i].typ == r
  }

  /** While the type is being read, its reader reads r. A named type is in the making only until its
      underlying type has been read. */
  ghost predicate Opens(t: Type, r: Ref) {
    if t.Named? then t.underlying == r else Mentions(t, r)
  }

  /** The reader of the type looks into p: it takes the base of an embedded pointer, and the underlying
      type of an embedded interface. */
  ghost predicate LooksInto(g: World, t: Type, p: Ref) {
    match t
    case Struct(fs) => p in g && g[p].Pointer? && exists i :: 0 <= i < |fs| && fs[i].anonymous && fs[i].typ == p
    case Interface(_, es) => p in es
    case _ => false
  }

  /** A way along mentioned types, none of them predeclared, that keeps away from p. */
  ghost predicate Way(g: World, base: set<Ref>, p: Ref, way: seq<Ref>) {
    && (forall i {:trigger way[i]} :: 0 <= i < |way| ==> way[i] in g && way[i] !in base && way[i] != p)
    && forall i {:trigger way[i]} :: 0 < i < |way| ==> Mentions(g[way[i - 1]], way[i])
  }

  /** What p mentions leads back to x, away from p. */
  ghost predicate Leads(g: World, base: set<Ref>, p: Ref, x: Ref) {
    exists way :: LeadsBy(g, base, p, x, way)
  }

  ghost predicate LeadsBy(g: World, base: set<Ref>, p: Ref, x: Ref, way: seq<Ref>) {
    p in g && way != [] && Way(g, base, p, way) && Opens(g[p], way[0]) && way[|way| - 1] == x
  }

  /** A struct embeds a pointer that leads to it, or an interface embeds one that leads to it; types that the
      reader holds from before are never in the making. */
  ghost predicate Hazard(g: World, base: set<Ref>, held: set<Ref>, p: Ref, x: Ref) {
    p in g && p !in base && p !in held && x in g && LooksInto(g, g[x], p) && Leads(g, base, p, x)
  }

  ghost predicate Harmless(g: World, base: set<Ref>, held: set<Ref>) {
    forall p, x :: !Hazard(g, base, held, p, x)
  }

  lemma LeadsOn(g: World, base: set<Ref>, p: Ref, x: Ref, y: Ref)
    requires Leads(g, base, p, x) && x in g && Mentions(g[x], y) && y in g && y !in base && y != p
    ensures Leads(g, base, p, y)
  {
    var way :| LeadsBy(g, base, p, x, way);
    var longer := way + [y];
    assert forall i {:trigger longer[i]} :: 0 <= i < |way| ==> longer[i] == way[i];
    assert forall i {:trigger longer[i]} :: 0 < i < |longer| ==> longer[i - 1] == way[i - 1];
    assert LeadsBy(g, base, p, y, longer);
  }

  lemma LeadsFirst(g: World, base: set<Ref>, p: Ref, y: Ref)
    requires p in g && Opens(g[p], y) && y in g && y !in base && y != p
    ensures Leads(g, base, p, y)
  {
    assert LeadsBy(g, base, p, y, [y]);
  }

  // ---------------------------------------------------------------------------
  // Harmless graphs are clean

  /** Where r is in the making, the writer comes to x only if r leads to it, or if it is known already. */
  ghost predicate Linked(g: World, base: set<Ref>, r: Ref, x: Ref) {
    x == r || x in base || Leads(g, base, r, x)
  }

  /** What is left to write does not look into the types in the making. */
  ghost predicate Safe(g: World, base: set<Ref>, items: Items, open: set<Ref>) {
    match items
    case Nil => true
    case Cons(T(x), k) => (x in g || x in base) && (forall r :: r in open ==> Linked(g, base, r, x)) && Safe(g, base, k, open)
    case Cons(Close(r), k) => Safe(g, base, k, open - {r})
    case Cons(Need(p), k) => p !in open && Safe(g, base, k, open)
    case Cons(_, k) => Safe(g, base, k, open)
  }

  /** The writer may come to y while the types in open are in the making. */
  ghost predicate Allowed(g: World, base: set<Ref>, open: set<Ref>, y: Ref) {
    (y in g || y in base) && forall r :: r in open ==> Linked(g, base, r, y)
  }

  lemma MentionedIn(g: World, t: Type, r: Ref)
    requires TypeOk(g, t) && Mentions(t, r)
    ensures r in g
  {
    match t
    case Struct(fs) =>
      var i :| 0 <= i < |fs| && fs[i].typ == r;
      assert FieldOk(g, fs[i]);
    case _ =>
  }

  /** What a type in the making mentions may be written. */
  lemma MentionedAllowed(g: World, base: set<Ref>, open: set<Ref>, x: Ref, y: Ref)
    requires x in g && TypeOk(g, g[x]) && forall r :: r in open ==> Leads(g, base, r, x)
    requires Mentions(g[x], y)
    ensures Allowed(g, base, open, y)
    ensures Opens(g[x], y) ==> Allowed(g, base, open + {x}, y)
  {
    MentionedIn(g, g[x], y);
    forall r | r in open ensures Linked(g, base, r, y) {
      if y != r && y !in base { LeadsOn(g, base, r, x, y); }
    }
    if Opens(g[x], y) && y != x && y !in base { LeadsFirst(g, base, x, y); }
  }

  lemma {:induction false} ParamsSafe(g: World, base: set<Ref>, open: set<Ref>, ps: seq<Param>, i: nat, k: Items)
    requires i <= |ps| && (forall j :: 0 <= j < |ps| ==> Allowed(g, base, open, ps[j].typ)) && Safe(g, base, k, open)
    ensures Safe(g, base, ParamsThen(ps, i, k), open)
    decreases |ps| - i
  {
    if i < |ps| { ParamsSafe(g, base, open, ps, i + 1, k); }
  }

  lemma {:induction false} FieldsSafe(g: World, base: set<Ref>, open: set<Ref>, fs: seq<Var>, i: nat, k: Items)
    requires i <= |fs| && (forall j :: 0 <= j < |fs| ==> Allowed(g, base, open, fs[j].typ)) && Safe(g, base, k, open)
    requires forall j :: 0 <= j < |fs| && fs[j].anonymous && fs[j].typ in g && g[fs[j].typ].Pointer? ==> fs[j].typ !in open
    ensures Safe(g, base, FieldsThen(g, fs, i, k), open)
    decreases |fs| - i
  {
    if i < |fs| {
      FieldsSafe(g, base, open, fs, i + 1, k);
      var f, rest := fs[i], FieldsThen(g, fs, i + 1, k);
      assert Safe(g, base, Cons(S(f.tag), rest), open);
      assert Safe(g, base, NeedBase(g, f, Cons(S(f.tag), rest)), open);
      assert Safe(g, base, Cons(T(f.typ), NeedBase(g, f, Cons(S(f.tag), rest))), open);
    }
  }

  lemma {:induction false} MembersSafe(g: World, base: set<Ref>, open: set<Ref>, ms: seq<Member>, i: nat, k: Items)
    requires i <= |ms| && (forall j :: 0 <= j < |ms| ==> Allowed(g, base, open, ms[j].typ)) && Safe(g, base, k, open)
    ensures Safe(g, base, MembersThen(ms, i, k), open)
    decreases |ms| - i
  {
    if i < |ms| {
      MembersSafe(g, base, open, ms, i + 1, k);
      assert Safe(g, base, Cons(T(ms[i].typ), MembersThen(ms, i + 1, k)), open);
    }
  }

  lemma {:induction false} RefsSafe(g: World, base: set<Ref>, open: set<Ref>, es: seq<Ref>, i: nat, k: Items)
    requires i <= |es| && (forall j :: 0 <= j < |es| ==> Allowed(g, base, open, es[j])) && Safe(g, base, k, open)
    ensures Safe(g, base, RefsThen(es, i, k), open)
    decreases |es| - i
  {
    if i < |es| { RefsSafe(g, base, open, es, i + 1, k); }
  }

  lemma {:induction false} NeedsSafe(g: World, base: set<Ref>, open: set<Ref>, es: seq<Ref>, i: nat, k: Items)
    requires i <= |es| && (forall j :: 0 <= j < |es| ==> es[j] !in open) && Safe(g, base, k, open)
    ensures Safe(g, base, NeedsThen(es, i, k), open)
    decreases |es| - i
  {
    if i < |es| { NeedsSafe(g, base, open, es, i + 1, k); }
  }

  /** Where no hazard is, nothing that the reader of x looks into is in the making. */
  lemma LooksIntoDone(g: World, base: set<Ref>, held: set<Ref>, open: set<Ref>, x: Ref, p: Ref)
    requires Harmless(g, base, held) && x in g && TypeOk(g, g[x]) && open !! base && open !! held && LooksInto(g, g[x], p)
    requires forall r :: r in open ==> Leads(g, base, r, x)
    ensures p !in open + {x}
  {
    assert !Hazard(g, base, held, p, x);
  }

  /** The contents of a type that the reader holds from before. */
  lemma HeldSafe(g: World, base: set<Ref>, open: set<Ref>, x: Ref, k: Items)
    requires x in g && TypeOk(g, g[x]) && g[x].Named? && x !in open
    requires (forall r :: r in open ==> Leads(g, base, r, x)) && Safe(g, base, k, open)
    ensures Safe(g, base, Body(g, x, g[x], k), open)
  {
    var ms := g[x].funcs;
    forall y | Mentions(g[x], y) ensures Allowed(g, base, open, y) { MentionedAllowed(g, base, open, x, y); }
    forall j | 0 <= j < |ms| ensures Allowed(g, base, open, ms[j].typ) { assert Mentions(g[x], ms[j].typ); }
    assert Mentions(g[x], g[x].underlying);
    ParamsSafe(g, base, open, ms, 0, k);
    var funcs := Cons(N(|ms|), ParamsThen(ms, 0, k));
    assert open - {x} == open;
    assert Safe(g, base, Cons(Close(x), funcs), open);
    assert Safe(g, base, Cons(T(g[x].underlying), Cons(Close(x), funcs)), open);
  }

  lemma BodySafe(g: World, base: set<Ref>, held: set<Ref>, open: set<Ref>, x: Ref, k: Items)
    requires Harmless(g, base, held) && x in g && TypeOk(g, g[x]) && open !! base && open !! held && x !in open && x !in base
    requires (forall r :: r in open ==> Leads(g, base, r, x)) && Safe(g, base, k, open)
    ensures Safe(g, base, Body(g, x, g[x], k), open + {x})
  {
    var all, end := open + {x}, Cons(Close(x), k);
    assert all - {x} == open;
    assert Safe(g, base, end, all);
    forall y | Mentions(g[x], y)
      ensures Allowed(g, base, open, y) && (Opens(g[x], y) ==> Allowed(g, base, all, y))
    {
      MentionedAllowed(g, base, open, x, y);
    }
    forall p | LooksInto(g, g[x], p) ensures p !in all { LooksIntoDone(g, base, held, open, x, p); }
    match g[x]
    case Struct(fs) => StructSafe(g, base, all, x, end);
    case Signature(_, _, _, _) => SignatureSafe(g, base, all, x, end);
    case Interface(_, _) => InterfaceSafe(g, base, all, x, end);
    case Named(_, _, u, ms) =>
      assert Mentions(g[x], u) && Opens(g[x], u);
      NamedSafe(g, base, open, x, k);
    case Map(key, e) =>
      assert Mentions(g[x], key) && Mentions(g[x], e);
      assert Safe(g, base, Cons(T(e), end), all);
    case Array(_, e) => assert Mentions(g[x], e);
    case Slice(e) => assert Mentions(g[x], e);
    case Pointer(e) => assert Mentions(g[x], e);
    case Chan(_, e) => assert Mentions(g[x], e);
    case Basic(_) =>
  }

  lemma NamedSafe(g: World, base: set<Ref>, open: set<Ref>, x: Ref, k: Items)
    requires x in g && g[x].Named? && x !in open && Safe(g, base, k, open) && Allowed(g, base, open + {x}, g[x].underlying)
    requires forall y :: Mentions(g[x], y) ==> Allowed(g, base, open, y)
    ensures Safe(g, base, Body(g, x, g[x], k), open + {x})
  {
    var ms := g[x].funcs;
    forall j | 0 <= j < |ms| ensures Allowed(g, base, open, ms[j].typ) { assert Mentions(g[x], ms[j].typ); }
    ParamsSafe(g, base, open, ms, 0, k);
    var funcs := Cons(N(|ms|), ParamsThen(ms, 0, k));
    assert open + {x} - {x} == open;
    assert Safe(g, base, Cons(Close(x), funcs), open + {x});
    assert Safe(g, base, Cons(T(g[x].underlying), Cons(Close(x), funcs)), open + {x});
  }

  lemma StructSafe(g: World, base: set<Ref>, all: set<Ref>, x: Ref, end: Items)
    requires x in g && g[x].Struct? && Safe(g, base, end, all)
    requires forall y :: Mentions(g[x], y) ==> Allowed(g, base, all, y)
    requires forall p :: LooksInto(g, g[x], p) ==> p !in all
    ensures forall k :: end == Cons(Close(x), k) ==> Safe(g, base, Body(g, x, g[x], k), all)
  {
    var fs := g[x].fields;
    forall j | 0 <= j < |fs| ensures Allowed(g, base, all, fs[j].typ) { assert Mentions(g[x], fs[j].typ); }
    forall j | 0 <= j < |fs| && fs[j].anonymous && fs[j].typ in g && g[fs[j].typ].Pointer? ensures fs[j].typ !in all {
      assert LooksInto(g, g[x], fs[j].typ);
    }
    FieldsSafe(g, base, all, fs, 0, end);
  }

  lemma SignatureSafe(g: World, base: set<Ref>, all: set<Ref>, x: Ref, end: Items)
    requires x in g && g[x].Signature? && Safe(g, base, end, all)
    requires forall y :: Mentions(g[x], y) ==> Allowed(g, base, all, y)
    ensures Safe(g, base, SignatureThen(g[x], end), all)
  {
    var t := g[x];
    forall j | 0 <= j < |t.params| ensures Allowed(g, base, all, t.params[j].typ) { assert Mentions(t, t.params[j].typ); }
    forall j | 0 <= j < |t.results| ensures Allowed(g, base, all, t.results[j].typ) { assert Mentions(t, t.results[j].typ); }
    var last := BoolThen(t.variadic, end);
    ParamsSafe(g, base, all, t.results, 0, last);
    var results := TupleThen(t.results, last);
    ParamsSafe(g, base, all, t.params, 0, results);
    var params := TupleThen(t.params, results);
    assert Safe(g, base, params, all);
    if t.recv.Some? {
      assert Mentions(t, t.recv.value.typ);
      assert Safe(g, base, ParamThen(t.recv.value, params), all);
    }
  }

  lemma InterfaceSafe(g: World, base: set<Ref>, all: set<Ref>, x: Ref, end: Items)
    requires x in g && g[x].Interface? && Safe(g, base, end, all)
    requires forall y :: Mentions(g[x], y) ==> Allowed(g, base, all, y)
    requires forall p :: LooksInto(g, g[x], p) ==> p !in all
    ensures forall k :: end == Cons(Close(x), k) ==> Safe(g, base, Body(g, x, g[x], k), all)
  {
    var ms, es := g[x].methods, g[x].embeddeds;
    forall j | 0 <= j < |ms| ensures Allowed(g, base, all, ms[j].typ) { assert Mentions(g[x], ms[j].typ); }
    forall j | 0 <= j < |es| ensures Allowed(g, base, all, es[j]) && es[j] !in all {
      assert Mentions(g[x], es[j]) && LooksInto(g, g[x], es[j]);
    }
    NeedsSafe(g, base, all, es, 0, end);
    RefsSafe(g, base, all, es, 0, NeedsThen(es, 0, end));
    MembersSafe(g, base, all, ms, 0, Cons(N(|es|), RefsThen(es, 0, NeedsThen(es, 0, end))));
  }

  /** The state of a writer that has the predeclared types numbered. */
  ghost predicate Going(g: World, base: set<Ref>, st: St) {
    && base <= st.types.Keys && st.open <= st.types.Keys && st.open !! base && st.open !! st.held && None in st.pkgs
    && (forall r :: r in st.held ==> IsNamed(g, r))
    && forall r {:trigger g[r]} :: r in g && r !in base ==> TypeOk(g, g[r])
  }

  lemma {:induction false} SafeIsClean(g: World, base: set<Ref>, st: St, items: Items)
    requires Going(g, base, st) && Harmless(g, base, st.held) && Safe(g, base, items, st.open)
    ensures Emit(g, st, items).clean
    decreases g.Keys - st.types.Keys, items
  {
    match items
    case Nil =>
    case Cons(T(x), k) =>
      if x in st.types {
        SafeIsClean(g, base, st, k);
      } else {
        OpenedShrinks(g, st, x);
        if x in st.held { HeldSafe(g, base, st.open, x, k); } else { BodySafe(g, base, st.held, st.open, x, k); }
        SafeIsClean(g, base, st.Opened(x), Body(g, x, g[x], k));
      }
    case Cons(P(p), k) => SafeIsClean(g, base, if p in st.pkgs then st else st.WithPkg(p), k);
    case Cons(Close(r), k) => SafeIsClean(g, base, st.Closed(r), k);
    case Cons(_, k) => SafeIsClean(g, base, st, k);
  }

  // ---------------------------------------------------------------------------
  // A hazard makes some order of objects unclean

  /** The item is to come before p has its contents. */
  predicate Has(items: Items, it: Item, p: Ref) {
    items.Cons? && items.head != Close(p) && (items.head == it || Has(items.tail, it, p))
  }

  predicate Closes(items: Items, p: Ref) {
    items.Cons? && (items.head == Close(p) || Closes(items.tail, p))
  }

  /** What is to come in k is to come in items. */
  ghost predicate Over(items: Items, k: Items, p: Ref) {
    (Closes(k, p) ==> Closes(items, p)) && forall it {:trigger Has(k, it, p)} :: Has(k, it, p) ==> Has(items, it, p)
  }

  lemma OverOne(h: Item, k: Items, p: Ref)
    requires h != Close(p)
    ensures Over(Cons(h, k), k, p)
  {
  }

  lemma OverTrans(a: Items, b: Items, k: Items, p: Ref)
    requires Over(a, b, p) && Over(b, k, p)
    ensures Over(a, k, p)
  {
  }

  lemma NameOver(pkg: Option<Pkg>, name: string, k: Items, p: Ref)
    ensures Over(NameThen(pkg, name, k), k, p)
  {
    OverOne(P(pkg), k, p);
    if Exported(name) {
      OverOne(S(name), k, p);
    } else {
      OverOne(S(name), Cons(P(pkg), k), p);
      OverTrans(NameThen(pkg, name, k), Cons(P(pkg), k), k, p);
    }
  }

  lemma ParamOver(x: Param, k: Items, p: Ref)
    ensures Over(ParamThen(x, k), k, p) && Has(ParamThen(x, k), T(x.typ), p)
  {
    var l := Cons(T(x.typ), k);
    OverOne(T(x.typ), k, p);
    OverOne(S(x.name), l, p);
    assert Has(l, T(x.typ), p);
    OverTrans(ParamThen(x, k), l, k, p);
  }

  lemma {:induction false} ParamsHave(ps: seq<Param>, i: nat, k: Items, p: Ref)
    requires i <= |ps|
    ensures Over(ParamsThen(ps, i, k), k, p)
    ensures forall j :: i <= j < |ps| ==> Has(ParamsThen(ps, i, k), T(ps[j].typ), p)
    decreases |ps| - i
  {
    if i < |ps| {
      ParamsHave(ps, i + 1, k, p);
      ParamOver(ps[i], ParamsThen(ps, i + 1, k), p);
    }
  }

  lemma {:induction false} FieldsHave(g: World, fs: seq<Var>, i: nat, k: Items, p: Ref)
    requires i <= |fs|
    ensures Over(FieldsThen(g, fs, i, k), k, p)
    ensures forall j :: i <= j < |fs| ==> Has(FieldsThen(g, fs, i, k), T(fs[j].typ), p)
    ensures forall j :: i <= j < |fs| && fs[j].anonymous && fs[j].typ in g && g[fs[j].typ].Pointer? ==>
              Has(FieldsThen(g, fs, i, k), Need(fs[j].typ), p)
    decreases |fs| - i
  {
    if i < |fs| {
      FieldsHave(g, fs, i + 1, k, p);
      var rest := FieldsThen(g, fs, i + 1, k);
      FieldHas(g, fs[i], rest, p);
      OverTrans(FieldsThen(g, fs, i, k), rest, k, p);
    }
  }

  lemma FieldHas(g: World, f: Var, k: Items, p: Ref)
    ensures Over(FieldThen(g, f, k), k, p) && Has(FieldThen(g, f, k), T(f.typ), p)
    ensures f.anonymous && f.typ in g && g[f.typ].Pointer? ==> Has(FieldThen(g, f, k), Need(f.typ), p)
  {
    var l1 := Cons(S(f.tag), k);
    var l2 := NeedBase(g, f, l1);
    var l3 := Cons(T(f.typ), l2);
    OverOne(S(f.tag), k, p);
    OverOne(Need(f.typ), l1, p);
    OverOne(T(f.typ), l2, p);
    NameOver(f.pkg, WrittenName(f), l3, p);
    assert Has(l3, T(f.typ), p);
    assert f.anonymous && f.typ in g && g[f.typ].Pointer? ==> Has(l2, Need(f.typ), p) && Has(l3, Need(f.typ), p);
    OverTrans(l2, l1, k, p);
    OverTrans(l3, l2, k, p);
    OverTrans(FieldThen(g, f, k), l3, k, p);
  }

  lemma {:induction false} MembersHave(ms: seq<Member>, i: nat, k: Items, p: Ref)
    requires i <= |ms|
    ensures Over(MembersThen(ms, i, k), k, p)
    ensures forall j :: i <= j < |ms| ==> Has(MembersThen(ms, i, k), T(ms[j].typ), p)
    decreases |ms| - i
  {
    if i < |ms| {
      MembersHave(ms, i + 1, k, p);
      var l1 := Cons(T(ms[i].typ), MembersThen(ms, i + 1, k));
      assert Has(l1, T(ms[i].typ), p) && Over(l1, MembersThen(ms, i + 1, k), p);
      NameOver(ms[i].pkg, ms[i].name, l1, p);
    }
  }

  lemma {:induction false} RefsHave(es: seq<Ref>, i: nat, k: Items, p: Ref)
    requires i <= |es|
    ensures Over(RefsThen(es, i, k), k, p)
    ensures forall j :: i <= j < |es| ==> Has(RefsThen(es, i, k), T(es[j]), p)
    decreases |es| - i
  {
    if i < |es| { RefsHave(es, i + 1, k, p); }
  }

  lemma {:induction false} NeedsHave(es: seq<Ref>, i: nat, k: Items, p: Ref)
    requires i <= |es|
    ensures Over(NeedsThen(es, i, k), k, p)
    ensures forall j :: i <= j < |es| ==> Has(NeedsThen(es, i, k), Need(es[j]), p)
    decreases |es| - i
  {
    if i < |es| { NeedsHave(es, i + 1, k, p); }
  }

  /** The contents of y, before `end` closes it: all that it mentions, and what its reader looks into. */
  lemma StructHas(g: World, y: Ref, k: Items, p: Ref)
    requires y in g && g[y].Struct?
    ensures Over(Body(g, y, g[y], k), Cons(Close(y), k), p)
    ensures forall z :: Mentions(g[y], z) ==> Has(Body(g, y, g[y], k), T(z), p)
    ensures LooksInto(g, g[y], p) ==> Has(Body(g, y, g[y], k), Need(p), p)
  {
    var fs, end := g[y].fields, Cons(Close(y), k);
    FieldsHave(g, fs, 0, end, p);
    assert Over(Body(g, y, g[y], k), FieldsThen(g, fs, 0, end), p);
  }

  lemma SignatureHas(g: World, y: Ref, k: Items, p: Ref)
    requires y in g && g[y].Signature?
    ensures Over(Body(g, y, g[y], k), Cons(Close(y), k), p)
    ensures forall z :: Mentions(g[y], z) ==> Has(Body(g, y, g[y], k), T(z), p)
  {
    var t, end := g[y], Cons(Close(y), k);
    var last := BoolThen(t.variadic, end);
    assert Over(last, end, p);
    ParamsHave(t.results, 0, last, p);
    var results := TupleThen(t.results, last);
    assert Over(results, ParamsThen(t.results, 0, last), p);
    ParamsHave(t.params, 0, results, p);
    var params := TupleThen(t.params, results);
    assert Over(params, ParamsThen(t.params, 0, results), p);
    if t.recv.Some? {
      ParamOver(t.recv.value, params, p);
      OverOne(N(1), ParamThen(t.recv.value, params), p);
    } else {
      OverOne(N(0), params, p);
    }
    assert Over(ReceiverThen(t, params), params, p);
  }

  lemma InterfaceHas(g: World, y: Ref, k: Items, p: Ref)
    requires y in g && g[y].Interface?
    ensures Over(Body(g, y, g[y], k), Cons(Close(y), k), p)
    ensures forall z :: Mentions(g[y], z) ==> Has(Body(g, y, g[y], k), T(z), p)
    ensures LooksInto(g, g[y], p) ==> Has(Body(g, y, g[y], k), Need(p), p)
  {
    var ms, es, end := g[y].methods, g[y].embeddeds, Cons(Close(y), k);
    NeedsHave(es, 0, end, p);
    var needs := NeedsThen(es, 0, end);
    RefsHave(es, 0, needs, p);
    var refs := Cons(N(|es|), RefsThen(es, 0, needs));
    assert Over(refs, RefsThen(es, 0, needs), p);
    MembersHave(ms, 0, refs, p);
    assert Over(Body(g, y, g[y], k), MembersThen(ms, 0, refs), p);
  }

  lemma NamedHas(g: World, y: Ref, k: Items, p: Ref)
    requires y in g && g[y].Named?
    ensures Has(Body(g, y, g[y], k), T(g[y].underlying), p)
    ensures Closes(Body(g, y, g[y], k), y)
    ensures y != p ==> Over(Body(g, y, g[y], k), k, p) && forall z :: Mentions(g[y], z) ==> Has(Body(g, y, g[y], k), T(z), p)
  {
    var ms := g[y].funcs;
    ParamsHave(ms, 0, k, p);
    var funcs := Cons(N(|ms|), ParamsThen(ms, 0, k));
    assert Over(funcs, ParamsThen(ms, 0, k), p);
    var close := Cons(Close(y), funcs);
    assert y != p ==> Over(close, funcs, p);
    var under := Cons(T(g[y].underlying), close);
    assert Over(under, close, p) && Has(under, T(g[y].underlying), p) && Closes(under, y);
    var path := Cons(P(g[y].pkg), under);
    assert Over(path, under, p) && Closes(path, y);
    assert Over(Body(g, y, g[y], k), path, p);
  }

  /** The contents of another type than p. */
  lemma BodyHas(g: World, y: Ref, k: Items, p: Ref)
    requires y in g && y != p
    ensures Over(Body(g, y, g[y], k), k, p)
    ensures forall z :: Mentions(g[y], z) ==> Has(Body(g, y, g[y], k), T(z), p)
    ensures LooksInto(g, g[y], p) ==> Has(Body(g, y, g[y], k), Need(p), p)
  {
    var end := Cons(Close(y), k);
    assert Over(end, k, p);
    match g[y]
    case Struct(_) => StructHas(g, y, k, p);
    case Signature(_, _, _, _) => SignatureHas(g, y, k, p);
    case Interface(_, _) => InterfaceHas(g, y, k, p);
    case Named(_, _, _, _) => NamedHas(g, y, k, p);
    case Map(_, e) => assert Over(Cons(T(e), end), end, p);
    case Array(_, e) => assert Over(Cons(T(e), end), end, p);
    case Slice(e) => assert Over(Cons(T(e), end), end, p);
    case Pointer(e) => assert Over(Cons(T(e), end), end, p);
    case Chan(_, e) => assert Over(Cons(T(e), end), end, p);
    case Basic(_) =>
  }

  /** While p is in the making, a clean writer passes no type whose reader looks into p. The types that it
      has seen by the time p has its contents are closed under what they mention. */
  lemma {:induction false} NothingLooksIn(g: World, st: St, items: Items, p: Ref) returns (seen: set<Ref>)
    requires p in st.open && p in st.types && Emit(g, st, items).clean && Closes(items, p)
    ensures st.types.Keys <= seen && (forall y :: Has(items, T(y), p) ==> y in seen) && !Has(items, Need(p), p)
    ensures forall y :: y in seen && y !in st.types ==> y in g && Passed(g, y, p, seen)
    decreases g.Keys - st.types.Keys, items
  {
    match items
    case Cons(T(y), k) =>
      if y in st.types {
        seen := NothingLooksIn(g, st, k, p);
      } else {
        OpenedShrinks(g, st, y);
        BodyHas(g, y, k, p);
        seen := NothingLooksIn(g, st.Opened(y), Body(g, y, g[y], k), p);
      }
    case Cons(P(q), k) => seen := NothingLooksIn(g, if q in st.pkgs then st else st.WithPkg(q), k, p);
    case Cons(Close(r), k) =>
      if r == p {
        seen := st.types.Keys;
      } else {
        seen := NothingLooksIn(g, st.Closed(r), k, p);
      }
    case Cons(_, k) => seen := NothingLooksIn(g, st, k, p);
  }

  ghost predicate Passed(g: World, y: Ref, p: Ref, seen: set<Ref>)
    requires y in g
  {
    !LooksInto(g, g[y], p) && forall z :: Mentions(g[y], z) ==> z in seen
  }

  lemma {:induction false} WaySeen(g: World, st: St, p: Ref, seen: set<Ref>, way: seq<Ref>, i: nat)
    requires i < |way| && way[0] in seen && forall j :: 0 <= j < |way| ==> way[j] in g && way[j] !in st.types
    requires forall j {:trigger way[j]} :: 0 < j < |way| ==> Mentions(g[way[j - 1]], way[j])
    requires forall y :: y in seen && y !in st.types ==> y in g && Passed(g, y, p, seen)
    ensures way[i] in seen
  {
    if i > 0 {
      WaySeen(g, st, p, seen, way, i - 1);
      assert Mentions(g[way[i - 1]], way[i]);
    }
  }

  /** An embedded type that leads to the one embedding it must not be written first. */
  lemma HazardFirst(g: World, base: set<Ref>, st: St, p: Ref, x: Ref, k: Items)
    requires Hazard(g, base, st.held, p, x) && st.types.Keys == base
    ensures !Emit(g, st, Cons(T(p), k)).clean
  {
    var way :| LeadsBy(g, base, p, x, way);
    FirstHas(g, p, k, way[0]);
    if Emit(g, st.Opened(p), Body(g, p, g[p], k)).clean {
      HazardSeen(g, base, st.Opened(p), p, x, Body(g, p, g[p], k), way);
    }
  }

  lemma HazardSeen(g: World, base: set<Ref>, st: St, p: Ref, x: Ref, items: Items, way: seq<Ref>)
    requires LeadsBy(g, base, p, x, way) && x in g && LooksInto(g, g[x], p)
    requires st.types.Keys == base + {p} && p in st.open && Closes(items, p) && Has(items, T(way[0]), p)
    ensures !Emit(g, st, items).clean
  {
    if Emit(g, st, items).clean {
      var seen := NothingLooksIn(g, st, items, p);
      WayPassed(g, base, st, p, x, seen, way);
    }
  }

  lemma WayPassed(g: World, base: set<Ref>, st: St, p: Ref, x: Ref, seen: set<Ref>, way: seq<Ref>)
    requires LeadsBy(g, base, p, x, way) && x in g && st.types.Keys == base + {p} && way[0] in seen
    requires forall y :: y in seen && y !in st.types ==> y in g && Passed(g, y, p, seen)
    ensures !LooksInto(g, g[x], p)
  {
    WaySeen(g, st, p, seen, way, |way| - 1);
  }

  lemma FirstHas(g: World, p: Ref, k: Items, y: Ref)
    requires p in g && Opens(g[p], y)
    ensures Has(Body(g, p, g[p], k), T(y), p) && Closes(Body(g, p, g[p], k), p)
  {
    var end := Cons(Close(p), k);
    match g[p]
    case Struct(_) => StructHas(g, p, k, p);
    case Signature(_, _, _, _) => SignatureHas(g, p, k, p);
    case Interface(_, _) => InterfaceHas(g, p, k, p);
    case Named(_, _, _, _) => NamedHas(g, p, k, p);
    case Map(_, e) => assert Closes(Cons(T(e), end), p) && Has(Cons(T(e), end), T(e), p);
    case Array(_, e) => assert Closes(Cons(T(e), end), p) && Has(Cons(T(e), end), T(e), p);
    case Slice(e) => assert Closes(end, p);
    case Pointer(e) => assert Closes(end, p);
    case Chan(_, e) => assert Closes(Cons(T(e), end), p) && Has(Cons(T(e), end), T(e), p);
    case Basic(_) =>
  }
}
