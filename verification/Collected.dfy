/** The method sets of interfaces that are read. NewInterface takes the methods of an embedded type from what
    is known of its underlying interface by then, which is nothing while that interface is being read. */
module Collected {
  import opened Types
  import opened TypeGraph
  import opened Format
  import opened Mirror
  import opened Export
  import opened Cleanness
  import opened Codec

  // ---------------------------------------------------------------------------
  // Method sets of interfaces

  predicate IsInterface(g: World, x: Ref) {
    x in g && g[x].Interface?
  }

  /** Interface x declares m or embeds it, through at most n embedded types. */
  ghost predicate Within(g: World, x: Ref, m: Member, n: nat)
    decreases n
  {
    && IsInterface(g, x)
    && (m in g[x].methods || (n > 0 && exists e :: e in g[x].embeddeds && IsNamed(g, e) && Within(g, g[e].underlying, m, n - 1)))
  }

  ghost predicate HasMethod(g: World, x: Ref, m: Member) {
    exists n: nat :: Within(g, x, m, n)
  }

  ghost function MethodsOf(g: World, x: Ref): iset<Member> {
    iset m: Member | HasMethod(g, x, m)
  }

  lemma OwnOrEmbedded(g: World, x: Ref, m: Member)
    requires IsInterface(g, x)
    ensures HasMethod(g, x, m) <==>
            m in g[x].methods || exists e :: e in g[x].embeddeds && IsNamed(g, e) && HasMethod(g, g[e].underlying, m)
  {
    if HasMethod(g, x, m) && m !in g[x].methods {
      var n: nat :| Within(g, x, m, n);
      var e :| e in g[x].embeddeds && IsNamed(g, e) && Within(g, g[e].underlying, m, n - 1);
      assert HasMethod(g, g[e].underlying, m);
    }
    if m in g[x].methods { assert Within(g, x, m, 0); }
    forall e | e in g[x].embeddeds && IsNamed(g, e) && HasMethod(g, g[e].underlying, m) ensures HasMethod(g, x, m) {
      var n: nat :| Within(g, g[e].underlying, m, n);
      assert Within(g, x, m, n + 1);
    }
  }

  // ---------------------------------------------------------------------------
  // What an import collects

  type Collection = map<Ref, iset<Member>>

  /** What NewInterface finds below e: types that are known from before have their methods. */
  ghost function Below(g: World, known: set<Ref>, all: Collection, e: Ref): iset<Member> {
    if !IsNamed(g, e) then iset{}
    else if e in known || g[e].underlying in known then MethodsOf(g, g[e].underlying)
    else if g[e].underlying in all then all[g[e].underlying]
    else iset{}
  }

  ghost predicate Takes(g: World, known: set<Ref>, all: Collection, x: Ref, m: Member)
    requires IsInterface(g, x)
  {
    m in g[x].methods || exists e :: e in g[x].embeddeds && m in Below(g, known, all, e)
  }

  /** The collection when r has been read. */
  ghost function With(g: World, known: set<Ref>, all: Collection, r: Ref): Collection {
    if IsInterface(g, r) then all[r := iset m: Member | Takes(g, known, all, r, m)] else all
  }

  /** What is collected while the items are read, unless the reader panics. */
  ghost function Collect(g: World, known: set<Ref>, st: St, all: Collection, items: Items): Option<Collection>
    decreases g.Keys - st.types.Keys, items
  {
    match items
    case Nil => Some(all)
    case Cons(P(p), k) =>
      if p in st.pkgs then Collect(g, known, st, all, k)
      else if p.None? then None
      else Collect(g, known, st.WithPkg(p), all, k)
    case Cons(T(r), k) =>
      if r in st.types then Collect(g, known, st, all, k)
      else if r !in g then None
      else
        OpenedShrinks(g, st, r);
        Collect(g, known, st.Opened(r), all, Body(g, r, g[r], k))
    case Cons(Close(r), k) => Collect(g, known, st.Closed(r), With(g, known, all, r), k)
    case Cons(Need(r), k) => if r in st.open then None else Collect(g, known, st, all, k)
    case Cons(_, k) => Collect(g, known, st, all, k)
  }

  lemma {:induction false} CollectsIfClean(g: World, known: set<Ref>, st: St, all: Collection, items: Items)
    ensures Collect(g, known, st, all, items).Some? <==> Emit(g, st, items).clean
    decreases g.Keys - st.types.Keys, items
  {
    match items
    case Nil =>
    case Cons(P(p), k) => if p in st.pkgs || p.Some? { CollectsIfClean(g, known, if p in st.pkgs then st else st.WithPkg(p), all, k); }
    case Cons(T(r), k) =>
      if r in st.types {
        CollectsIfClean(g, known, st, all, k);
      } else if r in g {
        OpenedShrinks(g, st, r);
        CollectsIfClean(g, known, st.Opened(r), all, Body(g, r, g[r], k));
      }
    case Cons(Close(r), k) => CollectsIfClean(g, known, st.Closed(r), With(g, known, all, r), k);
    case Cons(_, k) => CollectsIfClean(g, known, st, all, k);
  }

  // ---------------------------------------------------------------------------
  // Types are read in a good order

  /** A named interface has no methods of its own. */
  ghost predicate Bare(g: World) {
    forall e {:trigger g[e]} :: IsNamed(g, e) && IsInterface(g, g[e].underlying) ==> g[e].funcs == []
  }

  /** Neither e nor its underlying type is in the making. */
  ghost predicate Settled(g: World, known: set<Ref>, open: set<Ref>, e: Ref) {
    IsNamed(g, e) && (e in known || g[e].underlying in known || (e !in open && g[e].underlying !in open))
  }

  /** When r has its contents, what it needs of other types is there. */
  ghost predicate CloseOk(g: World, known: set<Ref>, seen: set<Ref>, open: set<Ref>, r: Ref) {
    && (IsNamed(g, r) ==> g[r].underlying in seen)
    && (IsInterface(g, r) ==> TypeOk(g, g[r]) && forall e :: e in g[r].embeddeds ==> e in seen && Settled(g, known, open, e))
  }

  ghost predicate Ripe(g: World, known: set<Ref>, seen: set<Ref>, open: set<Ref>, items: Items)
    decreases items
  {
    match items
    case Nil => open == {}
    case Cons(T(x), k) => Ripe(g, known, seen + {x}, open, k)
    case Cons(Close(r), k) => CloseOk(g, known, seen, open, r) && Ripe(g, known, seen, open - {r}, k)
    case Cons(_, k) => Ripe(g, known, seen, open, k)
  }

  lemma {:induction false} RipeMore(g: World, known: set<Ref>, seen: set<Ref>, more: set<Ref>, open: set<Ref>, items: Items)
    requires Ripe(g, known, seen, open, items) && seen <= more
    ensures Ripe(g, known, more, open, items)
    decreases items
  {
    match items
    case Nil =>
    case Cons(T(x), k) => RipeMore(g, known, seen + {x}, more + {x}, open, k);
    case Cons(Close(r), k) => RipeMore(g, known, seen, more, open - {r}, k);
    case Cons(_, k) => RipeMore(g, known, seen, more, open, k);
  }

  lemma RipeType(g: World, known: set<Ref>, seen: set<Ref>, open: set<Ref>, x: Ref, k: Items)
    requires Ripe(g, known, seen, open, k)
    ensures Ripe(g, known, seen, open, Cons(T(x), k))
  {
    RipeMore(g, known, seen, seen + {x}, open, k);
  }

  lemma {:induction false} ParamsRipe(g: World, known: set<Ref>, seen: set<Ref>, open: set<Ref>, ps: seq<Param>, i: nat, k: Items)
    requires i <= |ps| && Ripe(g, known, seen, open, k)
    ensures Ripe(g, known, seen, open, ParamsThen(ps, i, k))
    decreases |ps| - i
  {
    if i < |ps| {
      ParamsRipe(g, known, seen, open, ps, i + 1, k);
      RipeType(g, known, seen, open, ps[i].typ, ParamsThen(ps, i + 1, k));
    }
  }

  lemma {:induction false} FieldsRipe(g: World, known: set<Ref>, seen: set<Ref>, open: set<Ref>, fs: seq<Var>, i: nat, k: Items)
    requires i <= |fs| && Ripe(g, known, seen, open, k)
    ensures Ripe(g, known, seen, open, FieldsThen(g, fs, i, k))
    decreases |fs| - i
  {
    if i < |fs| {
      FieldsRipe(g, known, seen, open, fs, i + 1, k);
      var rest := NeedBase(g, fs[i], Cons(S(fs[i].tag), FieldsThen(g, fs, i + 1, k)));
      assert Ripe(g, known, seen, open, rest);
      RipeType(g, known, seen, open, fs[i].typ, rest);
      assert Ripe(g, known, seen, open, Cons(P(fs[i].pkg), Cons(T(fs[i].typ), rest)));
    }
  }

  lemma {:induction false} MembersRipe(g: World, known: set<Ref>, seen: set<Ref>, open: set<Ref>, ms: seq<Member>, i: nat, k: Items)
    requires i <= |ms| && Ripe(g, known, seen, open, k)
    ensures Ripe(g, known, seen, open, MembersThen(ms, i, k))
    decreases |ms| - i
  {
    if i < |ms| {
      MembersRipe(g, known, seen, open, ms, i + 1, k);
      var rest := MembersThen(ms, i + 1, k);
      RipeType(g, known, seen, open, ms[i].typ, rest);
      assert Ripe(g, known, seen, open, Cons(P(ms[i].pkg), Cons(T(ms[i].typ), rest)));
    }
  }

  lemma {:induction false} NeedsRipe(g: World, known: set<Ref>, seen: set<Ref>, open: set<Ref>, es: seq<Ref>, i: nat, k: Items)
    requires i <= |es| && Ripe(g, known, seen, open, k)
    ensures Ripe(g, known, seen, open, NeedsThen(es, i, k))
    decreases |es| - i
  {
    if i < |es| { NeedsRipe(g, known, seen, open, es, i + 1, k); }
  }

  /** The embedded types have been seen when they are looked into. */
  lemma {:induction false} RefsRipe(g: World, known: set<Ref>, seen: set<Ref>, more: set<Ref>, open: set<Ref>, es: seq<Ref>, i: nat, k: Items)
    requires i <= |es| && Ripe(g, known, more, open, k) && forall e :: e in more ==> e in seen || exists j :: i <= j < |es| && e == es[j]
    ensures Ripe(g, known, seen, open, RefsThen(es, i, k))
    decreases |es| - i
  {
    if i == |es| {
      RipeMore(g, known, more, seen, open, k);
    } else {
      RefsRipe(g, known, seen + {es[i]}, more, open, es, i + 1, k);
    }
  }

  lemma InterfaceRipe(g: World, known: set<Ref>, seen: set<Ref>, open: set<Ref>, ms: seq<Member>, es: seq<Ref>, k: Items)
    requires Ripe(g, known, seen + (set e | e in es), open, k)
    ensures Ripe(g, known, seen, open, Cons(N(|ms|), MembersThen(ms, 0, Cons(N(|es|), RefsThen(es, 0, NeedsThen(es, 0, k))))))
  {
    var more := seen + (set e | e in es);
    NeedsRipe(g, known, more, open, es, 0, k);
    RefsRipe(g, known, seen, more, open, es, 0, NeedsThen(es, 0, k));
    MembersRipe(g, known, seen, open, ms, 0, Cons(N(|es|), RefsThen(es, 0, NeedsThen(es, 0, k))));
  }

  lemma SignatureRipe(g: World, known: set<Ref>, seen: set<Ref>, open: set<Ref>, t: Type, k: Items)
    requires t.Signature? && Ripe(g, known, seen, open, k)
    ensures Ripe(g, known, seen, open, SignatureThen(t, k))
  {
    var last := BoolThen(t.variadic, k);
    ParamsRipe(g, known, seen, open, t.results, 0, last);
    var results := TupleThen(t.results, last);
    ParamsRipe(g, known, seen, open, t.params, 0, results);
    var params := TupleThen(t.params, results);
    assert Ripe(g, known, seen, open, params);
    if t.recv.Some? {
      RipeType(g, known, seen, open, t.recv.value.typ, params);
      assert Ripe(g, known, seen, open, ParamThen(t.recv.value, params));
    }
  }

  lemma NamedRipe(g: World, known: set<Ref>, seen: set<Ref>, open: set<Ref>, x: Ref, k: Items)
    requires IsNamed(g, x) && Ripe(g, known, seen, open - {x}, k)
    ensures Ripe(g, known, seen, open, Body(g, x, g[x], k))
  {
    var (u, ms) := (g[x].underlying, g[x].funcs);
    ParamsRipe(g, known, seen, open - {x}, ms, 0, k);
    var funcs := Cons(N(|ms|), ParamsThen(ms, 0, k));
    RipeMore(g, known, seen, seen + {u}, open - {x}, funcs);
    assert Ripe(g, known, seen + {u}, open, Cons(Close(x), funcs));
    assert Ripe(g, known, seen, open, Cons(T(u), Cons(Close(x), funcs)));
  }

  lemma BodyRipe(g: World, known: set<Ref>, seen: set<Ref>, open: set<Ref>, x: Ref, k: Items)
    requires x in g && TypeOk(g, g[x]) && Ripe(g, known, seen, open - {x}, k)
    requires g[x].Interface? ==> forall e :: e in g[x].embeddeds ==> Settled(g, known, open, e)
    ensures Ripe(g, known, seen, open, Body(g, x, g[x], k))
  {
    var end := Cons(Close(x), k);
    match g[x]
    case Named(_, _, _, _) => NamedRipe(g, known, seen, open, x, k);
    case Interface(ms, es) =>
      RipeMore(g, known, seen, seen + (set e | e in es), open - {x}, k);
      assert Ripe(g, known, seen + (set e | e in es), open, end);
      InterfaceRipe(g, known, seen, open, ms, es, end);
    case Struct(fs) => FieldsRipe(g, known, seen, open, fs, 0, end);
    case Signature(_, _, _, _) => SignatureRipe(g, known, seen, open, g[x], end);
    case Map(key, e) =>
      RipeType(g, known, seen, open, e, end);
      RipeType(g, known, seen, open, key, Cons(T(e), end));
    case Array(n, e) => RipeType(g, known, seen, open, e, end);
    case Slice(e) => RipeType(g, known, seen, open, e, end);
    case Pointer(e) => RipeType(g, known, seen, open, e, end);
    case Chan(_, e) => RipeType(g, known, seen, open, e, end);
    case Basic(_) =>
  }

  // ---------------------------------------------------------------------------
  // Harmless types are collected completely

  /** A way that keeps away from a bare named type as well, if that type has its underlying type from p. */
  lemma AwayFromBoth(g: World, base: set<Ref>, p: Ref, way: seq<Ref>, e: Ref)
    requires Way(g, base, p, way) && IsNamed(g, e) && g[e].underlying == p && g[e].funcs == [] && way != [] && way[|way| - 1] != e
    ensures forall i :: 0 <= i < |way| ==> way[i] != e
  {
    forall i | 0 <= i < |way| ensures way[i] != e {
      assert i + 1 < |way| ==> Mentions(g[way[i + 1 - 1]], way[i + 1]) && way[i + 1] != p;
    }
  }

  lemma LeadsThere(g: World, base: set<Ref>, x: Ref, e: Ref)
    requires IsNamed(g, e) && g[e].funcs == [] && Leads(g, base, g[e].underlying, x) && x != e && g[e].underlying !in base + {e}
    ensures Leads(g, base, e, x)
  {
    var u := g[e].underlying;
    var way :| LeadsBy(g, base, u, x, way);
    AwayFromBoth(g, base, u, way, e);
    var longer := [u] + way;
    assert forall i {:trigger longer[i]} :: 0 < i < |longer| ==> longer[i] == way[i - 1];
    assert LeadsBy(g, base, e, x, longer);
  }

  /** What an interface embeds has been read, if no embedded type leads to the interface. */
  lemma EmbeddedSettled(g: World, base: set<Ref>, held: set<Ref>, open: set<Ref>, x: Ref, e: Ref)
    requires Harmless(g, base, held) && Bare(g) && IsInterface(g, x) && x !in base && TypeOk(g, g[x]) && e in g[x].embeddeds
    requires open !! base && open !! held && forall r :: r in open ==> Leads(g, base, r, x)
    ensures Settled(g, base + held, open + {x}, e)
  {
    var u := g[e].underlying;
    LooksIntoDone(g, base, held, open, x, e);
    if e !in base + held && u !in base + held && u in open + {x} {
      if u == x { LeadsFirst(g, base, e, x); } else { LeadsThere(g, base, x, e); }
      assert Hazard(g, base, held, e, x);
    }
  }

  /** Interfaces that have been read have their methods. */
  ghost predicate Complete(g: World, base: set<Ref>, st: St, all: Collection) {
    && (forall x {:trigger IsInterface(g, x)} :: x in st.types && x !in base && x !in st.open && IsInterface(g, x) ==> x in all && all[x] == MethodsOf(g, x))
    && (forall e {:trigger IsNamed(g, e)} :: e in st.types && e !in base && e !in st.held && e !in st.open && IsNamed(g, e) ==> g[e].underlying in st.types)
  }

  lemma BelowIsComplete(g: World, base: set<Ref>, st: St, all: Collection, e: Ref)
    requires Complete(g, base, st, all) && e in st.types && Settled(g, base + st.held, st.open, e)
    requires IsInterface(g, g[e].underlying)
    ensures Below(g, base + st.held, all, e) == MethodsOf(g, g[e].underlying)
  {}

  lemma CollectedHere(g: World, base: set<Ref>, st: St, all: Collection, r: Ref)
    requires Complete(g, base, st, all) && IsInterface(g, r)
    requires CloseOk(g, base + st.held, st.types.Keys, st.open, r)
    ensures With(g, base + st.held, all, r) == all[r := MethodsOf(g, r)]
  {
    var known := base + st.held;
    forall e | e in g[r].embeddeds ensures Below(g, known, all, e) == MethodsOf(g, g[e].underlying) {
      BelowIsComplete(g, base, st, all, e);
    }
    forall m: Member ensures Takes(g, known, all, r, m) <==> HasMethod(g, r, m) {
      OwnOrEmbedded(g, r, m);
    }
    assert (iset m: Member | Takes(g, known, all, r, m)) == MethodsOf(g, r);
  }

  lemma CloseComplete(g: World, base: set<Ref>, st: St, all: Collection, r: Ref)
    requires Complete(g, base, st, all)
    requires CloseOk(g, base + st.held, st.types.Keys, st.open, r)
    ensures Complete(g, base, st.Closed(r), With(g, base + st.held, all, r))
  {
    var all' := With(g, base + st.held, all, r);
    if IsInterface(g, r) { CollectedHere(g, base, st, all, r); }
    forall x {:trigger IsInterface(g, x)} | x in st.types && x !in base && x !in st.open - {r} && IsInterface(g, x)
      ensures x in all' && all'[x] == MethodsOf(g, x)
    {
      assert x != r ==> x !in st.open;
    }
    forall e {:trigger IsNamed(g, e)} | e in st.types && e !in base && e !in st.held && e !in st.open - {r} && IsNamed(g, e)
      ensures g[e].underlying in st.types
    {
      assert e != r ==> e !in st.open;
    }
  }

  lemma OpenedComplete(g: World, base: set<Ref>, st: St, all: Collection, x: Ref)
    requires Complete(g, base, st, all) && x !in st.types && forall r :: r in st.held ==> IsNamed(g, r)
    ensures Complete(g, base, st.Opened(x), all)
  {}

  lemma WithPkgComplete(g: World, base: set<Ref>, st: St, all: Collection, p: Option<Pkg>)
    requires Complete(g, base, st, all)
    ensures Complete(g, base, st.WithPkg(p), all)
  {}

  lemma ContentsRipe(g: World, base: set<Ref>, st: St, x: Ref, k: Items)
    requires Going(g, base, st) && Harmless(g, base, st.held) && Bare(g) && x in g && x !in st.types
    requires Ripe(g, base + st.held, st.types.Keys + {x}, st.open, k) && forall r :: r in st.open ==> Leads(g, base, r, x)
    ensures Ripe(g, base + st.held, st.Opened(x).types.Keys, st.Opened(x).open, Body(g, x, g[x], k))
  {
    var open := st.Opened(x).open;
    assert open - {x} == st.open && st.Opened(x).types.Keys == st.types.Keys + {x};
    if g[x].Interface? {
      forall e | e in g[x].embeddeds ensures Settled(g, base + st.held, open, e) {
        EmbeddedSettled(g, base, st.held, st.open, x, e);
      }
    }
    BodyRipe(g, base + st.held, st.types.Keys + {x}, open, x, k);
  }

  /** The reader does not panic, and finds all methods of the interfaces in the items. */
  ghost predicate FindsAll(g: World, base: set<Ref>, st: St, all: Collection, items: Items) {
    var c := Collect(g, base + st.held, st, all, items);
    c.Some? && HasAll(g, base, Emit(g, st, items).st.types.Keys, c.value)
  }

  ghost predicate HasAll(g: World, base: set<Ref>, written: set<Ref>, all: Collection) {
    forall x {:trigger IsInterface(g, x)} :: x in written && x !in base && IsInterface(g, x) ==> x in all && all[x] == MethodsOf(g, x)
  }

  lemma {:induction false} CollectsAll(g: World, base: set<Ref>, st: St, all: Collection, items: Items)
    requires Going(g, base, st) && Harmless(g, base, st.held) && Bare(g) && Safe(g, base, items, st.open)
    requires Ripe(g, base + st.held, st.types.Keys, st.open, items) && Complete(g, base, st, all)
    ensures FindsAll(g, base, st, all, items)
    decreases g.Keys - st.types.Keys, items
  {
    match items
    case Nil => assert st.open == {};
    case Cons(T(x), k) =>
      if x in st.types {
        assert st.types.Keys + {x} == st.types.Keys;
        CollectsAll(g, base, st, all, k);
      } else {
        CollectsContents(g, base, st, all, x, k);
      }
    case Cons(P(p), k) =>
      WithPkgComplete(g, base, st, all, p);
      CollectsAll(g, base, if p in st.pkgs then st else st.WithPkg(p), all, k);
    case Cons(Close(r), k) =>
      CloseComplete(g, base, st, all, r);
      CollectsAll(g, base, st.Closed(r), With(g, base + st.held, all, r), k);
    case Cons(_, k) => CollectsAll(g, base, st, all, k);
  }

  lemma {:induction false} CollectsContents(g: World, base: set<Ref>, st: St, all: Collection, x: Ref, k: Items)
    requires Going(g, base, st) && Harmless(g, base, st.held) && Bare(g) && Safe(g, base, Cons(T(x), k), st.open)
    requires Ripe(g, base + st.held, st.types.Keys + {x}, st.open, k) && Complete(g, base, st, all) && x !in st.types
    ensures FindsAll(g, base, st, all, Cons(T(x), k))
    decreases g.Keys - st.types.Keys, k
  {
    OpenedShrinks(g, st, x);
    if x in st.held { HeldSafe(g, base, st.open, x, k); } else { BodySafe(g, base, st.held, st.open, x, k); }
    ContentsRipe(g, base, st, x, k);
    OpenedComplete(g, base, st, all, x);
    CollectsAll(g, base, st.Opened(x), all, Body(g, x, g[x], k));
  }

  lemma {:induction false} ObjsRipe(g: World, known: set<Ref>, seen: set<Ref>, os: seq<Object>, i: nat)
    requires i <= |os|
    ensures Ripe(g, known, seen, {}, ObjsThen(os, i, Nil))
    decreases |os| - i
  {
    if i < |os| {
      ObjsRipe(g, known, seen, os, i + 1);
      var o, k := os[i], ObjsThen(os, i + 1, Nil);
      if o.Const? { assert Ripe(g, known, seen, {}, Cons(V(o.val), k)); }
      var rest := if o.Const? then Cons(V(o.val), k) else k;
      RipeType(g, known, seen, {}, o.typ, rest);
      if !o.TypeName? { assert Ripe(g, known, seen, {}, Cons(S(o.name), Cons(T(o.typ), rest))); }
    }
  }

  /** What is collected while a package is imported, unless the import panics. */
  ghost function Imported(c: Source, predeclared: seq<Ref>, os: seq<Object>): Option<Collection> {
    Collect(c.g, Numbered0(c) + c.held.Keys, Start(c, predeclared), map[], PackageItems(c.cur, os))
  }

  /** The import succeeds, and every interface that is written gets all its methods. */
  ghost predicate MethodsFound(c: Source, predeclared: seq<Ref>, os: seq<Object>) {
    FindsAll(c.g, Numbered0(c), Start(c, predeclared), map[], PackageItems(c.cur, os))
  }

  lemma HarmlessIsFound(c: Source, predeclared: seq<Ref>, universe: map<string, Ref>, m: Mem, os: seq<Object>)
    requires Setup(c, predeclared, universe, m) && Harmless(c.g, Numbered0(c), c.held.Keys) && Bare(c.g) && AllOk(c.g, os)
    ensures MethodsFound(c, predeclared, os)
  {
    InitialKeys(c, predeclared, universe, m);
    var base, st, objs := Numbered0(c), Start(c, predeclared), ObjsThen(os, 0, Nil);
    ObjsSafe(c.g, base, os, 0);
    ObjsRipe(c.g, base + st.held, st.types.Keys, os, 0);
    assert Safe(c.g, base, Cons(P(c.cur), Cons(N(|os|), objs)), {});
    assert Ripe(c.g, base + st.held, st.types.Keys, {}, Cons(P(c.cur), Cons(N(|os|), objs)));
    CollectsAll(c.g, base, st, map[], PackageItems(c.cur, os));
  }

  /** The types of a package can be imported again with the methods of all interfaces, whatever objects it
      exports in whatever order, if and only if they are harmless. */
  lemma FoundInEveryOrder(c: Source, predeclared: seq<Ref>, universe: map<string, Ref>, m: Mem)
    requires Setup(c, predeclared, universe, m) && Bare(c.g)
    ensures Harmless(c.g, Numbered0(c), c.held.Keys) <==>
            forall os {:trigger MethodsFound(c, predeclared, os)} :: AllOk(c.g, os) ==> MethodsFound(c, predeclared, os)
  {
    if Harmless(c.g, Numbered0(c), c.held.Keys) {
      forall os | AllOk(c.g, os) ensures MethodsFound(c, predeclared, os) { HarmlessIsFound(c, predeclared, universe, m, os); }
    } else {
      CleanInEveryOrder(c, predeclared, universe, m);
      var os :| AllOk(c.g, os) && !Clean(c, predeclared, os);
      ImportedIfClean(c, predeclared, os);
      assert !MethodsFound(c, predeclared, os);
    }
  }

  // ---------------------------------------------------------------------------
  // An order in which methods get lost

  /** `type A interface { M() interface { B } }` and `type B A`: 1 is A, 2 the underlying type of both, 3 the
      signature of M, 4 the interface that M returns, and 5 is B. */
  function Renamed(p: Pkg): World {
    map[1 := Type.Named("A", Some(p), 2, []), 2 := Type.Interface([Member(Some(p), "M", 3)], []),
        3 := Type.Signature(Some(Param("", 1)), [], [Param("", 4)], false), 4 := Type.Interface([], [5]),
        5 := Type.Named("B", Some(p), 2, [])]
  }

  lemma BCollected(p: Pkg, known: set<Ref>, st: St, all: Collection, k: Items)
    requires Some(p) in st.pkgs && 2 in st.types && 5 !in st.types && st.held == {}
    ensures Collect(Renamed(p), known, st, all, Cons(T(5), k)) == Collect(Renamed(p), known, st.Opened(5).Closed(5), all, k)
  {
    var g, st1, done := Renamed(p), st.Opened(5), st.Opened(5).Closed(5);
    var l3 := Cons(Close(5), Cons(N(0), k));
    var l2 := Cons(T(2), l3);
    var l1 := Cons(P(Some(p)), l2);
    assert ParamsThen([], 0, k) == k && Body(g, 5, g[5], k) == Cons(S("B"), l1);
    assert With(g, known, all, 5) == all;
    assert Collect(g, known, done, all, Cons(N(0), k)) == Collect(g, known, done, all, k);
    assert Collect(g, known, st1, all, l3) == Collect(g, known, done, all, Cons(N(0), k));
    assert Collect(g, known, st1, all, l2) == Collect(g, known, st1, all, l3);
    assert Collect(g, known, st1, all, l1) == Collect(g, known, st1, all, l2);
    assert Collect(g, known, st1, all, Cons(S("B"), l1)) == Collect(g, known, st1, all, l1);
  }

  /** The interface that M returns, while the underlying type of B is in the making. */
  lemma InnerCollected(p: Pkg, known: set<Ref>, st: St, all: Collection, k: Items)
    requires Some(p) in st.pkgs && 2 in st.types && 4 !in st.types && 5 !in st.types && st.held == {}
    requires known !! {2, 5} && 2 !in all
    ensures Collect(Renamed(p), known, st, all, Cons(T(4), k)) ==
            Collect(Renamed(p), known, st.Opened(4).Opened(5).Closed(5).Closed(4), all[4 := iset{}], k)
  {
    var g, st1, end := Renamed(p), st.Opened(4), Cons(Close(4), k);
    var read := st1.Opened(5).Closed(5);
    var l3 := Cons(Need(5), end);
    var l2 := Cons(T(5), l3);
    var l1 := Cons(N(1), l2);
    assert NeedsThen([5], 1, end) == end && NeedsThen([5], 0, end) == l3;
    assert RefsThen([5], 1, l3) == l3 && RefsThen([5], 0, l3) == l2 && MembersThen([], 0, l1) == l1;
    assert Body(g, 4, g[4], k) == Cons(N(0), l1);
    NothingBelow(p, known, all);
    assert Collect(g, known, read, all, end) == Collect(g, known, read.Closed(4), all[4 := iset{}], k);
    assert Collect(g, known, read, all, l3) == Collect(g, known, read, all, end);
    BCollected(p, known, st1, all, l3);
    assert Collect(g, known, st1, all, l1) == Collect(g, known, st1, all, l2);
    assert Collect(g, known, st1, all, Cons(N(0), l1)) == Collect(g, known, st1, all, l1);
  }

  lemma NothingBelow(p: Pkg, known: set<Ref>, all: Collection)
    requires known !! {2, 5} && 2 !in all
    ensures With(Renamed(p), known, all, 4) == all[4 := iset{}]
  {
    var g := Renamed(p);
    assert IsInterface(g, 4);
    forall m: Member ensures !Takes(g, known, all, 4, m) {
      assert Below(g, known, all, 5) == iset{};
    }
    assert (iset m: Member | Takes(g, known, all, 4, m)) == iset{};
  }

  lemma SignatureCollected(p: Pkg, known: set<Ref>, st: St, all: Collection, k: Items)
    requires Some(p) in st.pkgs && st.types.Keys >= {1, 2} && st.types.Keys !! {3, 4, 5} && st.held == {}
    requires known !! {2, 5} && 2 !in all
    ensures Collect(Renamed(p), known, st, all, Cons(T(3), k)) ==
            Collect(Renamed(p), known, st.Opened(3).Opened(4).Opened(5).Closed(5).Closed(4).Closed(3), all[4 := iset{}], k)
  {
    var g, st1, end, r, all1 := Renamed(p), st.Opened(3), Cons(Close(3), k), Param("", 4), all[4 := iset{}];
    var read := st1.Opened(4).Opened(5).Closed(5).Closed(4);
    var l5 := Cons(N(0), end);
    var l4 := Cons(T(4), l5);
    var l3 := Cons(S(""), l4);
    var l2 := Cons(N(1), l3);
    var l1 := Cons(N(0), l2);
    assert ParamsThen([r], 1, l5) == l5 && ParamsThen([r], 0, l5) == ParamThen(r, l5) == l3 && ParamsThen([], 0, l2) == l2;
    assert TupleThen([r], l5) == l2 && TupleThen([], l2) == l1;
    assert With(g, known, all1, 3) == all1;
    assert Collect(g, known, read, all1, end) == Collect(g, known, read.Closed(3), all1, k);
    assert Collect(g, known, read, all1, l5) == Collect(g, known, read, all1, end);
    InnerCollected(p, known, st1, all, l5);
    assert Collect(g, known, st1, all, l3) == Collect(g, known, st1, all, l4);
    assert Collect(g, known, st1, all, l2) == Collect(g, known, st1, all, l3);
    assert Collect(g, known, st1, all, l1) == Collect(g, known, st1, all, l2);
    ReceiverCollected(p, known, st1, all, l1);
    assert Body(g, 3, g[3], k) == Cons(N(1), ParamThen(Param("", 1), l1));
  }

  lemma ReceiverCollected(p: Pkg, known: set<Ref>, st: St, all: Collection, k: Items)
    requires 1 in st.types
    ensures Collect(Renamed(p), known, st, all, Cons(N(1), ParamThen(Param("", 1), k))) == Collect(Renamed(p), known, st, all, k)
  {
    var g := Renamed(p);
    var l1 := Cons(T(1), k);
    var l2 := Cons(S(""), l1);
    assert Collect(g, known, st, all, l1) == Collect(g, known, st, all, k);
    assert Collect(g, known, st, all, l2) == Collect(g, known, st, all, l1);
    assert Collect(g, known, st, all, Cons(N(1), l2)) == Collect(g, known, st, all, l2);
  }

  /** The collection when A has been read. */
  ghost function AfterA(p: Pkg, known: set<Ref>): Collection {
    With(Renamed(p), known, map[4 := iset{}], 2)
  }

  lemma OuterCollected(p: Pkg, known: set<Ref>, st: St, k: Items) returns (done: St)
    requires Some(p) in st.pkgs && 1 in st.types && st.types.Keys !! {2, 3, 4, 5} && st.held == {} && known !! {2, 5}
    ensures 5 in done.types && Collect(Renamed(p), known, st, map[], Cons(T(2), k)) == Collect(Renamed(p), known, done, AfterA(p, known), k)
  {
    var g, st1, m, end, all := Renamed(p), st.Opened(2), Member(Some(p), "M", 3), Cons(Close(2), k), map[4 := iset{}];
    var st2 := st1.Opened(3).Opened(4).Opened(5).Closed(5).Closed(4).Closed(3);
    done := st2.Closed(2);
    var none: Collection := map[];
    var l3 := Cons(N(0), end);
    var l2 := Cons(T(3), l3);
    var l1 := Cons(S("M"), l2);
    assert RefsThen([], 0, NeedsThen([], 0, end)) == end;
    assert MembersThen([m], 1, l3) == l3 && Exported("M");
    assert MembersThen([m], 0, l3) == MemberThen(m, l3) == l1;
    assert Body(g, 2, g[2], k) == Cons(N(1), l1);
    assert none[4 := iset{}] == all;
    assert Collect(g, known, st2, all, end) == Collect(g, known, done, AfterA(p, known), k);
    assert Collect(g, known, st2, all, l3) == Collect(g, known, st2, all, end);
    SignatureCollected(p, known, st1, none, l3);
    assert Collect(g, known, st1, none, l1) == Collect(g, known, st1, none, l2);
    assert Collect(g, known, st1, none, Cons(N(1), l1)) == Collect(g, known, st1, none, l1);
  }

  lemma ACollected(p: Pkg, known: set<Ref>, st: St, k: Items) returns (done: St)
    requires Some(p) in st.pkgs && st.types.Keys !! {1, 2, 3, 4, 5} && st.held == {} && known !! {2, 5}
    ensures 5 in done.types && Collect(Renamed(p), known, st, map[], Cons(T(1), k)) == Collect(Renamed(p), known, done, AfterA(p, known), k)
  {
    var g, st1 := Renamed(p), st.Opened(1);
    var none: Collection, all := map[], AfterA(p, known);
    var l3 := Cons(Close(1), Cons(N(0), k));
    var l2 := Cons(T(2), l3);
    var l1 := Cons(P(Some(p)), l2);
    ABody(p, k);
    var read := OuterCollected(p, known, st1, l3);
    done := read.Closed(1);
    ACloses(p, known, read, all, k);
    assert Collect(g, known, st1, none, l1) == Collect(g, known, st1, none, l2);
    assert Collect(g, known, st1, none, Cons(S("A"), l1)) == Collect(g, known, st1, none, l1);
  }

  lemma ABody(p: Pkg, k: Items)
    ensures Body(Renamed(p), 1, Renamed(p)[1], k) == Cons(S("A"), Cons(P(Some(p)), Cons(T(2), Cons(Close(1), Cons(N(0), k)))))
  {
    assert ParamsThen([], 0, k) == k;
  }

  lemma ACloses(p: Pkg, known: set<Ref>, st: St, all: Collection, k: Items)
    ensures Collect(Renamed(p), known, st, all, Cons(Close(1), Cons(N(0), k))) == Collect(Renamed(p), known, st.Closed(1), all, k)
  {
    assert With(Renamed(p), known, all, 1) == all;
    assert Collect(Renamed(p), known, st.Closed(1), all, Cons(N(0), k)) == Collect(Renamed(p), known, st.Closed(1), all, k);
  }

  /** The package with A before B is imported without a panic, but `interface { B }` has lost its method: the
      underlying type of B is being read when NewInterface asks for its methods. */
  lemma MethodsLost(p: Pkg)
    ensures var c, os := Alone(Renamed(p), p), [TypeName(1), TypeName(5)];
            && Setup(c, [], map[], Nothing()) && Bare(c.g) && AllOk(c.g, os) && Clean(c, [], os)
            && Imported(c, [], os).Some? && 4 in Imported(c, [], os).value && Imported(c, [], os).value[4] == iset{}
            && HasMethod(c.g, 4, Member(Some(p), "M", 3))
  {
    var c, os := Alone(Renamed(p), p), [TypeName(1), TypeName(5)];
    RenamedOk(p);
    RenamedCollected(p);
    ImportedIfClean(c, [], os);
    RenamedHas(p);
  }

  lemma ImportedIfClean(c: Source, predeclared: seq<Ref>, os: seq<Object>)
    ensures Imported(c, predeclared, os).Some? <==> Clean(c, predeclared, os)
  {
    CollectsIfClean(c.g, Numbered0(c) + c.held.Keys, Start(c, predeclared), map[], PackageItems(c.cur, os));
  }

  lemma RenamedHas(p: Pkg)
    ensures HasMethod(Renamed(p), 4, Member(Some(p), "M", 3))
  {
    var g, m := Renamed(p), Member(Some(p), "M", 3);
    assert Within(g, 2, m, 0);
    assert 5 in g[4].embeddeds && IsNamed(g, 5) && Within(g, g[5].underlying, m, 0);
    assert Within(g, 4, m, 1);
  }

  lemma RenamedCollected(p: Pkg)
    ensures var c := Alone(Renamed(p), p);
            Imported(c, [], [TypeName(1), TypeName(5)]) == Some(AfterA(p, {NIL}))
  {
    var c, os, all := Alone(Renamed(p), p), [TypeName(1), TypeName(5)], AfterA(p, {NIL});
    var known, none: Collection := Numbered0(c) + c.held.Keys, map[];
    assert known == {NIL};
    var st0 := Start(c, []);
    var st, rest := st0.WithPkg(Some(p)), ObjsThen(os, 1, Nil);
    var l2 := Cons(T(1), rest);
    var l1 := ObjsThen(os, 0, Nil);
    assert ObjsThen(os, 2, Nil) == Nil && rest == Cons(N(TYPE_TAG), Cons(T(5), Nil)) && l1 == Cons(N(TYPE_TAG), l2);
    var done := ACollected(p, known, st, rest);
    assert Collect(c.g, known, done, all, Cons(T(5), Nil)) == Some(all);
    assert Collect(c.g, known, st, none, l1) == Collect(c.g, known, st, none, l2);
    HeaderCollected(c.g, known, st0, p, l1);
  }

  lemma HeaderCollected(g: World, known: set<Ref>, st: St, p: Pkg, k: Items)
    requires Some(p) !in st.pkgs
    ensures Collect(g, known, st, map[], Cons(S(VERSION), Cons(P(Some(p)), Cons(N(2), k)))) == Collect(g, known, st.WithPkg(Some(p)), map[], k)
  {
    var st1, none: Collection, l := st.WithPkg(Some(p)), map[], Cons(N(2), k);
    assert Collect(g, known, st1, none, l) == Collect(g, known, st1, none, k);
    assert Collect(g, known, st, none, Cons(P(Some(p)), l)) == Collect(g, known, st1, none, l);
  }

  lemma RenamedOk(p: Pkg)
    ensures Setup(Alone(Renamed(p), p), [], map[], Nothing()) && Bare(Renamed(p))
    ensures AllOk(Renamed(p), [TypeName(1), TypeName(5)])
  {
    var g := Renamed(p);
    forall r | r in g ensures !g[r].Basic? && NodeOk(g, p, r) { RenamedNode(p, r); }
    RenamedNames(p);
    AloneSetup(g, p);
  }

  lemma RenamedNames(p: Pkg)
    ensures NIL !in Renamed(p) && forall q, r :: IsNamed(Renamed(p), q) && IsNamed(Renamed(p), r) && Renamed(p)[q].name == Renamed(p)[r].name ==> q == r
    ensures Bare(Renamed(p)) && AllOk(Renamed(p), [TypeName(1), TypeName(5)])
  {}

  lemma RenamedNode(p: Pkg, r: Ref)
    requires r in Renamed(p)
    ensures !Renamed(p)[r].Basic? && NodeOk(Renamed(p), p, r)
  {
    var g := Renamed(p);
    if r == 1 || r == 5 {
      assert g[r].underlying == 2;
    } else if r == 2 {
      assert g[2].methods[0].typ == 3;
    } else if r == 3 {
      assert g[3].results[0].typ == 4;
    } else {
      assert g[4].embeddeds[0] == 5;
    }
  }
}
