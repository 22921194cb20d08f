/** Method sets (go/types/methodset.go): a second breadth-first search, which collects all methods
    of a type at once, and how far it agrees with lookup. */
module MethodSets {
  import opened Types
  import opened Sealing
  import opened Selectors
  import opened BreadthFirst
  import opened Lookup

  /** A `Selection`. */
  datatype Sel = Sel(entity: Entity, index: Path, indirect: bool)

  /** The two tables filled at each depth, `fieldSet` and `methodSet`: None marks a collision. */
  type Table = map<string, Option<Sel>>

  function IdOf(e: Entity): string {
    match e
    case Var(f) => Id(f.pkg, f.name)
    case Func(m) => Id(m.pkg, m.name)
  }

  datatype Kind = Fields | Methods

  /** The fields, or the methods, that type t declares itself. */
  function Declared(kind: Kind, g: Graph, t: Ref): seq<Entity>
    requires WellFormed(g) && t in g
  {
    match kind
    case Fields => var fs := FieldsOf(g, t); seq(|fs|, i requires 0 <= i < |fs| => Var(fs[i]))
    case Methods => var ms := MethodsOf(g, t); seq(|ms|, i requires 0 <= i < |ms| => Func(ms[i]))
  }

  function MethodsOf(g: Graph, t: Ref): seq<Method>
    requires WellFormed(g) && t in g
  {
    if Under(g, t).Interface? then Under(g, t).allMethods
    else if g[t].Named? then g[t].methods
    else []
  }

  /** Methods of interfaces are in a method set regardless of pointers followed. */
  function Indirect(g: Graph, T: Ref, e: Entry): bool
    requires WellFormed(g) && T in g && TypeOf(g, T, e) in g
  {
    Under(g, TypeOf(g, T, e)).Interface? || e.indirect
  }

  /** One call of `add`: the entity is entered unless it is spoiled or its identifier is taken. */
  datatype Event = Event(key: string, spoiled: bool, sel: Sel)

  function AddOne(s: Table, e: Event): Table {
    s[e.key := if !e.spoiled && e.key !in s then Some(e.sel) else None]
  }

  function Collect(es: seq<Event>): Table {
    if es == [] then map[] else AddOne(Collect(es[..|es| - 1]), es[|es| - 1])
  }

  ghost predicate HasKey(es: seq<Event>, key: string) {
    exists k :: 0 <= k < |es| && es[k].key == key
  }

  /** The event k is the only one of its key. */
  ghost predicate Single(es: seq<Event>, k: nat) {
    k < |es| && forall l :: 0 <= l < |es| && l != k ==> es[l].key != es[k].key
  }

  /** The event k enters sel under key. */
  ghost predicate Enters(es: seq<Event>, key: string, k: nat, sel: Sel) {
    Single(es, k) && es[k].key == key && !es[k].spoiled && es[k].sel == sel
  }

  /** An identifier is entered in the table exactly when it occurs, and as no collision exactly
      when it occurs once and unspoiled. */
  lemma {:induction false} CollectSpec(es: seq<Event>, key: string)
    ensures key in Collect(es) <==> HasKey(es, key)
    ensures key in Collect(es) && Collect(es)[key].Some? ==> exists k :: Enters(es, key, k, Collect(es)[key].value)
    ensures forall k, sel :: Enters(es, key, k, sel) ==> key in Collect(es) && Collect(es)[key] == Some(sel)
  {
    if es != [] {
      var init, e := es[..|es| - 1], es[|es| - 1];
      assert es == init + [e];
      CollectSpec(init, key);
      if e.key == key {
        CollectHit(init, e);
        assert !HasKey(init, key) && !e.spoiled ==> Enters(es, key, |init|, e.sel);
      } else {
        CollectMiss(init, e, key);
      }
    }
  }

  lemma CollectHit(init: seq<Event>, e: Event)
    ensures HasKey(init + [e], e.key)
    ensures HasKey(init, e.key) || e.spoiled ==> forall k, sel :: !Enters(init + [e], e.key, k, sel)
    ensures !HasKey(init, e.key) && !e.spoiled ==>
              forall k, sel :: Enters(init + [e], e.key, k, sel) <==> k == |init| && sel == e.sel
  {
    var es := init + [e];
    assert es[|init|].key == e.key;
    assert forall k :: 0 <= k < |init| ==> es[k] == init[k];
    if HasKey(init, e.key) {
      var j :| 0 <= j < |init| && init[j].key == e.key;
      assert es[j].key == e.key;
      forall k: nat, sel ensures !Enters(es, e.key, k, sel) {
        assert k == j ==> es[|init|].key == e.key;
      }
    }
    forall k: nat, sel ensures Enters(es, e.key, k, sel) ==> k == |init| && sel == e.sel {}
  }

  lemma CollectMiss(init: seq<Event>, e: Event, key: string)
    requires e.key != key
    ensures HasKey(init + [e], key) <==> HasKey(init, key)
    ensures forall k, sel :: Enters(init + [e], key, k, sel) <==> Enters(init, key, k, sel)
  {
    var es := init + [e];
    assert forall k :: 0 <= k < |init| ==> es[k] == init[k];
    if HasKey(init, key) {
      var j :| 0 <= j < |init| && init[j].key == key;
      assert es[j].key == key;
    }
    if HasKey(es, key) {
      var j :| 0 <= j < |es| && es[j].key == key;
      assert init[j].key == key;
    }
  }

  function EntryEvents(kind: Kind, g: Graph, T: Ref, e: Entry): seq<Event>
    requires WellFormed(g) && T in g && TypeOf(g, T, e) in g
  {
    var ds := Declared(kind, g, TypeOf(g, T, e));
    seq(|ds|, i requires 0 <= i < |ds| => EventOf(kind, g, T, e, ds[i], i))
  }

  function EventOf(kind: Kind, g: Graph, T: Ref, e: Entry, x: Entity, i: nat): Event
    requires WellFormed(g) && T in g && TypeOf(g, T, e) in g
  {
    match kind
    case Fields => Event(IdOf(x), e.multiples, Sel(x, Via(e.index, i), e.indirect))
    case Methods =>
      var indirect := Indirect(g, T, e);
      Event(IdOf(x), e.multiples || !(indirect || !PtrRecv(x)), Sel(x, Via(e.index, i), indirect))
  }

  predicate PtrRecv(x: Entity) {
    x.Func? && x.fn.ptrRecv
  }

  /** All calls of `add` at one depth, in order: for the entries whose type has not been seen. */
  function DepthEvents(kind: Kind, g: Graph, T: Ref, seen: set<Ref>, es: seq<Entry>): seq<Event>
    requires WellFormed(g) && T in g
    requires forall k :: 0 <= k < |es| ==> TypeOf(g, T, es[k]) in g
  {
    if es == [] then [] else
    var e := es[|es| - 1];
    DepthEvents(kind, g, T, seen, es[..|es| - 1]) +
    if TypeOf(g, T, e) in seen then [] else EntryEvents(kind, g, T, e)
  }

  // ---------------------------------------------------------------------------
  // The declarative meaning

  /** index is an embedding path to a type that no shorter path reaches, followed by the index of
      a field (or method) of that type with the given identifier. */
  ghost predicate Cand(kind: Kind, g: Graph, T: Ref, key: string, index: Path)
    requires WellFormed(g) && T in g
  {
    && index.Via? && Walk(g, T, index.before).Some?
    && var t := Walk(g, T, index.before).value.typ;
    && !Reached(g, T, index.before.Len(), t)
    && index.i < |Declared(kind, g, t)| && IdOf(Declared(kind, g, t)[index.i]) == key
  }

  ghost function CandSel(kind: Kind, g: Graph, T: Ref, key: string, index: Path): Sel
    requires WellFormed(g) && T in g && Cand(kind, g, T, key, index)
  {
    var pos := Walk(g, T, index.before).value;
    Sel(Declared(kind, g, pos.typ)[index.i], index, (kind.Methods? && Under(g, pos.typ).Interface?) || pos.indirect)
  }

  /** index is the only candidate of its length. */
  ghost predicate OnlyCand(kind: Kind, g: Graph, T: Ref, key: string, index: Path)
    requires WellFormed(g) && T in g
  {
    && Cand(kind, g, T, key, index)
    && forall other: Path :: other.Len() == index.Len() && Cand(kind, g, T, key, other) ==> other == index
  }

  ghost predicate SomeCand(kind: Kind, g: Graph, T: Ref, key: string, n: nat)
    requires WellFormed(g) && T in g
  {
    exists index: Path :: index.Len() == n && Cand(kind, g, T, key, index)
  }

  ghost predicate OneCand(kind: Kind, g: Graph, T: Ref, key: string, n: nat)
    requires WellFormed(g) && T in g
  {
    exists index: Path :: index.Len() == n && OnlyCand(kind, g, T, key, index)
  }

  /** A method of this name, or several fields, hide everything deeper. A single field does not. */
  ghost predicate Hides(g: Graph, T: Ref, key: string, n: nat)
    requires WellFormed(g) && T in g
  {
    SomeCand(Methods, g, T, key, n) || (SomeCand(Fields, g, T, key, n) && !OneCand(Fields, g, T, key, n))
  }

  /** sel is a method of T under its identifier: the only method at its depth, no field there,
      nothing above that hides it, and callable with the receiver at hand. */
  ghost predicate InMethodSet(g: Graph, T: Ref, key: string, sel: Sel)
    requires WellFormed(g) && T in g
  {
    && !(Deref(g, T).1 && PointsToInterface(g, T))
    && OnlyCand(Methods, g, T, key, sel.index) && sel == CandSel(Methods, g, T, key, sel.index)
    && (sel.indirect || !PtrRecv(sel.entity))
    && !SomeCand(Fields, g, T, key, sel.index.Len())
    && forall n: nat :: n < sel.index.Len() ==> !Hides(g, T, key, n)
  }

  predicate PointsToInterface(g: Graph, T: Ref)
    requires WellFormed(g) && T in g
  {
    DerefIn(g, T);
    Under(g, Deref(g, T).0).Interface?
  }

  // ---------------------------------------------------------------------------
  // The events of one depth are its candidates

  ghost predicate EventAt(kind: Kind, g: Graph, T: Ref, seen: set<Ref>, es: seq<Entry>, m: nat, i: nat, ev: Event)
    requires WellFormed(g) && T in g
    requires forall k :: 0 <= k < |es| ==> TypeOf(g, T, es[k]) in g
  {
    && m < |es| && TypeOf(g, T, es[m]) !in seen
    && i < |Declared(kind, g, TypeOf(g, T, es[m]))|
    && ev == EventOf(kind, g, T, es[m], Declared(kind, g, TypeOf(g, T, es[m]))[i], i)
  }

  lemma {:induction false} EventsSound(kind: Kind, g: Graph, T: Ref, seen: set<Ref>, es: seq<Entry>, k: nat)
      returns (m: nat, i: nat)
    requires WellFormed(g) && T in g
    requires forall k :: 0 <= k < |es| ==> TypeOf(g, T, es[k]) in g
    requires k < |DepthEvents(kind, g, T, seen, es)|
    ensures EventAt(kind, g, T, seen, es, m, i, DepthEvents(kind, g, T, seen, es)[k])
  {
    var before := es[..|es| - 1];
    var init := DepthEvents(kind, g, T, seen, before);
    if k < |init| {
      m, i := EventsSound(kind, g, T, seen, before, k);
    } else {
      m, i := |es| - 1, k - |init|;
    }
  }

  lemma {:induction false} EventsComplete(kind: Kind, g: Graph, T: Ref, seen: set<Ref>, es: seq<Entry>, m: nat, i: nat, ev: Event)
      returns (k: nat)
    requires WellFormed(g) && T in g
    requires forall k :: 0 <= k < |es| ==> TypeOf(g, T, es[k]) in g
    requires EventAt(kind, g, T, seen, es, m, i, ev)
    ensures k < |DepthEvents(kind, g, T, seen, es)| && DepthEvents(kind, g, T, seen, es)[k] == ev
  {
    var before := es[..|es| - 1];
    var init := DepthEvents(kind, g, T, seen, before);
    if m < |es| - 1 {
      k := EventsComplete(kind, g, T, seen, before, m, i, ev);
    } else {
      k := |init| + i;
    }
  }

  lemma {:induction false} EventsDistinct(kind: Kind, g: Graph, T: Ref, seen: set<Ref>, es: seq<Entry>, k: nat, l: nat)
    requires WellFormed(g) && T in g
    requires forall k :: 0 <= k < |es| ==> TypeOf(g, T, es[k]) in g
    requires DistinctIndexes(es) && k < l < |DepthEvents(kind, g, T, seen, es)|
    ensures DepthEvents(kind, g, T, seen, es)[k].sel.index != DepthEvents(kind, g, T, seen, es)[l].sel.index
  {
    var before, e := es[..|es| - 1], es[|es| - 1];
    var init := DepthEvents(kind, g, T, seen, before);
    if l < |init| {
      EventsDistinct(kind, g, T, seen, before, k, l);
    } else {
      EntryEventIndex(kind, g, T, e, l - |init|);
      if k < |init| {
        var m, i := EventsSound(kind, g, T, seen, before, k);
        assert es[m].index != e.index;
      } else {
        EntryEventIndex(kind, g, T, e, k - |init|);
      }
    }
  }

  lemma EntryEventIndex(kind: Kind, g: Graph, T: Ref, e: Entry, i: nat)
    requires WellFormed(g) && T in g && TypeOf(g, T, e) in g && i < |EntryEvents(kind, g, T, e)|
    ensures EntryEvents(kind, g, T, e)[i].sel.index == Via(e.index, i)
  {}

  /** The event of an entry is a candidate. */
  lemma EventIsCand(kind: Kind, g: Graph, T: Ref, d: nat, seen: set<Ref>, current: seq<Entry>, m: nat, i: nat, ev: Event)
    requires WellFormed(g) && T in g && Frontier(g, T, d, seen, current)
    requires forall k :: 0 <= k < |current| ==> TypeOf(g, T, current[k]) in g
    requires EventAt(kind, g, T, seen, current, m, i, ev)
    ensures ev.sel.index == Via(current[m].index, i) && ev.sel.index.Len() == d + 1
    ensures Cand(kind, g, T, ev.key, ev.sel.index) && ev.sel == CandSel(kind, g, T, ev.key, ev.sel.index)
  {
    var e, t := current[m], TypeOf(g, T, current[m]);
    assert EntryOk(g, T, d, e) && SeenOk(g, T, d, seen, t);
    UnnamedNotReached(g, T, d, t);
  }

  lemma UnnamedNotReached(g: Graph, T: Ref, d: nat, t: Ref)
    requires WellFormed(g) && T in g && t in g
    requires exists p: Path :: p.Len() == d && LeadsTo(g, T, p, t)
    ensures !g[t].Named? ==> !Reached(g, T, d, t)
  {
    var p: Path :| p.Len() == d && LeadsTo(g, T, p, t);
    if !g[t].Named? {
      assert p == Root;
    }
  }

  /** A candidate comes from an entry, and from its very path unless the entry is marked. */
  lemma CandIsEvent(kind: Kind, g: Graph, T: Ref, d: nat, seen: set<Ref>, current: seq<Entry>, key: string, index: Path)
      returns (m: nat, ev: Event)
    requires WellFormed(g) && T in g && Frontier(g, T, d, seen, current)
    requires forall k :: 0 <= k < |current| ==> TypeOf(g, T, current[k]) in g
    requires index.Len() == d + 1 && Cand(kind, g, T, key, index)
    ensures EventAt(kind, g, T, seen, current, m, index.i, ev) && ev.key == key
    ensures LeadsTo(g, T, index.before, TypeOf(g, T, current[m]))
    ensures !current[m].multiples ==> current[m].index == index.before
  {
    var p, i := index.before, index.i;
    var t := Walk(g, T, p).value.typ;
    assert LeadsTo(g, T, p, t) && SeenOk(g, T, d, seen, t);
    m :| 0 <= m < |current| && TypeOf(g, T, current[m]) == t;
    var e := current[m];
    ev := EventOf(kind, g, T, e, Declared(kind, g, t)[i], i);
    assert EntryOk(g, T, d, e) && MarkOk(g, T, seen, e);
    if !e.multiples { SamePath(g, T, e.index, p, t); }
  }

  lemma DepthHasKey(kind: Kind, g: Graph, T: Ref, d: nat, seen: set<Ref>, current: seq<Entry>, key: string)
    requires WellFormed(g) && T in g && Frontier(g, T, d, seen, current)
    requires forall k :: 0 <= k < |current| ==> TypeOf(g, T, current[k]) in g
    ensures HasKey(DepthEvents(kind, g, T, seen, current), key) <==> SomeCand(kind, g, T, key, d + 1)
  {
    var evs := DepthEvents(kind, g, T, seen, current);
    if HasKey(evs, key) {
      var k :| 0 <= k < |evs| && evs[k].key == key;
      var m, i := EventsSound(kind, g, T, seen, current, k);
      EventIsCand(kind, g, T, d, seen, current, m, i, evs[k]);
    }
    if SomeCand(kind, g, T, key, d + 1) {
      var index: Path :| index.Len() == d + 1 && Cand(kind, g, T, key, index);
      var m, ev := CandIsEvent(kind, g, T, d, seen, current, key, index);
      var k := EventsComplete(kind, g, T, seen, current, m, index.i, ev);
    }
  }

  predicate Callable(kind: Kind, sel: Sel) {
    kind.Methods? ==> sel.indirect || !PtrRecv(sel.entity)
  }

  lemma EntersOnly(kind: Kind, g: Graph, T: Ref, d: nat, seen: set<Ref>, current: seq<Entry>, key: string, k: nat, sel: Sel)
    requires WellFormed(g) && T in g && Frontier(g, T, d, seen, current)
    requires forall k :: 0 <= k < |current| ==> TypeOf(g, T, current[k]) in g
    requires Enters(DepthEvents(kind, g, T, seen, current), key, k, sel)
    ensures sel.index.Len() == d + 1 && OnlyCand(kind, g, T, key, sel.index)
    ensures sel == CandSel(kind, g, T, key, sel.index) && Callable(kind, sel)
  {
    var evs := DepthEvents(kind, g, T, seen, current);
    var m, i := EventsSound(kind, g, T, seen, current, k);
    EventIsCand(kind, g, T, d, seen, current, m, i, evs[k]);
    forall other: Path | other.Len() == sel.index.Len() && Cand(kind, g, T, key, other) ensures other == sel.index {
      var n, ev := CandIsEvent(kind, g, T, d, seen, current, key, other);
      var l := EventsComplete(kind, g, T, seen, current, n, other.i, ev);
      assert l == k;
    }
  }

  lemma OnlyEnters(kind: Kind, g: Graph, T: Ref, d: nat, seen: set<Ref>, current: seq<Entry>, key: string, index: Path)
      returns (k: nat)
    requires WellFormed(g) && T in g && Frontier(g, T, d, seen, current)
    requires forall k :: 0 <= k < |current| ==> TypeOf(g, T, current[k]) in g
    requires index.Len() == d + 1 && OnlyCand(kind, g, T, key, index)
    requires Callable(kind, CandSel(kind, g, T, key, index))
    ensures Enters(DepthEvents(kind, g, T, seen, current), key, k, CandSel(kind, g, T, key, index))
  {
    var evs := DepthEvents(kind, g, T, seen, current);
    var m, ev := CandIsEvent(kind, g, T, d, seen, current, key, index);
    var e, t := current[m], TypeOf(g, T, current[m]);
    EventIsCand(kind, g, T, d, seen, current, m, index.i, ev);
    assert EntryOk(g, T, d, e) && MarkOk(g, T, seen, e);
    assert Via(e.index, index.i) == index;
    NotRepeated(kind, g, T, key, index, t);
    k := EventsComplete(kind, g, T, seen, current, m, index.i, ev);
    FrontierTypes(g, T, d, seen, current);
    forall l | 0 <= l < |evs| && l != k ensures evs[l].key != key {
      var n, j := EventsSound(kind, g, T, seen, current, l);
      EventIsCand(kind, g, T, d, seen, current, n, j, evs[l]);
      if l < k { EventsDistinct(kind, g, T, seen, current, l, k); } else { EventsDistinct(kind, g, T, seen, current, k, l); }
    }
  }

  lemma NotRepeated(kind: Kind, g: Graph, T: Ref, key: string, index: Path, t: Ref)
    requires WellFormed(g) && T in g && OnlyCand(kind, g, T, key, index) && LeadsTo(g, T, index.before, t)
    ensures !Repeated(g, T, index.before, t)
  {
    forall q: Path | q != index.before && q.Len() == index.before.Len() ensures !LeadsTo(g, T, q, t) {
      assert Via(q, index.i).Len() == index.Len() && !Cand(kind, g, T, key, Via(q, index.i));
    }
  }

  /** What the two tables say at the end of a depth. */
  lemma TableSpec(kind: Kind, g: Graph, T: Ref, d: nat, seen: set<Ref>, current: seq<Entry>, key: string)
    requires WellFormed(g) && T in g && Frontier(g, T, d, seen, current)
    requires forall k :: 0 <= k < |current| ==> TypeOf(g, T, current[k]) in g
    ensures var table := Collect(DepthEvents(kind, g, T, seen, current));
            && (key in table <==> SomeCand(kind, g, T, key, d + 1))
            && forall sel :: (key in table && table[key] == Some(sel) <==>
                 sel.index.Len() == d + 1 && OnlyCand(kind, g, T, key, sel.index) &&
                 sel == CandSel(kind, g, T, key, sel.index) && Callable(kind, sel))
  {
    var evs := DepthEvents(kind, g, T, seen, current);
    var table := Collect(evs);
    CollectSpec(evs, key);
    DepthHasKey(kind, g, T, d, seen, current, key);
    forall sel
      ensures key in table && table[key] == Some(sel) <==>
              sel.index.Len() == d + 1 && OnlyCand(kind, g, T, key, sel.index) &&
              sel == CandSel(kind, g, T, key, sel.index) && Callable(kind, sel)
    {
      if key in table && table[key] == Some(sel) {
        var k :| Enters(evs, key, k, sel);
        EntersOnly(kind, g, T, d, seen, current, key, k, sel);
      }
      if sel.index.Len() == d + 1 && OnlyCand(kind, g, T, key, sel.index) &&
         sel == CandSel(kind, g, T, key, sel.index) && Callable(kind, sel)
      {
        var k := OnlyEnters(kind, g, T, d, seen, current, key, sel.index);
      }
    }
  }

  // ---------------------------------------------------------------------------
  // The search

  /** A named interface type has no methods of its own besides those of the interface. */
  ghost predicate InterfacesPlain(g: Graph)
    requires WellFormed(g)
  {
    forall t {:trigger g[t].methods} :: t in g && g[t].Named? && Under(g, t).Interface? ==> g[t].methods == []
  }

  function MethodEvents(list: seq<Method>, index: Path, indirect: bool, multiples: bool): seq<Event> {
    seq(|list|, i requires 0 <= i < |list| =>
      Event(Id(list[i].pkg, list[i].name), multiples || !(indirect || !list[i].ptrRecv), Sel(Func(list[i]), Via(index, i), indirect)))
  }

  function FieldEvents(fs: seq<Field>, e: Entry): seq<Event> {
    seq(|fs|, i requires 0 <= i < |fs| =>
      Event(Id(fs[i].pkg, fs[i].name), e.multiples, Sel(Var(fs[i]), Via(e.index, i), e.indirect)))
  }

  lemma EntryEventsAre(g: Graph, T: Ref, e: Entry)
    requires WellFormed(g) && T in g && TypeOf(g, T, e) in g
    ensures EntryEvents(Fields, g, T, e) == FieldEvents(FieldsOf(g, TypeOf(g, T, e)), e)
    ensures EntryEvents(Methods, g, T, e) ==
            MethodEvents(MethodsOf(g, TypeOf(g, T, e)), e.index, Indirect(g, T, e), e.multiples)
  {}

  lemma CollectMore(evs: seq<Event>, all: seq<Event>, i: nat)
    requires i < |all|
    ensures Collect(evs + all[..i + 1]) == AddOne(Collect(evs + all[..i]), all[i])
  {
    assert (evs + all[..i + 1])[..|evs| + i] == evs + all[..i];
  }

  /** `methodSet.add`. */
  method AddMethods(s: Table, list: seq<Method>, index: Path, indirect: bool, multiples: bool, ghost evs: seq<Event>)
      returns (r: Table)
    requires s == Collect(evs)
    ensures r == Collect(evs + MethodEvents(list, index, indirect, multiples))
  {
    ghost var all := MethodEvents(list, index, indirect, multiples);
    r := s;
    var i := 0;
    assert evs + all[..0] == evs;
    while i < |list|
      invariant 0 <= i <= |list| && r == Collect(evs + all[..i])
    {
      var key := Id(list[i].pkg, list[i].name);
      CollectMore(evs, all, i);
      if !multiples && key !in r && (indirect || !list[i].ptrRecv) {
        r := r[key := Some(Sel(Func(list[i]), Via(index, i), indirect))];
      } else {
        r := r[key := None];
      }
      i := i + 1;
    }
    assert all[..i] == all;
  }

  /** The loop over the fields of a struct, with `fieldSet.add`. */
  method AddFields(g: Graph, T: Ref, e: Entry, s: Table, ghost evs: seq<Event>, next: seq<Entry>) returns (r: Table, next': seq<Entry>)
    requires WellFormed(g) && T in g && TypeOf(g, T, e) in g
    requires s == Collect(evs)
    ensures r == Collect(evs + FieldEvents(FieldsOf(g, TypeOf(g, T, e)), e))
    ensures next' == next + Children(g, T, e, FieldsOf(g, TypeOf(g, T, e)), 0)
  {
    var fs := FieldsOf(g, TypeOf(g, T, e));
    ghost var (all, children) := (FieldEvents(fs, e), next + Children(g, T, e, fs, 0));
    r, next' := s, next;
    var i := 0;
    assert evs + all[..0] == evs;
    while i < |fs|
      invariant 0 <= i <= |fs| && r == Collect(evs + all[..i])
      invariant next' + Children(g, T, e, fs, i) == children
    {
      var key := Id(fs[i].pkg, fs[i].name);
      CollectMore(evs, all, i);
      if !e.multiples && key !in r {
        r := r[key := Some(Sel(Var(fs[i]), Via(e.index, i), e.indirect))];
      } else {
        r := r[key := None];
      }
      ChildrenFrom(g, T, e, i, next', children);
      next' := next' + ChildOf(g, e, fs, i);
      i := i + 1;
    }
    assert all[..i] == all;
  }

  /** What one entry adds to the two tables and to the next depth. */
  method CollectEntry(g: Graph, T: Ref, e: Entry, fset: Table, mset: Table, ghost fevs: seq<Event>, ghost mevs: seq<Event>,
                      next: seq<Entry>)
      returns (fset': Table, mset': Table, next': seq<Entry>)
    requires WellFormed(g) && T in g && InterfacesPlain(g) && TypeOf(g, T, e) in g
    requires e.typ.Some? <==> g[TypeOf(g, T, e)].Named?
    requires fset == Collect(fevs) && mset == Collect(mevs)
    ensures fset' == Collect(fevs + EntryEvents(Fields, g, T, e))
    ensures mset' == Collect(mevs + EntryEvents(Methods, g, T, e))
    ensures next' == next + Children(g, T, e, FieldsOf(g, TypeOf(g, T, e)), 0)
  {
    var t := TypeOf(g, T, e);
    EntryEventsAre(g, T, e);
    fset', mset', next' := fset, mset, next;
    assert fevs + [] == fevs && mevs + [] == mevs && next + [] == next;
    var typ := t;
    if e.typ.Some? {
      mset' := AddMethods(mset', g[t].methods, e.index, e.indirect, e.multiples, mevs);
      typ := g[t].underlying;
    }
    match g[typ]
    case Struct(_) =>
      fset', next' := AddFields(g, T, e, fset', fevs, next');
    case Interface(ms) =>
      mset' := AddMethods(mset', ms, e.index, true, e.multiples, mevs);
    case _ =>
  }

  /** What one depth has collected when it has looked at the first j entries. */
  ghost predicate Collected(g: Graph, T: Ref, seen: set<Ref>, current: seq<Entry>, j: nat,
                            fset: Table, mset: Table, seen': set<Ref>, next: seq<Entry>)
    requires WellFormed(g) && T in g && j <= |current|
    requires forall k :: 0 <= k < |current| ==> TypeOf(g, T, current[k]) in g
  {
    && fset == Collect(DepthEvents(Fields, g, T, seen, current[..j]))
    && mset == Collect(DepthEvents(Methods, g, T, seen, current[..j]))
    && seen' == SeenAfter(seen, current[..j]) && next == AllChildren(g, T, seen, current[..j])
  }

  method CollectAt(g: Graph, T: Ref, ghost d: nat, ghost seen: set<Ref>, current: seq<Entry>, j: nat,
                   fset: Table, mset: Table, seen': set<Ref>, next: seq<Entry>)
      returns (fset1: Table, mset1: Table, seen1: set<Ref>, next1: seq<Entry>)
    requires WellFormed(g) && T in g && InterfacesPlain(g) && Frontier(g, T, d, seen, current)
    requires forall k :: 0 <= k < |current| ==> TypeOf(g, T, current[k]) in g
    requires j < |current| && Collected(g, T, seen, current, j, fset, mset, seen', next)
    ensures Collected(g, T, seen, current, j + 1, fset1, mset1, seen1, next1)
  {
    var e := current[j];
    assert EntryOk(g, T, d, e);
    SeenBefore(g, T, d, seen, current, j);
    if e.typ.Some? && e.typ.value in seen' {
      SkipEntry(g, T, seen, current, j);
      fset1, mset1, seen1, next1 := fset, mset, seen', next;
    } else {
      seen1 := if e.typ.Some? then seen' + {e.typ.value} else seen';
      ghost var fevs, mevs := DepthEvents(Fields, g, T, seen, current[..j]), DepthEvents(Methods, g, T, seen, current[..j]);
      fset1, mset1, next1 := CollectEntry(g, T, e, fset, mset, fevs, mevs, next);
      CollectedNext(g, T, seen, current, j, fset1, mset1, seen1, next1);
    }
  }

  lemma CollectedNext(g: Graph, T: Ref, seen: set<Ref>, current: seq<Entry>, j: nat,
                      fset: Table, mset: Table, seen': set<Ref>, next: seq<Entry>)
    requires WellFormed(g) && T in g && j < |current|
    requires forall k :: 0 <= k < |current| ==> TypeOf(g, T, current[k]) in g
    requires TypeOf(g, T, current[j]) !in seen
    requires fset == Collect(DepthEvents(Fields, g, T, seen, current[..j]) + EntryEvents(Fields, g, T, current[j]))
    requires mset == Collect(DepthEvents(Methods, g, T, seen, current[..j]) + EntryEvents(Methods, g, T, current[j]))
    requires seen' == SeenAfter(seen, current[..j + 1])
    requires next == AllChildren(g, T, seen, current[..j]) + Children(g, T, current[j], FieldsOf(g, TypeOf(g, T, current[j])), 0)
    ensures Collected(g, T, seen, current, j + 1, fset, mset, seen', next)
  {
    TakeEntry(g, T, seen, current, j);
  }

  lemma SkipEntry(g: Graph, T: Ref, seen: set<Ref>, current: seq<Entry>, j: nat)
    requires WellFormed(g) && T in g && j < |current|
    requires forall k :: 0 <= k < |current| ==> TypeOf(g, T, current[k]) in g
    requires TypeOf(g, T, current[j]) in seen
    ensures DepthEvents(Fields, g, T, seen, current[..j + 1]) == DepthEvents(Fields, g, T, seen, current[..j])
    ensures DepthEvents(Methods, g, T, seen, current[..j + 1]) == DepthEvents(Methods, g, T, seen, current[..j])
    ensures AllChildren(g, T, seen, current[..j + 1]) == AllChildren(g, T, seen, current[..j])
  {
    assert current[..j + 1][..j] == current[..j];
  }

  lemma TakeEntry(g: Graph, T: Ref, seen: set<Ref>, current: seq<Entry>, j: nat)
    requires WellFormed(g) && T in g && j < |current|
    requires forall k :: 0 <= k < |current| ==> TypeOf(g, T, current[k]) in g
    requires TypeOf(g, T, current[j]) !in seen
    ensures DepthEvents(Fields, g, T, seen, current[..j + 1]) ==
            DepthEvents(Fields, g, T, seen, current[..j]) + EntryEvents(Fields, g, T, current[j])
    ensures DepthEvents(Methods, g, T, seen, current[..j + 1]) ==
            DepthEvents(Methods, g, T, seen, current[..j]) + EntryEvents(Methods, g, T, current[j])
    ensures AllChildren(g, T, seen, current[..j + 1]) ==
            AllChildren(g, T, seen, current[..j]) + Children(g, T, current[j], FieldsOf(g, TypeOf(g, T, current[j])), 0)
  {
    assert current[..j + 1][..j] == current[..j];
  }

  /** One depth of the search. */
  method CollectDepth(g: Graph, T: Ref, ghost d: nat, seen: set<Ref>, current: seq<Entry>)
      returns (fset: Table, mset: Table, seen': set<Ref>, next: seq<Entry>)
    requires WellFormed(g) && T in g && InterfacesPlain(g) && Frontier(g, T, d, seen, current)
    requires forall k :: 0 <= k < |current| ==> TypeOf(g, T, current[k]) in g
    ensures Collected(g, T, seen, current, |current|, fset, mset, seen', next)
  {
    fset, mset, seen', next := map[], map[], seen, [];
    var j := 0;
    while j < |current|
      invariant 0 <= j <= |current| && Collected(g, T, seen, current, j, fset, mset, seen', next)
    {
      fset, mset, seen', next := CollectAt(g, T, d, seen, current, j, fset, mset, seen', next);
      j := j + 1;
    }
  }

  /** The collected methods after the tables of one depth are merged into those of the depths
      above: what is found above stays, a field collides with a method of its depth, and several
      fields collide with each other. */
  function Merge(base: Table, mset: Table, fset: Table): Table {
    map key | key in base.Keys + mset.Keys + fset.Keys && (key in base || key in mset || fset[key].None?) ::
      if key in base then base[key]
      else if key in mset && key !in fset then mset[key]
      else None
  }

  method MergeInto(base: Table, mset: Table, fset: Table) returns (r: Table)
    ensures r == Merge(base, mset, fset)
  {
    r := base;
    var todo := mset.Keys;
    while todo != {}
      invariant todo <= mset.Keys
      invariant forall key :: key in r <==> key in base || (key in mset && key !in todo)
      invariant forall key :: key in r ==> r[key] == if key in base then base[key] else if key !in fset then mset[key] else None
    {
      var key :| key in todo;
      if key !in r {
        r := r[key := if key in fset then None else mset[key]];
      }
      todo := todo - {key};
    }
    todo := fset.Keys;
    while todo != {}
      invariant todo <= fset.Keys
      invariant forall key :: key in r <==> key in base || key in mset || (key in fset && key !in todo && fset[key].None?)
      invariant forall key :: key in r ==>
                  r[key] == if key in base then base[key] else if key in mset && key !in fset then mset[key] else None
    {
      var key :| key in todo;
      if fset[key].None? && key !in r {
        r := r[key := None];
      }
      todo := todo - {key};
    }
  }

  /** The collected methods are those of the method set at the depths looked at. */
  ghost predicate BaseOk(g: Graph, T: Ref, base: Table, d: nat, key: string)
    requires WellFormed(g) && T in g
  {
    && (key in base <==> exists n: nat :: n <= d && Hides(g, T, key, n))
    && forall sel :: (key in base && base[key] == Some(sel) <==> InMethodSet(g, T, key, sel) && sel.index.Len() <= d)
  }

  ghost predicate AllBaseOk(g: Graph, T: Ref, base: Table, d: nat)
    requires WellFormed(g) && T in g
  {
    forall key {:trigger BaseOk(g, T, base, d, key)} :: BaseOk(g, T, base, d, key)
  }

  lemma FieldVerdict(g: Graph, T: Ref, d: nat, seen: set<Ref>, current: seq<Entry>, key: string)
    requires WellFormed(g) && T in g && Frontier(g, T, d, seen, current)
    requires forall k :: 0 <= k < |current| ==> TypeOf(g, T, current[k]) in g
    ensures var fset := Collect(DepthEvents(Fields, g, T, seen, current));
            && (key in fset <==> SomeCand(Fields, g, T, key, d + 1))
            && (key in fset ==> (fset[key].Some? <==> OneCand(Fields, g, T, key, d + 1)))
  {
    var fset := Collect(DepthEvents(Fields, g, T, seen, current));
    TableSpec(Fields, g, T, d, seen, current, key);
    if key in fset && fset[key].Some? {
      assert OnlyCand(Fields, g, T, key, fset[key].value.index);
    }
    if OneCand(Fields, g, T, key, d + 1) {
      var index: Path :| index.Len() == d + 1 && OnlyCand(Fields, g, T, key, index);
      assert CandSel(Fields, g, T, key, index).index == index;
      assert fset[key] == Some(CandSel(Fields, g, T, key, index));
    }
  }

  /** The method sets of one more depth. */
  lemma NewAtDepth(g: Graph, T: Ref, d: nat, key: string, sel: Sel, mset: Table)
    requires WellFormed(g) && T in g && !(Deref(g, T).1 && PointsToInterface(g, T))
    requires key in mset && mset[key] == Some(sel) <==>
             sel.index.Len() == d + 1 && OnlyCand(Methods, g, T, key, sel.index) &&
             sel == CandSel(Methods, g, T, key, sel.index) && Callable(Methods, sel)
    ensures InMethodSet(g, T, key, sel) && sel.index.Len() == d + 1 <==>
            key in mset && mset[key] == Some(sel) && !SomeCand(Fields, g, T, key, d + 1) &&
            forall n: nat :: n <= d ==> !Hides(g, T, key, n)
  {}

  lemma BaseStep(g: Graph, T: Ref, base: Table, d: nat, seen: set<Ref>, current: seq<Entry>, key: string)
    requires WellFormed(g) && T in g && Frontier(g, T, d, seen, current)
    requires forall k :: 0 <= k < |current| ==> TypeOf(g, T, current[k]) in g
    requires !(Deref(g, T).1 && PointsToInterface(g, T)) && BaseOk(g, T, base, d, key)
    ensures BaseOk(g, T, Merge(base, Collect(DepthEvents(Methods, g, T, seen, current)),
                               Collect(DepthEvents(Fields, g, T, seen, current))), d + 1, key)
  {
    var mset, fset := Collect(DepthEvents(Methods, g, T, seen, current)), Collect(DepthEvents(Fields, g, T, seen, current));
    TableSpec(Methods, g, T, d, seen, current, key);
    FieldVerdict(g, T, d, seen, current, key);
    assert (exists n: nat :: n <= d + 1 && Hides(g, T, key, n)) <==>
           (exists n: nat :: n <= d && Hides(g, T, key, n)) || Hides(g, T, key, d + 1);
    forall sel { NewAtDepth(g, T, d, key, sel, mset); }
  }

  lemma BaseNext(g: Graph, T: Ref, base: Table, d: nat, seen: set<Ref>, current: seq<Entry>)
    requires WellFormed(g) && T in g && Frontier(g, T, d, seen, current)
    requires forall k :: 0 <= k < |current| ==> TypeOf(g, T, current[k]) in g
    requires !(Deref(g, T).1 && PointsToInterface(g, T)) && AllBaseOk(g, T, base, d)
    ensures AllBaseOk(g, T, BaseAfter(g, T, base, seen, current), d + 1)
  {
    var base', d' := BaseAfter(g, T, base, seen, current), d + 1;
    forall key ensures BaseOk(g, T, base', d', key) {
      assert BaseOk(g, T, base, d, key);
      BaseStep(g, T, base, d, seen, current, key);
    }
  }

  // ---------------------------------------------------------------------------
  // The whole search

  /** Nothing is recorded before the first depth. */
  lemma BaseStart(g: Graph, T: Ref)
    requires WellFormed(g) && T in g
    ensures AllBaseOk(g, T, map[], 0)
  {
    var none: Table := map[];
    forall key ensures BaseOk(g, T, none, 0, key) {
      assert forall index: Path :: index.Len() == 0 ==> index == Root;
      assert !Hides(g, T, key, 0);
      forall sel | InMethodSet(g, T, key, sel) ensures sel.index.Len() > 0 {
        assert sel.index.Via?;
      }
    }
  }

  /** When the frontier is empty there are no candidates at greater depths. */
  lemma BaseEnd(g: Graph, T: Ref, d: nat, seen: set<Ref>, kind: Kind, key: string, index: Path)
    requires WellFormed(g) && T in g && Frontier(g, T, d, seen, []) && d > 0
    requires Cand(kind, g, T, key, index)
    ensures index.Len() <= d
  {
    FrontierEnd(g, T, d, seen, index.before);
  }

  /** `NewMethodSet`: the methods by their identifier. */
  method NewMethodSet(g: Graph, T: Ref) returns (list: map<string, Sel>)
    requires WellFormed(g) && T in g && InterfacesPlain(g)
    ensures forall key, sel :: (key in list && list[key] == sel <==> InMethodSet(g, T, key, sel))
  {
    DerefIn(g, T);
    var (typ, isPtr) := Deref(g, T);
    if isPtr && Under(g, typ).Interface? {
      return map[];
    }
    var base := CollectAll(g, T, typ, isPtr);
    list := map key | key in base && base[key].Some? :: base[key].value;
  }

  /** The search loop of `NewMethodSet`. */
  method CollectAll(g: Graph, T: Ref, typ: Ref, isPtr: bool) returns (base: Table)
    requires WellFormed(g) && T in g && InterfacesPlain(g)
    requires Deref(g, T) == (typ, isPtr) && typ in g && !(isPtr && PointsToInterface(g, T))
    ensures forall key, sel :: (key in base && base[key] == Some(sel) <==> InMethodSet(g, T, key, sel))
  {
    base := map[];
    var current := [Entry(if g[typ].Named? then Some(typ) else None, Root, isPtr, false)];
    var seen: set<Ref> := {};
    SearchStart(g, T, typ, isPtr, current[0]);
    ghost var d := 0;
    while |current| > 0
      invariant Underway(g, T, base, d, seen, current)
      decreases if d == 0 then 1 else 0, NamedTypes(g) - seen, |current|
    {
      base, seen, current := CollectNext(g, T, d, base, seen, current);
      d := d + 1;
    }
    SearchEnd(g, T, base, d, seen);
  }

  /** The state of the search, under a seal. */
  ghost predicate Underway(g: Graph, T: Ref, base: Table, d: nat, seen: set<Ref>, current: seq<Entry>)
    requires WellFormed(g) && T in g
  {
    forall z: nat {:trigger Seal(z)} :: Seal(z) ==> Searching(g, T, base, d, seen, current)
  }

  lemma SearchStart(g: Graph, T: Ref, typ: Ref, isPtr: bool, e: Entry)
    requires WellFormed(g) && T in g && Deref(g, T) == (typ, isPtr) && typ in g
    requires e == Entry(if g[typ].Named? then Some(typ) else None, Root, isPtr, false)
    ensures Underway(g, T, map[], 0, {}, [e])
  {
    FrontierStart(g, T, e);
    BaseStart(g, T);
  }

  lemma SearchEnd(g: Graph, T: Ref, base: Table, d: nat, seen: set<Ref>)
    requires WellFormed(g) && T in g && InterfacesPlain(g) && !(Deref(g, T).1 && PointsToInterface(g, T))
    requires Underway(g, T, base, d, seen, [])
    ensures forall key, sel :: (key in base && base[key] == Some(sel) <==> InMethodSet(g, T, key, sel))
  {
    assert Seal(0);
    BaseComplete(g, T, base, d, seen);
  }

  /** One depth of the search, and the entries of the next. */
  method CollectNext(g: Graph, T: Ref, ghost d: nat, base: Table, seen: set<Ref>, current: seq<Entry>)
      returns (base': Table, seen': set<Ref>, next: seq<Entry>)
    requires WellFormed(g) && T in g && InterfacesPlain(g) && Underway(g, T, base, d, seen, current)
    requires !(Deref(g, T).1 && PointsToInterface(g, T))
    ensures Underway(g, T, base', d + 1, seen', next) && Closer(g, seen, current, seen', next, d)
  {
    assert Seal(0);
    FrontierTypes(g, T, d, seen, current);
    NextSearch(g, T, base, d, seen, current);
    var list;
    base', seen', list := CollectOneDepth(g, T, d, base, seen, current);
    next := Consolidate(list);
  }

  lemma NextSearch(g: Graph, T: Ref, base: Table, d: nat, seen: set<Ref>, current: seq<Entry>)
    requires WellFormed(g) && T in g && Frontier(g, T, d, seen, current) && AllBaseOk(g, T, base, d)
    requires forall k :: 0 <= k < |current| ==> TypeOf(g, T, current[k]) in g
    requires d > 0 ==> forall k :: 0 <= k < |current| ==> current[k].typ.Some?
    requires !(Deref(g, T).1 && PointsToInterface(g, T))
    ensures Searching(g, T, BaseAfter(g, T, base, seen, current), d + 1, SeenAfter(seen, current),
                      Merged(AllChildren(g, T, seen, current)))
    ensures Closer(g, seen, current, SeenAfter(seen, current), Merged(AllChildren(g, T, seen, current)), d)
  {
    NextDepth(g, T, d, seen, current);
    BaseNext(g, T, base, d, seen, current);
  }

  ghost predicate Searching(g: Graph, T: Ref, base: Table, d: nat, seen: set<Ref>, current: seq<Entry>)
    requires WellFormed(g) && T in g
  {
    && Frontier(g, T, d, seen, current) && AllBaseOk(g, T, base, d)
    && (d == 0 ==> |current| > 0)
    && (d > 0 ==> forall k :: 0 <= k < |current| ==> current[k].typ.Some?)
  }

  ghost predicate Closer(g: Graph, seen: set<Ref>, current: seq<Entry>, seen': set<Ref>, next: seq<Entry>, d: nat) {
    d > 0 ==> NamedTypes(g) - seen' < NamedTypes(g) - seen || (NamedTypes(g) - seen' == NamedTypes(g) - seen && |next| == 0)
  }

  ghost function BaseAfter(g: Graph, T: Ref, base: Table, seen: set<Ref>, current: seq<Entry>): Table
    requires WellFormed(g) && T in g
    requires forall k :: 0 <= k < |current| ==> TypeOf(g, T, current[k]) in g
  {
    Merge(base, Collect(DepthEvents(Methods, g, T, seen, current)), Collect(DepthEvents(Fields, g, T, seen, current)))
  }

  method CollectOneDepth(g: Graph, T: Ref, ghost d: nat, base: Table, seen: set<Ref>, current: seq<Entry>)
      returns (base': Table, seen': set<Ref>, next: seq<Entry>)
    requires WellFormed(g) && T in g && InterfacesPlain(g) && Frontier(g, T, d, seen, current)
    requires forall k :: 0 <= k < |current| ==> TypeOf(g, T, current[k]) in g
    ensures base' == BaseAfter(g, T, base, seen, current)
    ensures seen' == SeenAfter(seen, current) && next == AllChildren(g, T, seen, current)
  {
    var fset, mset;
    fset, mset, seen', next := CollectDepth(g, T, d, seen, current);
    assert current[..|current|] == current;
    base' := MergeInto(base, mset, fset);
  }

  lemma BaseComplete(g: Graph, T: Ref, base: Table, d: nat, seen: set<Ref>)
    requires WellFormed(g) && T in g && Frontier(g, T, d, seen, []) && d > 0
    requires AllBaseOk(g, T, base, d)
    ensures forall key, sel :: (key in base && base[key] == Some(sel) <==> InMethodSet(g, T, key, sel))
  {
    forall key, sel ensures key in base && base[key] == Some(sel) <==> InMethodSet(g, T, key, sel) {
      assert BaseOk(g, T, base, d, key);
      if InMethodSet(g, T, key, sel) { BaseEnd(g, T, d, seen, Methods, key, sel.index); }
    }
  }
}
