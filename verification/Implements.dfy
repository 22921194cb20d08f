/** Which types implement an interface (go/types/lookup.go): lookup, receivers and type identity
    together. */
module Implements {
  import opened Types
  import opened Identity
  import opened Selectors
  import opened Lookup
  import MethodSets
  import Agreement

  /** The types of declared methods are in the graph. */
  ghost predicate MethodTypes(g: Graph) {
    forall t, i :: t in g && g[t].Named? && 0 <= i < |g[t].methods| ==> g[t].methods[i].typ in g
  }

  // ---------------------------------------------------------------------------
  // Lookup in types of named pointers

  /** The selector rule, with the shorthand for fields of a named pointer type. */
  ghost predicate SelectsAlso(g: Graph, T: Ref, pkg: Package, name: string, r: Result)
    requires WellFormed(g) && T in g
  {
    exists a: Result ::
      Selects(g, T, pkg, name, a) &&
      if a.obj == None && NamedPointer(g, T) && FieldBelow(g, T, pkg, name) then
        Selects(g, g[T].underlying, pkg, name, r) && r.obj.Some? && r.obj.value.Var?
      else r == a
  }

  predicate NamedPointer(g: Graph, T: Ref)
    requires WellFormed(g) && T in g
  {
    g[T].Named? && g[g[T].underlying].Pointer?
  }

  ghost predicate FieldBelow(g: Graph, T: Ref, pkg: Package, name: string)
    requires WellFormed(g) && T in g && g[T].Named?
  {
    exists b: Result :: Selects(g, g[T].underlying, pkg, name, b) && b.obj.Some? && b.obj.value.Var?
  }

  /** `LookupFieldOrMethod`. */
  method LookupFieldOrMethod(g: Graph, T: Ref, pkg: Package, name: string) returns (r: Result)
    requires WellFormed(g) && T in g
    ensures SelectsAlso(g, T, pkg, name, r)
  {
    r := LookupFieldOrMethodFrom(g, T, pkg, name);
    if r.obj == None && g[T].Named? {
      var u := g[T].underlying;
      if g[u].Pointer? {
        var r2 := LookupFieldOrMethodFrom(g, u, pkg, name);
        if r2.obj.Some? && r2.obj.value.Var? {
          r := r2;
        } else {
          forall b: Result | Selects(g, u, pkg, name, b)
            ensures b.obj == r2.obj
          {
            SelectsIsFunctional(g, u, pkg, name, b, r2);
          }
        }
      }
    }
  }

  // ---------------------------------------------------------------------------
  // Missing methods

  /** Lookup in V finds method f, which can be called on a V. */
  ghost predicate Callable(g: Graph, V: Ref, pkg: Package, name: string, f: Method)
    requires WellFormed(g) && V in g
  {
    Selectable(g, V, name) && exists index: Path ::
      index.Via? && UniqueShallowest(g, V, pkg, name, index, Func(f)) && Walk(g, V, index.before).Some?
      && (Walk(g, V, index.before).value.indirect || !f.ptrRecv)
  }

  /** The method of an interface with the identifier of m. */
  predicate Lists(ms: seq<Method>, m: Method, f: Method) {
    LookupMethod(ms, m.pkg, m.name) >= 0 && f == ms[LookupMethod(ms, m.pkg, m.name)]
  }

  /** V has a method like m, whatever its type. */
  ghost predicate Offers(g: Graph, V: Ref, m: Method, f: Method)
    requires WellFormed(g) && V in g
  {
    if Under(g, V).Interface? then Lists(Under(g, V).allMethods, m, f) else Callable(g, V, m.pkg, m.name, f)
  }

  ghost predicate Has(g: Graph, V: Ref, m: Method)
    requires WellFormed(g) && V in g
  {
    exists f :: Offers(g, V, m, f) && Bisimilar(g, f.typ, m.typ)
  }

  ghost predicate Lacks(g: Graph, V: Ref, m: Method)
    requires WellFormed(g) && V in g
  {
    forall f :: !Offers(g, V, m, f)
  }

  /** Method m is no obstacle: a dynamic check of an interface value lets methods be absent. */
  ghost predicate Fine(g: Graph, V: Ref, m: Method, isStatic: bool)
    requires WellFormed(g) && V in g
  {
    Has(g, V, m) || (Under(g, V).Interface? && !isStatic && Lacks(g, V, m))
  }

  ghost predicate FirstObstacle(g: Graph, V: Ref, ms: seq<Method>, isStatic: bool, m: Method)
    requires WellFormed(g) && V in g
  {
    exists i: nat :: i < |ms| && ms[i] == m && !Fine(g, V, m, isStatic) && AllFine(g, V, ms, isStatic, i)
  }

  ghost predicate AllFine(g: Graph, V: Ref, ms: seq<Method>, isStatic: bool, n: nat)
    requires WellFormed(g) && V in g && n <= |ms|
  {
    forall k :: 0 <= k < n ==> Fine(g, V, ms[k], isStatic)
  }

  lemma OfferIsOne(g: Graph, V: Ref, m: Method, f: Method, f': Method)
    requires WellFormed(g) && V in g && Offers(g, V, m, f) && Offers(g, V, m, f')
    ensures f == f'
  {
    if !Under(g, V).Interface? {
      var i: Path :| i.Via? && UniqueShallowest(g, V, m.pkg, m.name, i, Func(f));
      var j: Path :| j.Via? && UniqueShallowest(g, V, m.pkg, m.name, j, Func(f'));
      assert i == j;
    }
  }

  /** The verdict on one method: absent, of another type, or as required. */
  datatype Verdict = Absent | WrongType | Right

  ghost predicate Judged(g: Graph, V: Ref, m: Method, v: Verdict)
    requires WellFormed(g) && V in g
  {
    match v
    case Absent => Lacks(g, V, m)
    case WrongType => !Has(g, V, m) && !Lacks(g, V, m)
    case Right => Has(g, V, m)
  }

  lemma JudgeOffer(g: Graph, V: Ref, m: Method, f: Method)
    requires WellFormed(g) && V in g && Offers(g, V, m, f)
    ensures Has(g, V, m) <==> Bisimilar(g, f.typ, m.typ)
    ensures !Lacks(g, V, m)
  {
    if Has(g, V, m) {
      var f' :| Offers(g, V, m, f') && Bisimilar(g, f'.typ, m.typ);
      OfferIsOne(g, V, m, f, f');
    }
  }

  /** The concrete branch, for one method. */
  method JudgeConcrete(g: Graph, ghost rank: map<Ref, nat>, V: Ref, m: Method) returns (v: Verdict)
    requires WellFormed(g) && MethodTypes(g) && Ranked(g, rank) && V in g && m.typ in g && !Under(g, V).Interface?
    ensures Judged(g, V, m, v)
  {
    var r := LookupFieldOrMethodFrom(g, V, m.pkg, m.name);
    if r.obj == None || r.obj.value.Var? || (!r.indirect && r.obj.value.fn.ptrRecv) {
      NotCallable(g, V, m, r);
      return Absent;
    }
    var f := r.obj.value.fn;
    assert Callable(g, V, m.pkg, m.name, f);
    FoundType(g, V, m.pkg, m.name, r.index, f);
    JudgeOffer(g, V, m, f);
    IdenticalIffBisimilar(g, rank, f.typ, m.typ, Empty);
    return if IsIdentical(g, rank, f.typ, m.typ) then Right else WrongType;
  }

  lemma NotCallable(g: Graph, V: Ref, m: Method, r: Result)
    requires WellFormed(g) && V in g && !Under(g, V).Interface? && Selects(g, V, m.pkg, m.name, r)
    requires r.obj == None || r.obj.value.Var? || (!r.indirect && r.obj.value.fn.ptrRecv)
    ensures Lacks(g, V, m)
  {
    forall f
      ensures !Callable(g, V, m.pkg, m.name, f)
    {
      if Callable(g, V, m.pkg, m.name, f) {
        var index: Path :| index.Via? && UniqueShallowest(g, V, m.pkg, m.name, index, Func(f)) && Walk(g, V, index.before).Some?
          && (Walk(g, V, index.before).value.indirect || !f.ptrRecv);
        var s := Result(Some(Func(f)), index, Walk(g, V, index.before).value.indirect);
        SelectsIsFunctional(g, V, m.pkg, m.name, r, s);
      }
    }
  }

  lemma FoundType(g: Graph, V: Ref, pkg: Package, name: string, index: Path, f: Method)
    requires WellFormed(g) && MethodTypes(g) && V in g && index.Via? && Target(g, V, pkg, name, index) == Some(Func(f))
    ensures f.typ in g
  {
    var t := Walk(g, V, index.before).value.typ;
    var i := index.i;
    if g[t].Named? && g[t].methods != [] && i == LookupMethod(g[t].methods, pkg, name) {
      assert f == g[t].methods[i];
    } else {
      var u := if g[t].Named? then g[t].underlying else t;
      assert Parts(g[u])[i] == f.typ;
    }
  }

  /** The interface branch, for one method. */
  method JudgeInterface(g: Graph, ghost rank: map<Ref, nat>, V: Ref, m: Method) returns (v: Verdict)
    requires WellFormed(g) && Ranked(g, rank) && V in g && m.typ in g && Under(g, V).Interface?
    ensures Judged(g, V, m, v)
  {
    var ms := Under(g, V).allMethods;
    var i := LookupMethod(ms, m.pkg, m.name);
    if i < 0 {
      assert forall f :: !Offers(g, V, m, f);
      return Absent;
    }
    var f := ms[i];
    ghost var u := if g[V].Named? then g[V].underlying else V;
    assert Parts(g[u])[i] == f.typ;
    JudgeOffer(g, V, m, f);
    IdenticalIffBisimilar(g, rank, f.typ, m.typ, Empty);
    return if IsIdentical(g, rank, f.typ, m.typ) then Right else WrongType;
  }

  /** `MissingMethod`: nothing is reported exactly when no method is an obstacle; otherwise the first
      obstacle is, with whether V has it with another type. */
  method MissingMethod(g: Graph, ghost rank: map<Ref, nat>, V: Ref, T: Ref, isStatic: bool) returns (missing: Option<Method>, wrongType: bool)
    requires WellFormed(g) && MethodTypes(g) && Ranked(g, rank) && V in g && T in g && g[T].Interface?
    ensures missing == None <==> AllFine(g, V, g[T].allMethods, isStatic, |g[T].allMethods|)
    ensures missing == None ==> !wrongType
    ensures missing.Some? ==> FirstObstacle(g, V, g[T].allMethods, isStatic, missing.value)
    ensures missing.Some? ==> (wrongType <==> !Lacks(g, V, missing.value))
  {
    var ms := g[T].allMethods;
    missing, wrongType := None, false;
    for i := 0 to |ms|
      invariant missing == None && !wrongType
      invariant AllFine(g, V, ms, isStatic, i)
    {
      var m := ms[i];
      assert Parts(g[T])[i] == m.typ;
      var v: Verdict;
      if Under(g, V).Interface? {
        v := JudgeInterface(g, rank, V, m);
        if v.Absent? && !isStatic {
          continue;
        }
      } else {
        v := JudgeConcrete(g, rank, V, m);
      }
      if v != Right {
        assert !Fine(g, V, m, isStatic);
        missing, wrongType := Some(m), v.WrongType?;
        return;
      }
    }
  }

  /** In the method set, with no field of the same name less deep. */
  ghost predicate InSet(g: Graph, V: Ref, pkg: Package, name: string, f: Method, sel: MethodSets.Sel)
    requires WellFormed(g) && V in g
  {
    && MethodSets.InMethodSet(g, V, Id(pkg, name), sel) && sel.entity == Func(f)
    && forall n: nat :: n < sel.index.Len() ==> !MethodSets.SomeCand(MethodSets.Fields, g, V, Id(pkg, name), n)
  }

  /** A method that lookup finds and that can be called is in the method set; the converse holds
      unless a field of the same name is less deep. */
  lemma CallableIffInMethodSet(g: Graph, V: Ref, pkg: Package, name: string, f: Method)
    requires WellFormed(g) && Agreement.Declarations(g) && V in g && ProperName(pkg, name) && Selectable(g, V, name)
    ensures Callable(g, V, pkg, name, f) <==> exists sel :: InSet(g, V, pkg, name, f, sel)
  {
    if Callable(g, V, pkg, name, f) {
      var index: Path :| index.Via? && UniqueShallowest(g, V, pkg, name, index, Func(f)) && Walk(g, V, index.before).Some?
        && (Walk(g, V, index.before).value.indirect || !f.ptrRecv);
      var pos := Walk(g, V, index.before).value;
      var sel := MethodSets.Sel(Func(f), index, pos.indirect || Under(g, pos.typ).Interface?);
      Agreement.FoundMethodInSet(g, V, pkg, name, index, f, sel);
      Agreement.SetMethodFound(g, V, pkg, name, sel);
      assert InSet(g, V, pkg, name, f, sel);
      assert exists sel :: InSet(g, V, pkg, name, f, sel);
    }
    if exists sel :: InSet(g, V, pkg, name, f, sel) {
      var sel :| InSet(g, V, pkg, name, f, sel);
      Agreement.SetMethodFound(g, V, pkg, name, sel);
      Agreement.FoundMethodInSet(g, V, pkg, name, sel.index, f, sel);
      assert Callable(g, V, pkg, name, f);
    }
  }

  /** What MissingMethod accepts, by way of method sets: with a concrete V, every method of the
      interface is in the method set of V with an identical type, and no field hides it. */
  lemma ImplementsByMethodSet(g: Graph, V: Ref, m: Method, isStatic: bool)
    requires WellFormed(g) && Agreement.Declarations(g) && V in g && !Under(g, V).Interface?
    requires ProperName(m.pkg, m.name) && Selectable(g, V, m.name)
    ensures Fine(g, V, m, isStatic) <==> exists f, sel :: InSet(g, V, m.pkg, m.name, f, sel) && Bisimilar(g, f.typ, m.typ)
  {
    if Has(g, V, m) {
      var f :| Offers(g, V, m, f) && Bisimilar(g, f.typ, m.typ);
      CallableIffInMethodSet(g, V, m.pkg, m.name, f);
    }
    if exists f, sel :: InSet(g, V, m.pkg, m.name, f, sel) && Bisimilar(g, f.typ, m.typ) {
      var f, sel :| InSet(g, V, m.pkg, m.name, f, sel) && Bisimilar(g, f.typ, m.typ);
      CallableIffInMethodSet(g, V, m.pkg, m.name, f);
      assert Offers(g, V, m, f);
    }
  }
}
