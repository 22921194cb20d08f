/** The importer's steps keep the correspondence. */
module MirrorSteps {
  import opened Types
  import opened TypeGraph
  import opened Format
  import opened Mirror
  import opened Sealing

  /** A new object with zero contents is recorded for a type. */
  ghost function Allocated(m: Mem, zero: Type, scope: map<(string, string), Ref>): Mem {
    m.(typList := m.typList + [m.next], heap := m.heap[m.next := zero],
       recvs := if zero.Signature? then m.recvs[m.next := None] else m.recvs,
       scope := scope, next := m.next + 1)
  }

  /** The object is of the right kind and has nothing in it but the name and package of a named type. */
  ghost predicate ZeroOf(zero: Type, t: Type) {
    && Tag(zero) == Tag(t) && (t.Pointer? ==> zero.elem == NIL)
    && (t.Named? ==> zero.name == t.name && zero.pkg == t.pkg && zero.underlying == NIL)
  }

  lemma ListGrows(st: St, list: seq<Ref>, r: Ref, a: Ref)
    requires |list| == |st.types| && (forall q :: q in st.types ==> st.types[q] < |list|) && r !in st.types
    ensures Later(st, list, st.Opened(r), list + [a]) && Img(st.Opened(r), list + [a], r) == a
    ensures forall q {:trigger Img(st.Opened(r), list + [a], q)} ::
              q in st.types ==> Img(st.Opened(r), list + [a], q) == Img(st, list, q)
  {}

  lemma TracksStays(st: St, list: seq<Ref>, st2: St, list2: seq<Ref>, r: Ref, x: Type, t: Type)
    requires Tracks(st, list, r, x, t) && Later(st, list, st2, list2) && (r in st2.open <==> r in st.open)
    ensures Tracks(st2, list2, r, x, t)
  {}

  lemma KnownStays(c: Source, st: St, m: Mem, st2: St, m2: Mem, q: Ref)
    requires Known(c, st, m, q) && q in st.types && Later(st, m.typList, st2, m2.typList) && (q in st2.open <==> q in st.open)
    requires var a := Img(st, m.typList, q); a in m2.heap && m2.heap[a] == m.heap[a]
    ensures Known(c, st2, m2, q)
  {
    if !Shared(c, q) {
      TracksStays(st, m.typList, st2, m2.typList, q, m.heap[Img(st, m.typList, q)], c.g[q]);
    }
  }

  /** A new entry at the end of the list whose object is new keeps images apart. */
  lemma StillUnique(c: Source, st: St, m: Mem, r: Ref, a: Ref)
    requires Rel(c, st, m) && r !in st.types && r != NIL && a != NIL
    requires forall q {:trigger Img(st, m.typList, q)} :: q in st.types ==> Img(st, m.typList, q) != a
    ensures forall q :: q in st.Opened(r).types ==> Unique(st.Opened(r), m.typList + [a], q)
  {
    assert Seal(0);
    var st1, list1 := st.Opened(r), m.typList + [a];
    ListGrows(st, m.typList, r, a);
    forall q | q in st1.types ensures Unique(st1, list1, q) {
      if q != r { assert Unique(st, m.typList, q); }
    }
  }

  /** What is known of replaced receivers stays, as long as the receivers and the objects stay, no type
      known before is opened, and new types have new objects or those that were there from the start. */
  ghost predicate Keeps(c: Source, st: St, m: Mem, st2: St, m2: Mem) {
    && Later(st, m.typList, st2, m2.typList)
    && (forall q :: q in st.types && q in st2.open ==> q in st.open)
    && (forall q {:trigger Img(st2, m2.typList, q)} :: q in st2.types && q !in st.types ==>
          Img(st2, m2.typList, q) !in m.heap || Img(st2, m2.typList, q) in c.heap)
    && (forall a :: a in m.heap && Apart(st, m.typList, a) ==> a in m2.heap && m2.heap[a] == m.heap[a])
  }

  lemma ReboundStays(c: Source, st: St, m: Mem, st2: St, m2: Mem, x: Ref)
    requires Rebound(c, st, m, x) && Keeps(c, st, m, st2, m2)
    requires x in m.recvs ==> x in m2.recvs && m2.recvs[x] == m.recvs[x]
    ensures Rebound(c, st2, m2, x)
  {
    var r: Ref, i: nat :| ReboundBy(c, st, m, x, r, i);
    var s := c.g[r].methods[i].typ;
    if Twin(c, st, m, x, r) {
      TwinStays(c, st, m, st2, m2, x, r);
    }
    if OwnRecv(c, st, m, x, s) {
      ImageStays(c, st, m.typList, st2, m2.typList, c.g[s]);
    }
    assert ReboundBy(c, st2, m2, x, r, i);
  }

  lemma TwinStays(c: Source, st: St, m: Mem, st2: St, m2: Mem, x: Ref, r: Ref)
    requires Twin(c, st, m, x, r) && Keeps(c, st, m, st2, m2)
    requires x in m.recvs ==> x in m2.recvs && m2.recvs[x] == m.recvs[x]
    ensures Twin(c, st2, m2, x, r)
  {
    ImageStays(c, st, m.typList, st2, m2.typList, c.g[r]);
    var a := m.recvs[x].value.typ;
    forall q | q in st2.types ensures Img(st2, m2.typList, q) != a {
      if q in st.types { assert Img(st, m.typList, q) != a; }
    }
  }

  lemma AllReboundStay(c: Source, st: St, m: Mem, st2: St, m2: Mem)
    requires Rel(c, st, m) && Keeps(c, st, m, st2, m2) && m2.rebound == m.rebound
    requires forall x :: x in m.recvs ==> x in m2.recvs && m2.recvs[x] == m.recvs[x]
    ensures forall x :: x in m2.rebound ==> Rebound(c, st2, m2, x)
  {
    assert Seal(0);
    forall x | x in m2.rebound ensures Rebound(c, st2, m2, x) { ReboundStays(c, st, m, st2, m2, x); }
  }

  /** The state when the type r has been recorded at (st0, m0) and read up to (st, m). */
  ghost predicate Reading(c: Source, st0: St, m0: Mem, st: St, m: Mem, r: Ref) {
    forall k: nat {:trigger Seal(k)} :: Seal(k) ==> Underway(c, st0, m0, st, m, r)
  }

  ghost predicate Underway(c: Source, st0: St, m0: Mem, st: St, m: Mem, r: Ref) {
    && Rel(c, st, m) && Rel(c, st0, m0) && Grown(c, st0, m0, st, m, {r}) && r in c.g
    && r in st.types && r !in st0.types && r != NIL && !Shared(c, r) && Img(st, m.typList, r) !in m0.heap
  }

  /** The new object may go into the scope. */
  ghost predicate FreshAt(c: Source, st: St, m: Mem, r: Ref, zero: Type, scope: map<(string, string), Ref>) {
    var st1, m1 := st.Opened(r), Allocated(m, zero, scope);
    Fresh(c, st1, m1) && Listed(c, st1, m1) && Entries(c, st, m, st1, m1)
  }

  /** A type is recorded before its contents are read: both lists grow by one. */
  lemma Alloc(c: Source, st: St, m: Mem, r: Ref, zero: Type, scope: map<(string, string), Ref>)
    requires Rel(c, st, m) && r in c.g && r !in st.types && !Shared(c, r) && ZeroOf(zero, c.g[r])
    requires FreshAt(c, st, m, r, zero, scope)
    ensures Rel(c, st.Opened(r), Allocated(m, zero, scope))
    ensures Grown(c, st, m, st.Opened(r), Allocated(m, zero, scope), {r})
  {
    assert Seal(0);
    ListGrows(st, m.typList, r, m.next);
    AllBelow(c, st, m);
    StillUnique(c, st, m, r, m.next);
    AllocRebound(c, st, m, r, zero, scope);
    AllocKnown(c, st, m, r, zero, scope);
    AllocNumbers(c, st, m, r, zero, scope);
  }

  /** From there on its contents are read. */
  lemma AllocReading(c: Source, st: St, m: Mem, r: Ref, zero: Type, scope: map<(string, string), Ref>)
    requires Rel(c, st, m) && r in c.g && r !in st.types && !Shared(c, r) && r != NIL && ZeroOf(zero, c.g[r])
    requires FreshAt(c, st, m, r, zero, scope)
    ensures Reading(c, st, m, st.Opened(r), Allocated(m, zero, scope), r)
    ensures m.next !in m.heap && m.next == Img(st.Opened(r), Allocated(m, zero, scope).typList, r)
  {
    RelNumbers(c, st, m);
    ListGrows(st, m.typList, r, m.next);
    Alloc(c, st, m, r, zero, scope);
  }

  lemma AllocRebound(c: Source, st: St, m: Mem, r: Ref, zero: Type, scope: map<(string, string), Ref>)
    requires Rel(c, st, m) && r in c.g && r !in st.types
    ensures var st1, m1 := st.Opened(r), Allocated(m, zero, scope); forall x :: x in m1.rebound ==> Rebound(c, st1, m1, x)
  {
    RelNumbers(c, st, m);
    ListGrows(st, m.typList, r, m.next);
    AllReboundStay(c, st, m, st.Opened(r), Allocated(m, zero, scope));
  }

  lemma AllocNumbers(c: Source, st: St, m: Mem, r: Ref, zero: Type, scope: map<(string, string), Ref>)
    requires Numbers(st, m) && Store(c, m) && r !in st.types && Entries(c, st, m, st.Opened(r), Allocated(m, zero, scope))
    ensures Numbers(st.Opened(r), Allocated(m, zero, scope)) && Store(c, Allocated(m, zero, scope))
    ensures Grown(c, st, m, st.Opened(r), Allocated(m, zero, scope), {r})
  {
    assert Seal(0);
    ListGrows(st, m.typList, r, m.next);
  }

  lemma AllocKnown(c: Source, st: St, m: Mem, r: Ref, zero: Type, scope: map<(string, string), Ref>)
    requires Rel(c, st, m) && r in c.g && r !in st.types && !Shared(c, r) && ZeroOf(zero, c.g[r])
    ensures var st1, m1 := st.Opened(r), Allocated(m, zero, scope);
            forall q :: q in st1.types && q != NIL ==> Known(c, st1, m1, q)
  {
    assert Seal(0);
    var st1, m1 := st.Opened(r), Allocated(m, zero, scope);
    ListGrows(st, m.typList, r, m.next);
    AllBelow(c, st, m);
    forall q | q in st1.types && q != NIL ensures Known(c, st1, m1, q) {
      if q != r {
        assert Known(c, st, m, q);
        KnownStays(c, st, m, st1, m1, q);
      }
    }
  }

  lemma AllBelow(c: Source, st: St, m: Mem)
    requires Rel(c, st, m)
    ensures forall q {:trigger Img(st, m.typList, q)} :: q in st.types ==> Img(st, m.typList, q) < m.next
  {
    assert Seal(0);
    forall q | q in st.types ensures Img(st, m.typList, q) < m.next {
      if q != NIL { assert Known(c, st, m, q); }
    }
  }

  /** A type that is there already, a basic one or one imported before, is looked up and recorded. */
  ghost predicate Found(c: Source, st: St, m: Mem, r: Ref, a: Ref) {
    && Rel(c, st, m) && r in c.g && r !in st.types && Shared(c, r) && r != NIL && a != NIL
    && a in c.heap && StandsFor(c, r, a, c.heap[a])
  }

  lemma RecordFound(c: Source, st: St, m: Mem, r: Ref, a: Ref)
    requires Found(c, st, m, r, a) && SourceOk(c)
    ensures var st1, m1 := st.Opened(r).Closed(r), m.(typList := m.typList + [a]);
            Rel(c, st1, m1) && Grown(c, st, m, st1, m1, {}) && Img(st1, m1.typList, r) == a
  {
    var st1, m1 := st.Opened(r).Closed(r), m.(typList := m.typList + [a]);
    RecordNumbers(c, st, m, r, a);
    RecordApart(c, st, m, r, a);
    RecordKnown(c, st, m, r, a);
    Assemble(c, st1, m1);
  }

  /** The parts of the correspondence. */
  lemma Assemble(c: Source, st: St, m: Mem)
    requires Numbers(st, m) && Store(c, m) && Fresh(c, st, m) && Listed(c, st, m)
    requires forall r :: r in st.types && r != NIL ==> Known(c, st, m, r)
    requires forall r :: r in st.types ==> Unique(st, m.typList, r)
    requires forall x :: x in m.rebound ==> Rebound(c, st, m, x)
    requires c.base <= st.types.Keys && st.open <= st.types.Keys && st.held == c.held.Keys
    ensures Rel(c, st, m)
  {}

  lemma RecordNumbers(c: Source, st: St, m: Mem, r: Ref, a: Ref)
    requires Found(c, st, m, r, a)
    ensures var st1, m1 := st.Opened(r).Closed(r), m.(typList := m.typList + [a]);
            && Numbers(st1, m1) && Store(c, m1) && Fresh(c, st1, m1) && Listed(c, st1, m1) && c.base <= st1.types.Keys && st1.open <= st1.types.Keys
            && st1.held == c.held.Keys && (forall x :: x in m1.rebound ==> Rebound(c, st1, m1, x))
            && Grown(c, st, m, st1, m1, {}) && Img(st1, m1.typList, r) == a
  {
    assert Seal(0);
    ListGrows(st, m.typList, r, a);
    RecordListed(c, st, m, r, a);
    AllReboundStay(c, st, m, st.Opened(r).Closed(r), m.(typList := m.typList + [a]));
  }

  /** What was imported before is in scope already. */
  lemma RecordListed(c: Source, st: St, m: Mem, r: Ref, a: Ref)
    requires Found(c, st, m, r, a)
    ensures var st1, m1 := st.Opened(r).Closed(r), m.(typList := m.typList + [a]);
            Listed(c, st1, m1) && Entries(c, st, m, st1, m1)
  {
    assert Seal(0) && Uncover(0);
    var st1, list1 := st.Opened(r).Closed(r), m.typList + [a];
    ListGrows(st, m.typList, r, a);
    forall q | q in st1.types && HasPlace(c.g, q)
      ensures Place(c.g, q) in m.scope && m.scope[Place(c.g, q)] == Img(st1, list1, q)
    {
      if q == r { assert InScope(c, m.scope, r); } else { assert Img(st1, list1, q) == Img(st, m.typList, q); }
    }
  }

  lemma RecordKnown(c: Source, st: St, m: Mem, r: Ref, a: Ref)
    requires Found(c, st, m, r, a)
    ensures var st1, m1 := st.Opened(r).Closed(r), m.(typList := m.typList + [a]);
            forall q :: q in st1.types && q != NIL ==> Known(c, st1, m1, q)
  {
    assert Seal(0);
    var st1, m1 := st.Opened(r).Closed(r), m.(typList := m.typList + [a]);
    ListGrows(st, m.typList, r, a);
    assert m.heap[a] == c.heap[a];
    forall q | q in st1.types && q != NIL ensures Known(c, st1, m1, q) {
      if q != r {
        assert Known(c, st, m, q);
        KnownStays(c, st, m, st1, m1, q);
      }
    }
  }

  lemma RecordApart(c: Source, st: St, m: Mem, r: Ref, a: Ref)
    requires Found(c, st, m, r, a) && SourceOk(c)
    ensures var st1, list1 := st.Opened(r).Closed(r), m.typList + [a];
            forall q :: q in st1.types ==> Unique(st1, list1, q)
  {
    RelNumbers(c, st, m);
    forall q | q in st.types ensures Img(st, m.typList, q) != a {
      if q != NIL { FoundApart(c, st, m, q, r, a); }
    }
    StillUnique(c, st, m, r, a);
    var st1, list1 := st.Opened(r).Closed(r), m.typList + [a];
    forall q | q in st1.types ensures Unique(st1, list1, q) {
      UniqueStays(st.Opened(r), st1, list1, q);
    }
  }

  lemma UniqueStays(st: St, st2: St, list: seq<Ref>, q: Ref)
    requires Unique(st, list, q) && st2.types == st.types
    ensures Unique(st2, list, q)
  {
    forall p | p in st2.types && Img(st2, list, p) == Img(st2, list, q) ensures p == q {
      assert Img(st, list, p) == Img(st, list, q);
    }
  }

  lemma FoundApart(c: Source, st: St, m: Mem, q: Ref, r: Ref, a: Ref)
    requires Found(c, st, m, r, a) && SourceOk(c) && q in st.types && q != NIL
    ensures Img(st, m.typList, q) != a
  {
    RelKnown(c, st, m, q);
    RelNumbers(c, st, m);
    if Img(st, m.typList, q) == a { OneShared(c, q, r, a, c.heap[a]); }
  }

  /** An object stands for one type at most. */
  lemma OneShared(c: Source, q: Ref, r: Ref, a: Ref, x: Type)
    requires SourceOk(c) && r in c.g && Shared(c, r) && StandsFor(c, r, a, x) && q in c.g
    requires if Shared(c, q) then StandsFor(c, q, a, x)
             else Tag(x) == Tag(c.g[q]) && (c.g[q].Named? ==> x.name == c.g[q].name && x.pkg == c.g[q].pkg)
    ensures q == r
  {
    assert Seal(0);
    if r in c.held { assert OnlyName(c, r); }
    if q in c.held { assert OnlyName(c, q); }
  }

  /** The step writes only into the object of the type r, which may come to have its contents. */
  ghost predicate WritesInto(c: Source, st: St, m: Mem, st2: St, m2: Mem, r: Ref) {
    var a := Img(st, m.typList, r);
    && r in st.types && r != NIL && !Shared(c, r) && a !in c.heap
    && st2.types == st.types && st2.pkgs == st.pkgs && st2.held == st.held && st2.open <= st.open
    && (forall q :: q != r ==> (q in st2.open <==> q in st.open))
    && m2 == m.(heap := m2.heap, recvs := m2.recvs) && m2.heap.Keys == m.heap.Keys
    && (forall b :: b in m.heap && b != a ==> b in m2.heap && m2.heap[b] == m.heap[b])
    && m.recvs.Keys <= m2.recvs.Keys <= m.heap.Keys
    && (forall b :: b in m.recvs && b != a ==> b in m2.recvs && m2.recvs[b] == m.recvs[b])
  }

  lemma WriteInto(c: Source, st: St, m: Mem, st2: St, m2: Mem, r: Ref)
    requires Rel(c, st, m) && WritesInto(c, st, m, st2, m2, r) && Known(c, st2, m2, r)
    requires var a := Img(st, m.typList, r); m2.recvs == m.recvs || a !in m.rebound || Rebound(c, st2, m2, a)
    ensures Rel(c, st2, m2)
  {
    WriteNumbers(c, st, m, st2, m2, r);
    WriteKnown(c, st, m, st2, m2, r);
    Assemble(c, st2, m2);
  }

  lemma WriteNumbers(c: Source, st: St, m: Mem, st2: St, m2: Mem, r: Ref)
    requires Rel(c, st, m) && WritesInto(c, st, m, st2, m2, r)
    requires var a := Img(st, m.typList, r); m2.recvs == m.recvs || a !in m.rebound || Rebound(c, st2, m2, a)
    ensures Numbers(st2, m2) && Store(c, m2) && Fresh(c, st2, m2) && Listed(c, st2, m2)
    ensures c.base <= st2.types.Keys && st2.open <= st2.types.Keys && st2.held == c.held.Keys
    ensures forall x :: x in m2.rebound ==> Rebound(c, st2, m2, x)
    ensures forall q :: q in st2.types ==> Unique(st2, m2.typList, q)
  {
    assert Seal(0);
    ListedStays(c, st, m, st2, m2);
    forall x | x in m2.rebound ensures Rebound(c, st2, m2, x) {
      if x != Img(st, m.typList, r) || m2.recvs == m.recvs { ReboundStays(c, st, m, st2, m2, x); }
    }
    forall q | q in st2.types ensures Unique(st2, m2.typList, q) {
      assert Unique(st, m.typList, q);
      UniqueStays(st, st2, m.typList, q);
    }
  }

  lemma WriteKnown(c: Source, st: St, m: Mem, st2: St, m2: Mem, r: Ref)
    requires Rel(c, st, m) && WritesInto(c, st, m, st2, m2, r) && Known(c, st2, m2, r)
    ensures forall q :: q in st2.types && q != NIL ==> Known(c, st2, m2, q)
  {
    assert Seal(0);
    assert Unique(st, m.typList, r);
    forall q | q in st2.types && q != NIL ensures Known(c, st2, m2, q) {
      if q != r {
        assert Known(c, st, m, q);
        assert Img(st, m.typList, q) != Img(st, m.typList, r);
        KnownStays(c, st, m, st2, m2, q);
      }
    }
  }

  lemma WriteKeepsDone(c: Source, st: St, m: Mem, st2: St, m2: Mem, r: Ref, q: Ref)
    requires WritesInto(c, st, m, st2, m2, r) && Unique(st, m.typList, r) && Numbers(st, m)
    requires q in st.types && q != r && Done(c, st, m, q)
    ensures Done(c, st2, m2, q)
  {
    assert Img(st, m.typList, q) != Img(st, m.typList, r);
    ImageStays(c, st, m.typList, st2, m2.typList, c.g[q]);
    if c.g[q].Interface? { MembersReboundStay(c, st, m, st2, m2, q); }
  }

  lemma WriteGrows(c: Source, st0: St, m0: Mem, st: St, m: Mem, st2: St, m2: Mem, r: Ref)
    requires Grown(c, st0, m0, st, m, {r}) && WritesInto(c, st, m, st2, m2, r) && Unique(st, m.typList, r)
    requires Listed(c, st, m) && Numbers(st, m) && Img(st, m.typList, r) !in m0.heap && m0.recvs.Keys <= m0.heap.Keys
    ensures Grown(c, st0, m0, st2, m2, {r})
  {
    assert Seal(0);
    ListedStays(c, st, m, st2, m2);
    EntriesTrans(c, st0, m0, st, m, st2, m2);
    forall q | q in st2.types && q !in st0.types && q != r && !Shared(c, q) ensures Done(c, st2, m2, q) {
      assert Done(c, st, m, q);
      WriteKeepsDone(c, st, m, st2, m2, r, q);
    }
  }

  /** The object of a type, once all that the type mentions has been read, gets its contents. */
  ghost function Filled(c: Source, st: St, m: Mem, r: Ref, contents: Type, recv: Option<Param>): Mem {
    var a := Img(st, m.typList, r);
    m.(heap := m.heap[a := contents], recvs := if contents.Signature? then m.recvs[a := recv] else m.recvs)
  }

  lemma ReadingFacts(c: Source, st0: St, m0: Mem, st: St, m: Mem, r: Ref)
    requires Reading(c, st0, m0, st, m, r)
    ensures Known(c, st, m, r) && Unique(st, m.typList, r) && Img(st, m.typList, r) !in c.heap
    ensures Tracks(st, m.typList, r, m.heap[Img(st, m.typList, r)], c.g[r])
    ensures r in st.types && r != NIL && !Shared(c, r) && m.recvs.Keys <= m.heap.Keys
  {
    assert Seal(0);
  }

  lemma FillIn(c: Source, st0: St, m0: Mem, st: St, m: Mem, r: Ref)
    requires Reading(c, st0, m0, st, m, r) && r in c.g && AllSeen(st, c.g[r]) && r in st.open
    requires c.g[r].Interface? ==> AllRebound(c, st, m, r)
    ensures var m2 := Filled(c, st, m, r, Image(c, st, m.typList, c.g[r]), ImgRecv(st, m.typList, c.g[r]));
            Rel(c, st.Closed(r), m2) && Grown(c, st0, m0, st.Closed(r), m2, {})
  {
    assert Seal(0);
    var st2 := st.Closed(r);
    var m2 := Filled(c, st, m, r, Image(c, st, m.typList, c.g[r]), ImgRecv(st, m.typList, c.g[r]));
    ReadingFacts(c, st0, m0, st, m, r);
    FillWrites(c, st, m, r);
    if Img(st, m.typList, r) in m.rebound { FillRebound(c, st, m, r); }
    WriteInto(c, st, m, st2, m2, r);
    WriteGrows(c, st0, m0, st, m, st2, m2, r);
  }

  /** A signature whose receiver was replaced while it was in the making gets its own receiver. */
  lemma FillRebound(c: Source, st: St, m: Mem, r: Ref)
    requires Rel(c, st, m) && r in st.types && r in c.g && AllSeen(st, c.g[r]) && r in st.open && Img(st, m.typList, r) in m.rebound
    ensures var m2 := Filled(c, st, m, r, Image(c, st, m.typList, c.g[r]), ImgRecv(st, m.typList, c.g[r]));
            m2.recvs == m.recvs || Rebound(c, st.Closed(r), m2, Img(st, m.typList, r))
  {
    assert Seal(0);
    var x, st2 := Img(st, m.typList, r), st.Closed(r);
    var m2 := Filled(c, st, m, r, Image(c, st, m.typList, c.g[r]), ImgRecv(st, m.typList, c.g[r]));
    assert Unique(st, m.typList, r) && Rebound(c, st, m, x);
    var q: Ref, i: nat :| ReboundBy(c, st, m, x, q, i);
    assert c.g[q].methods[i].typ == r;
    ImageStays(c, st, m.typList, st2, m2.typList, c.g[r]);
    if m2.recvs != m.recvs {
      assert ReboundBy(c, st2, m2, x, q, i);
    }
  }

  lemma FillWrites(c: Source, st: St, m: Mem, r: Ref)
    requires r in st.types && r != NIL && !Shared(c, r) && Known(c, st, m, r) && Img(st, m.typList, r) !in c.heap
    requires AllSeen(st, c.g[r]) && Numbers(st, m) && m.recvs.Keys <= m.heap.Keys
    requires c.g[r].Interface? ==> AllRebound(c, st, m, r)
    ensures var st2, m2 := st.Closed(r), Filled(c, st, m, r, Image(c, st, m.typList, c.g[r]), ImgRecv(st, m.typList, c.g[r]));
            WritesInto(c, st, m, st2, m2, r) && Known(c, st2, m2, r) && Done(c, st2, m2, r)
  {
    var st2 := st.Closed(r);
    ImageStays(c, st, m.typList, st2, m.typList, c.g[r]);
    ImageTracks(c, st, m.typList, st2, r);
    if c.g[r].Interface? { MembersReboundStay(c, st, m, st2, m, r); }
  }

  lemma ImageTracks(c: Source, st: St, list: seq<Ref>, st2: St, r: Ref)
    requires r in c.g && AllSeen(st, c.g[r]) && st2.types == st.types && r !in st2.open
    ensures Tracks(st2, list, r, Image(c, st, list, c.g[r]), c.g[r])
  {}

  /** Something is written into the object of the type that is being read. */
  lemma WriteReading(c: Source, st0: St, m0: Mem, st: St, m: Mem, st2: St, m2: Mem, r: Ref)
    requires Reading(c, st0, m0, st, m, r) && WritesInto(c, st, m, st2, m2, r) && Known(c, st2, m2, r) && m2.recvs == m.recvs
    ensures Reading(c, st0, m0, st2, m2, r)
  {
    assert Seal(0);
    WriteInto(c, st, m, st2, m2, r);
    WriteGrows(c, st0, m0, st, m, st2, m2, r);
  }

  /** A named type gets its underlying type before its methods are read. */
  lemma SetUnderlying(c: Source, st0: St, m0: Mem, st: St, m: Mem, r: Ref)
    requires Reading(c, st0, m0, st, m, r) && IsNamed(c.g, r) && c.g[r].underlying in st.types && r in st.open
    ensures var a := Img(st, m.typList, r); a in m.heap && m.heap[a].Named?
    ensures var a := Img(st, m.typList, r);
            var m2 := m.(heap := m.heap[a := m.heap[a].(underlying := Img(st, m.typList, c.g[r].underlying))]);
            Reading(c, st0, m0, st.Closed(r), m2, r)
  {
    ReadingFacts(c, st0, m0, st, m, r);
    var a, st2 := Img(st, m.typList, r), st.Closed(r);
    var m2 := m.(heap := m.heap[a := m.heap[a].(underlying := Img(st, m.typList, c.g[r].underlying))]);
    assert Known(c, st2, m2, r);
    WriteReading(c, st0, m0, st, m, st2, m2, r);
  }

  /** A method is added to a named type that has its underlying type. */
  lemma AddFunc(c: Source, st0: St, m0: Mem, st: St, m: Mem, r: Ref, funcs: seq<Param>)
    requires Reading(c, st0, m0, st, m, r) && IsNamed(c.g, r)
    ensures var a := Img(st, m.typList, r); a in m.heap && m.heap[a].Named?
    ensures var a := Img(st, m.typList, r);
            Reading(c, st0, m0, st, m.(heap := m.heap[a := m.heap[a].(funcs := funcs)]), r)
  {
    ReadingFacts(c, st0, m0, st, m, r);
    var a := Img(st, m.typList, r);
    var m2 := m.(heap := m.heap[a := m.heap[a].(funcs := funcs)]);
    assert Known(c, st, m2, r);
    WriteReading(c, st0, m0, st, m, st, m2, r);
  }

  /** A named type with all its methods is done. */
  lemma NamedDone(c: Source, st0: St, m0: Mem, st: St, m: Mem, r: Ref)
    requires Reading(c, st0, m0, st, m, r) && Done(c, st, m, r)
    ensures Grown(c, st0, m0, st, m, {})
  {
    assert Seal(0);
  }

  /** Reading the parts of r goes on from where it was. */
  lemma ReadOn(c: Source, st0: St, m0: Mem, st: St, m: Mem, st2: St, m2: Mem, r: Ref)
    requires Reading(c, st0, m0, st, m, r) && Grown(c, st, m, st2, m2, {}) && Rel(c, st2, m2)
    ensures Reading(c, st0, m0, st2, m2, r) && Img(st2, m2.typList, r) == Img(st, m.typList, r)
    ensures var a := Img(st, m.typList, r); a in m2.heap && a in m.heap && m2.heap[a] == m.heap[a]
  {
    assert Seal(0);
    assert Known(c, st, m, r);
    GrownTrans(c, st0, m0, st, m, st2, m2, {r}, {});
    assert {r} + {} == {r};
  }

  /** A step that changes neither numbers nor objects keeps what is known. */
  lemma SameTypes(c: Source, st: St, m: Mem, st2: St, m2: Mem)
    requires Rel(c, st, m) && st2.types == st.types && st2.open == st.open && st2.held == st.held && m2.typList == m.typList
    requires Numbers(st2, m2) && Store(c, m2) && Fresh(c, st2, m2) && Listed(c, st2, m2)
    requires forall a :: a in m.heap ==> a in m2.heap && m2.heap[a] == m.heap[a]
    requires forall x :: x in m2.rebound ==> Rebound(c, st2, m2, x) || (x in m.rebound && SameRecv(m, m2, x))
    ensures Rel(c, st2, m2)
  {
    assert Seal(0);
    forall x | x in m2.rebound ensures Rebound(c, st2, m2, x) {
      if x in m.rebound && SameRecv(m, m2, x) { ReboundStays(c, st, m, st2, m2, x); }
    }
    forall q | q in st2.types && q != NIL ensures Known(c, st2, m2, q) {
      assert Known(c, st, m, q);
      KnownStays(c, st, m, st2, m2, q);
    }
    forall q | q in st2.types ensures Unique(st2, m2.typList, q) {
      assert Unique(st, m.typList, q);
      UniqueStays(st, st2, m.typList, q);
    }
  }

  ghost predicate SameRecv(m: Mem, m2: Mem, x: Ref) {
    x in m.recvs ==> x in m2.recvs && m2.recvs[x] == m.recvs[x]
  }

  /** A package is recorded: both lists grow by one. */
  lemma AddPkg(c: Source, st: St, m: Mem, p: Pkg, imports: map<string, Pkg>)
    requires Rel(c, st, m) && Some(p) !in st.pkgs && p in c.pkgs
    requires forall q :: q in c.pkgs && q.path in imports ==> imports[q.path] == q
    requires imports == m.imports[p.path := p] && (p.path in m.imports ==> m.imports[p.path] == p)
    ensures var st2, m2 := st.WithPkg(Some(p)), m.(pkgList := m.pkgList + [Some(p)], imports := imports);
            Rel(c, st2, m2) && Grown(c, st, m, st2, m2, {})
  {
    assert Seal(0);
    var st2, m2 := st.WithPkg(Some(p)), m.(pkgList := m.pkgList + [Some(p)], imports := imports);
    assert Fresh(c, st2, m2);
    PkgListed(c, st, m, p);
    SameTypes(c, st, m, st2, m2);
  }

  lemma PkgListed(c: Source, st: St, m: Mem, p: Pkg)
    requires Listed(c, st, m) && Some(p) !in st.pkgs && p in c.pkgs && (p.path in m.imports ==> m.imports[p.path] == p)
    ensures var st2, m2 := st.WithPkg(Some(p)), m.(pkgList := m.pkgList + [Some(p)], imports := m.imports[p.path := p]);
            Listed(c, st2, m2) && Entries(c, st, m, st2, m2)
  {
    assert Uncover(0);
    var st2, m2 := st.WithPkg(Some(p)), m.(pkgList := m.pkgList + [Some(p)], imports := m.imports[p.path := p]);
    forall r | r in st2.types ensures Img(st2, m2.typList, r) == Img(st, m.typList, r) {}
    assert Some(p) in st2.pkgs && NamesPkg(c, st2, p.path);
  }

  /** An object that no exported type stands for. */
  lemma AllocTemp(c: Source, st: St, m: Mem, t: Type)
    requires Rel(c, st, m)
    ensures var m2 := m.(heap := m.heap[m.next := t], next := m.next + 1); Rel(c, st, m2) && Grown(c, st, m, st, m2, {})
    ensures Apart(st, m.typList, m.next) && m.next !in c.heap
  {
    assert Seal(0);
    AllBelow(c, st, m);
    var m2 := m.(heap := m.heap[m.next := t], next := m.next + 1);
    ListedStays(c, st, m, st, m2);
    SameTypes(c, st, m, st, m2);
  }

  /** NewInterface replaces the receiver of the signature of one of the interface's methods. */
  lemma Rebind(c: Source, st: St, m: Mem, r: Ref, i: nat, temp: Ref)
    requires Rel(c, st, m) && r in c.g && c.g[r].Interface? && i < |c.g[r].methods| && r in st.types && AllSeen(st, c.g[r])
    requires c.g[r].methods[i].typ in st.types && c.g[r].methods[i].typ != NIL
    requires c.g[r].methods[i].typ in st.open ==> st.types[c.g[r].methods[i].typ] < st.types[r]
    requires Temp(c, st, m, r, temp)
    ensures var x := Img(st, m.typList, c.g[r].methods[i].typ);
            var m2 := m.(recvs := m.recvs[x := Some(Param("", temp))], rebound := m.rebound + {x});
            Rel(c, st, m2) && Grown(c, st, m, st, m2, {}) && Temp(c, st, m2, r, temp)
  {
    assert Seal(0);
    var x := Img(st, m.typList, c.g[r].methods[i].typ);
    var m2 := m.(recvs := m.recvs[x := Some(Param("", temp))], rebound := m.rebound + {x});
    assert Known(c, st, m, c.g[r].methods[i].typ);
    assert ReboundBy(c, st, m2, x, r, i);
    ListedStays(c, st, m, st, m2);
    SameTypes(c, st, m, st, m2);
  }

  /** The interface object that NewInterface makes: its contents go to the one recorded, not itself. */
  ghost predicate Temp(c: Source, st: St, m: Mem, r: Ref, a: Ref) {
    r in c.g && a in m.heap && a !in c.heap && Apart(st, m.typList, a) && m.heap[a] == Image(c, st, m.typList, c.g[r])
  }

  // ---------------------------------------------------------------------------
  // What is needed of sealed facts elsewhere

  lemma RelNumbers(c: Source, st: St, m: Mem)
    requires Rel(c, st, m)
    ensures Numbers(st, m) && Store(c, m)
  {
    assert Seal(0);
  }

  lemma RelOpen(c: Source, st: St, m: Mem)
    requires Rel(c, st, m)
    ensures st.open <= st.types.Keys
  {
    assert Seal(0);
  }

  lemma RelRefl(c: Source, st: St, m: Mem)
    requires Rel(c, st, m)
    ensures Grown(c, st, m, st, m, {})
  {
    assert Seal(0);
    ListedStays(c, st, m, st, m);
  }

  lemma ReadingAt(c: Source, st0: St, m0: Mem, st: St, m: Mem, r: Ref)
    requires Reading(c, st0, m0, st, m, r)
    ensures Rel(c, st, m) && r in st.types && r in c.g
  {
    assert Seal(0);
  }

  lemma RelKnown(c: Source, st: St, m: Mem, r: Ref)
    requires Rel(c, st, m) && r in st.types && r != NIL
    ensures Known(c, st, m, r)
  {
    assert Seal(0);
  }

  lemma GrownLater(c: Source, st: St, m: Mem, st2: St, m2: Mem, x: set<Ref>)
    requires Grown(c, st, m, st2, m2, x)
    ensures Later(st, m.typList, st2, m2.typList)
  {
    assert Seal(0);
  }

  lemma GrownSeen(c: Source, st: St, m: Mem, st2: St, m2: Mem, x: set<Ref>, r: Ref)
    requires Grown(c, st, m, st2, m2, x) && r in st.types
    ensures r in st2.types && Img(st2, m2.typList, r) == Img(st, m.typList, r)
  {
    assert Seal(0);
  }

  /** A named type goes into the scope of its package, where nothing has its name yet. */
  lemma FreshNamed(c: Source, st: St, m: Mem, r: Ref, zero: Type, scope: map<(string, string), Ref>)
    requires Rel(c, st, m) && SourceOk(c) && r !in st.types && IsNamed(c.g, r) && c.g[r].pkg.Some?
    requires scope == if c.g[r].name == "_" then m.scope else m.scope[(c.g[r].pkg.value.path, c.g[r].name) := m.next]
    requires PkgKnown(c, c.g[r].pkg) && r !in c.held
    ensures FreshAt(c, st, m, r, zero, scope)
  {
    ScopeTells(c, st, m, r);
    RelListed(c, st, m);
    TypeListed(c, st, m, r, Allocated(m, zero, scope));
    NamedFresh(c, st, m, r, zero, scope);
  }

  lemma NamedFresh(c: Source, st: St, m: Mem, r: Ref, zero: Type, scope: map<(string, string), Ref>)
    requires Rel(c, st, m) && SourceOk(c) && r !in st.types && IsNamed(c.g, r) && c.g[r].pkg.Some? && PkgKnown(c, c.g[r].pkg)
    requires scope == if c.g[r].name == "_" then m.scope else m.scope[(c.g[r].pkg.value.path, c.g[r].name) := m.next]
    ensures Fresh(c, st.Opened(r), Allocated(m, zero, scope))
  {
    assert Seal(0);
    forall q | IsNamed(c.g, q) && q !in st.Opened(r).types && c.g[q].pkg.Some?
      ensures InScope(c, scope, q)
    {
      assert q !in st.types && q != r;
      OtherKey(c, st, m, q, r);
    }
  }

  /** One more type, which is in scope if it has a place there. */
  lemma TypeListed(c: Source, st: St, m: Mem, r: Ref, m1: Mem)
    requires Listed(c, st, m) && Numbers(st, m) && r !in st.types && m1.typList == m.typList + [m.next] && m1.imports == m.imports
    requires m1.scope == if HasPlace(c.g, r) then m.scope[Place(c.g, r) := m.next] else m.scope
    requires HasPlace(c.g, r) ==> Place(c.g, r) !in m.scope
    ensures Listed(c, st.Opened(r), m1) && Entries(c, st, m, st.Opened(r), m1)
  {
    assert Uncover(0);
    var st1 := st.Opened(r);
    ListGrows(st, m.typList, r, m.next);
    forall q {:trigger HasPlace(c.g, q)} | q in st1.types && HasPlace(c.g, q)
      ensures Place(c.g, q) in m1.scope && m1.scope[Place(c.g, q)] == Img(st1, m1.typList, q)
    {
      if q != r { assert Place(c.g, q) in m.scope && Img(st1, m1.typList, q) == Img(st, m.typList, q); }
    }
    assert HasPlace(c.g, r) ==> HoldsPlace(c, st1, Place(c.g, r));
  }

  lemma PkgThere(c: Source, st: St, m: Mem, p: Pkg)
    requires Rel(c, st, m) && Some(p) in st.pkgs
    ensures p.path in m.imports && m.imports[p.path] == p
  {
    RelListed(c, st, m);
    assert Uncover(0);
  }

  lemma PlaceThere(c: Source, st: St, m: Mem, r: Ref)
    requires Rel(c, st, m) && r in st.types && HasPlace(c.g, r)
    ensures Place(c.g, r) in m.scope && m.scope[Place(c.g, r)] == Img(st, m.typList, r)
  {
    RelListed(c, st, m);
    assert Uncover(0);
  }

  lemma GrownEntries(c: Source, st: St, m: Mem, st2: St, m2: Mem)
    requires Rel(c, st2, m2) && Grown(c, st, m, st2, m2, {})
    ensures Listed(c, st2, m2) && Entries(c, st, m, st2, m2)
  {
    assert Seal(0);
  }

  lemma RelListed(c: Source, st: St, m: Mem)
    requires Rel(c, st, m)
    ensures Listed(c, st, m) && Numbers(st, m)
  {
    assert Seal(0);
  }

  /** Two named types still to come have different places in scope. */
  lemma OtherKey(c: Source, st: St, m: Mem, q: Ref, r: Ref)
    requires IsNamed(c.g, r) && c.g[r].pkg.Some? && IsNamed(c.g, q) && c.g[q].pkg.Some?
    requires Rel(c, st, m) && SourceOk(c) && PkgKnown(c, c.g[r].pkg) && q != r && q !in st.types
    ensures InScope(c, m.scope, q) && (c.g[q].pkg.value.path, c.g[q].name) != (c.g[r].pkg.value.path, c.g[r].name)
  {
    assert Seal(0);
    assert OnlyName(c, r);
    assert q !in c.base && PkgsKnown(c, c.g[q]);
  }

  /** Whether a named type is in scope says whether it was imported before. */
  lemma ScopeTells(c: Source, st: St, m: Mem, r: Ref)
    requires Rel(c, st, m) && r !in st.types && IsNamed(c.g, r) && c.g[r].pkg.Some?
    ensures InScope(c, m.scope, r)
  {
    assert Seal(0);
  }

  lemma FreshStays(c: Source, st: St, m: Mem, r: Ref, zero: Type)
    requires Rel(c, st, m) && r !in st.types && !IsNamed(c.g, r)
    ensures FreshAt(c, st, m, r, zero, m.scope)
  {
    RelListed(c, st, m);
    TypeListed(c, st, m, r, Allocated(m, zero, m.scope));
    assert Seal(0);
  }

  lemma SourceType(c: Source, st: St, r: Ref, m: Mem)
    requires SourceOk(c) && Rel(c, st, m) && r in c.g && r !in st.types
    ensures r !in c.base && r !in st.open && r != NIL && TypeOk(c.g, c.g[r]) && PkgsKnown(c, c.g[r]) && (c.g[r].Basic? || r in c.held || !Shared(c, r))
    ensures (r in st.held <==> r in c.held) && (r in c.held ==> HeldOk(c, r))
  {
    assert Seal(0);
  }
}
