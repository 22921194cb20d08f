/** Type identity (go/types/predicates.go).
    `isIdenticalInternal` compares two possibly cyclic type graphs with a stack of interface
    pairs that it takes to be equal. It is shown to decide bisimilarity. */
module Identity {
  import opened Types

  /** `ifacePair`: an immutable linked stack of interface pairs under comparison. */
  datatype Stack = Empty | Pair(x: Ref, y: Ref, prev: Stack)

  predicate OnStack(p: Stack, x: Ref, y: Ref) {
    p.Pair? && ((p.x == x && p.y == y) || (p.x == y && p.y == x) || OnStack(p.prev, x, y))
  }

  ghost function Pairs(p: Stack): set<(Ref, Ref)> {
    match p
    case Empty => {}
    case Pair(x, y, prev) => {(x, y)} + Pairs(prev)
  }

  /** Every cycle of types passes through a named type or an interface: away from those,
      the types mentioned by a type have a smaller rank. */
  ghost predicate Ranked(g: Graph, rank: map<Ref, nat>) {
    && Closed(g)
    && g.Keys <= rank.Keys
    && forall x, i :: x in g && !g[x].Interface? && 0 <= i < |Parts(g[x])|
         ==> rank[Parts(g[x])[i]] < rank[x]
  }

  /** The interface pairs that are not on the stack: what is left to be pushed. */
  ghost function Unvisited(g: Graph, p: Stack): set<(Ref, Ref)> {
    (set x, y | x in g.Keys && y in g.Keys && g[x].Interface? && g[y].Interface? :: (x, y)) - Pairs(p)
  }

  lemma OnStackOfPairs(p: Stack, x: Ref, y: Ref)
    requires (x, y) in Pairs(p)
    ensures OnStack(p, x, y)
  {}

  /** `isIdenticalInternal`. */
  predicate IsIdenticalInternal(g: Graph, ghost rank: map<Ref, nat>, x: Ref, y: Ref, p: Stack)
    requires Ranked(g, rank) && x in g && y in g
    decreases |Unvisited(g, p)|, rank[x]
  {
    x == y ||
    match (g[x], g[y])
    case (Basic(k), Basic(l)) => k == l
    case (Array(n, a), Array(m, b)) =>
      assert Parts(g[x])[0] == a && Parts(g[y])[0] == b;
      n == m && IsIdenticalInternal(g, rank, a, b, p)
    case (Slice(a), Slice(b)) =>
      assert Parts(g[x])[0] == a && Parts(g[y])[0] == b;
      IsIdenticalInternal(g, rank, a, b, p)
    case (Struct(fs), Struct(hs)) =>
      && |fs| == |hs|
      && forall i | 0 <= i < |fs| ::
           assert Parts(g[x])[i] == fs[i].typ && Parts(g[y])[i] == hs[i].typ;
           && fs[i].anonymous == hs[i].anonymous
           && fs[i].tag == hs[i].tag
           && SameId(fs[i].pkg, fs[i].name, hs[i].pkg, hs[i].name)
           && IsIdenticalInternal(g, rank, fs[i].typ, hs[i].typ, p)
    case (Pointer(a), Pointer(b)) =>
      assert Parts(g[x])[0] == a && Parts(g[y])[0] == b;
      IsIdenticalInternal(g, rank, a, b, p)
    case (Tuple(vs), Tuple(ws)) =>
      && |vs| == |ws|
      && forall i | 0 <= i < |vs| ::
           assert Parts(g[x])[i] == vs[i] && Parts(g[y])[i] == ws[i];
           IsIdenticalInternal(g, rank, vs[i], ws[i], p)
    case (Signature(ps, rs, v), Signature(qs, ts, w)) =>
      assert Parts(g[x])[0] == ps && Parts(g[y])[0] == qs;
      assert Parts(g[x])[1] == rs && Parts(g[y])[1] == ts;
      && v == w
      && IsIdenticalInternal(g, rank, ps, qs, p)
      && IsIdenticalInternal(g, rank, rs, ts, p)
    case (Interface(a), Interface(b)) =>
      && |a| == |b|
      && (OnStack(p, x, y) ||
          var q := Pair(x, y, p);
          assert Unvisited(g, q) < Unvisited(g, p) by { PushShrinks(g, p, x, y); }
          forall i | 0 <= i < |a| ::
            assert Parts(g[x])[i] == a[i].typ && Parts(g[y])[i] == b[i].typ;
            ShrinkIsSmaller(Unvisited(g, q), Unvisited(g, p));
            && Id(a[i].pkg, a[i].name) == Id(b[i].pkg, b[i].name)
            && IsIdenticalInternal(g, rank, a[i].typ, b[i].typ, q))
    case (Map(k, a), Map(l, b)) =>
      assert Parts(g[x])[0] == k && Parts(g[y])[0] == l;
      assert Parts(g[x])[1] == a && Parts(g[y])[1] == b;
      IsIdenticalInternal(g, rank, k, l, p) && IsIdenticalInternal(g, rank, a, b, p)
    case (Chan(d, a), Chan(e, b)) =>
      assert Parts(g[x])[0] == a && Parts(g[y])[0] == b;
      d == e && IsIdenticalInternal(g, rank, a, b, p)
    case (Named(o, _, _), Named(q, _, _)) => o == q
    case _ => false
  }

  lemma PushShrinks(g: Graph, p: Stack, x: Ref, y: Ref)
    requires x in g && y in g && g[x].Interface? && g[y].Interface? && !OnStack(p, x, y)
    ensures Unvisited(g, Pair(x, y, p)) < Unvisited(g, p)
  {
    if (x, y) in Pairs(p) { OnStackOfPairs(p, x, y); }
    assert (x, y) in Unvisited(g, p);
    assert (x, y) !in Unvisited(g, Pair(x, y, p));
  }

  lemma ShrinkIsSmaller<T>(a: set<T>, b: set<T>)
    requires a < b
    ensures |a| < |b|
  {
    var e :| e in b && e !in a;
    assert a <= b - {e};
    SubsetSize(a, b - {e});
  }

  lemma SubsetSize<T>(a: set<T>, b: set<T>)
    requires a <= b
    ensures |a| <= |b|
  {
    if a != {} {
      var e :| e in a;
      SubsetSize(a - {e}, b - {e});
    }
  }

  /** `IsIdentical`. */
  predicate IsIdentical(g: Graph, ghost rank: map<Ref, nat>, x: Ref, y: Ref)
    requires Ranked(g, rank) && x in g && y in g
  {
    IsIdenticalInternal(g, rank, x, y, Empty)
  }

  // ---------------------------------------------------------------------------
  // The declarative meaning: bisimilarity of the two graphs

  /** What can be told about a type without following the types it mentions. Named types
      are known by their declared object only. */
  datatype Head =
    | HBasic(kind: int) | HArray(len: int) | HSlice | HPointer | HTuple | HSignature(variadic: bool)
    | HStruct(labels: seq<(bool, string, string, Package)>)
    | HInterface(ids: seq<string>)
    | HMap | HChan(dir: int) | HNamed(obj: nat)

  function HeadOf(n: Node): Head {
    match n
    case Basic(k) => HBasic(k)
    case Array(l, _) => HArray(l)
    case Slice(_) => HSlice
    case Struct(fs) =>
      HStruct(seq(|fs|, i requires 0 <= i < |fs| =>
        (fs[i].anonymous, fs[i].tag, fs[i].name, if Exported(fs[i].name) then None else fs[i].pkg)))
    case Pointer(_) => HPointer
    case Tuple(_) => HTuple
    case Signature(_, _, v) => HSignature(v)
    case Interface(ms) => HInterface(seq(|ms|, i requires 0 <= i < |ms| => Id(ms[i].pkg, ms[i].name)))
    case Map(_, _) => HMap
    case Chan(d, _) => HChan(d)
    case Named(o, _, _) => HNamed(o)
  }

  /** Same head and the same number of parts. */
  predicate SameHead(g: Graph, x: Ref, y: Ref)
    requires x in g && y in g
  {
    HeadOf(g[x]) == HeadOf(g[y]) && |Parts(g[x])| == |Parts(g[y])|
  }

  /** `r` relates only types with equal heads whose parts are related again. */
  ghost predicate Bisimulation(g: Graph, r: set<(Ref, Ref)>) {
    forall x, y {:trigger Steps(g, r, x, y)} :: (x, y) in r ==> Steps(g, r, x, y)
  }

  ghost predicate Steps(g: Graph, r: set<(Ref, Ref)>, x: Ref, y: Ref) {
    && x in g && y in g && SameHead(g, x, y)
    && forall i :: 0 <= i < |Parts(g[x])| ==> (Parts(g[x])[i], Parts(g[y])[i]) in r
  }

  /** The two types unfold to the same, possibly infinite, tree. */
  ghost predicate Bisimilar(g: Graph, x: Ref, y: Ref) {
    exists r: set<(Ref, Ref)> :: Bisimulation(g, r) && (x, y) in r
  }

  /** The unfoldings agree down to depth n. */
  ghost predicate Agree(g: Graph, n: nat, x: Ref, y: Ref)
    requires Closed(g) && x in g && y in g
  {
    n == 0 || x == y ||
    (SameHead(g, x, y) &&
     forall i :: 0 <= i < |Parts(g[x])| ==> Agree(g, n - 1, Parts(g[x])[i], Parts(g[y])[i]))
  }

  ghost predicate StackIn(g: Graph, p: Stack) {
    p.Empty? || (p.x in g && p.y in g && StackIn(g, p.prev))
  }

  ghost predicate StackAgrees(g: Graph, n: nat, p: Stack)
    requires Closed(g) && StackIn(g, p)
  {
    p.Empty? || (Agree(g, n, p.x, p.y) && StackAgrees(g, n, p.prev))
  }

  lemma {:induction false} AgreeSymmetric(g: Graph, n: nat, x: Ref, y: Ref)
    requires Closed(g) && x in g && y in g && Agree(g, n, x, y)
    ensures Agree(g, n, y, x)
  {
    if n > 0 && x != y {
      forall i | 0 <= i < |Parts(g[y])| ensures Agree(g, n - 1, Parts(g[y])[i], Parts(g[x])[i]) {
        AgreeSymmetric(g, n - 1, Parts(g[x])[i], Parts(g[y])[i]);
      }
    }
  }

  lemma {:induction false} AgreeLess(g: Graph, n: nat, x: Ref, y: Ref)
    requires Closed(g) && x in g && y in g && Agree(g, n + 1, x, y)
    ensures Agree(g, n, x, y)
  {
    if n > 0 && x != y {
      forall i | 0 <= i < |Parts(g[x])| ensures Agree(g, n - 1, Parts(g[x])[i], Parts(g[y])[i]) {
        AgreeLess(g, n - 1, Parts(g[x])[i], Parts(g[y])[i]);
      }
    }
  }

  lemma {:induction false} StackAgreesLess(g: Graph, n: nat, p: Stack)
    requires Closed(g) && StackIn(g, p) && StackAgrees(g, n + 1, p)
    ensures StackAgrees(g, n, p)
  {
    if p.Pair? {
      AgreeLess(g, n, p.x, p.y);
      StackAgreesLess(g, n, p.prev);
    }
  }

  lemma {:induction false} OnStackAgrees(g: Graph, n: nat, p: Stack, x: Ref, y: Ref)
    requires Closed(g) && x in g && y in g && StackIn(g, p) && StackAgrees(g, n, p) && OnStack(p, x, y)
    ensures Agree(g, n, x, y)
  {
    if p.x == x && p.y == y {
    } else if p.x == y && p.y == x {
      AgreeSymmetric(g, n, y, x);
    } else {
      OnStackAgrees(g, n, p.prev, x, y);
    }
  }

  ghost predicate AllIdentical(g: Graph, rank: map<Ref, nat>, a: seq<Ref>, b: seq<Ref>, q: Stack)
    requires Ranked(g, rank)
    requires forall i :: 0 <= i < |a| ==> a[i] in g
    requires forall i :: 0 <= i < |b| ==> b[i] in g
  {
    |a| == |b| && forall i :: 0 <= i < |a| ==> IsIdenticalInternal(g, rank, a[i], b[i], q)
  }

  lemma AllIdenticalSmall(g: Graph, rank: map<Ref, nat>, a: seq<Ref>, b: seq<Ref>, q: Stack)
    requires Ranked(g, rank)
    requires forall i :: 0 <= i < |a| ==> a[i] in g
    requires forall i :: 0 <= i < |b| ==> b[i] in g
    requires |a| == |b| <= 2
    ensures AllIdentical(g, rank, a, b, q) <==>
            && (|a| > 0 ==> IsIdenticalInternal(g, rank, a[0], b[0], q))
            && (|a| > 1 ==> IsIdenticalInternal(g, rank, a[1], b[1], q))
  {}

  lemma StructHeads(g: Graph, x: Ref, y: Ref)
    requires x in g && y in g && g[x].Struct? && g[y].Struct?
    ensures var (f, h) := (g[x].fields, g[y].fields);
            SameHead(g, x, y) <==>
            |f| == |h| &&
            forall i :: 0 <= i < |f| ==>
              && f[i].anonymous == h[i].anonymous && f[i].tag == h[i].tag
              && SameId(f[i].pkg, f[i].name, h[i].pkg, h[i].name)
  {
    var f, h := g[x].fields, g[y].fields;
    var u, v := HeadOf(g[x]).labels, HeadOf(g[y]).labels;
    assert u == v <==> |f| == |h| && forall i :: 0 <= i < |f| ==> u[i] == v[i];
    if |f| == |h| {
      forall i | 0 <= i < |f|
        ensures u[i] == v[i] <==>
                && f[i].anonymous == h[i].anonymous && f[i].tag == h[i].tag
                && SameId(f[i].pkg, f[i].name, h[i].pkg, h[i].name)
      {}
    }
  }

  lemma InterfaceHeads(g: Graph, x: Ref, y: Ref)
    requires x in g && y in g && g[x].Interface? && g[y].Interface?
    ensures var (f, h) := (g[x].allMethods, g[y].allMethods);
            SameHead(g, x, y) <==>
            |f| == |h| &&
            forall i :: 0 <= i < |f| ==> Id(f[i].pkg, f[i].name) == Id(h[i].pkg, h[i].name)
  {
    var f, h := g[x].allMethods, g[y].allMethods;
    var u, v := HeadOf(g[x]).ids, HeadOf(g[y]).ids;
    assert u == v <==> |f| == |h| && forall i :: 0 <= i < |f| ==> u[i] == v[i];
    if |f| == |h| {
      forall i | 0 <= i < |f|
        ensures u[i] == v[i] <==> Id(f[i].pkg, f[i].name) == Id(h[i].pkg, h[i].name)
      {}
    }
  }

  lemma UnfoldStruct(g: Graph, rank: map<Ref, nat>, x: Ref, y: Ref, p: Stack)
    requires Ranked(g, rank) && x in g && y in g && x != y && g[x].Struct? && g[y].Struct?
    ensures IsIdenticalInternal(g, rank, x, y, p) <==>
            SameHead(g, x, y) && AllIdentical(g, rank, Parts(g[x]), Parts(g[y]), p)
  {
    StructHeads(g, x, y);
    var a, b := Parts(g[x]), Parts(g[y]);
    assert |a| == |g[x].fields| && |b| == |g[y].fields|;
    assert forall i :: 0 <= i < |a| ==> a[i] == g[x].fields[i].typ;
    assert forall i :: 0 <= i < |b| ==> b[i] == g[y].fields[i].typ;
  }

  lemma UnfoldInterface(g: Graph, rank: map<Ref, nat>, x: Ref, y: Ref, p: Stack)
    requires Ranked(g, rank) && x in g && y in g && x != y && g[x].Interface? && g[y].Interface?
    requires !OnStack(p, x, y)
    ensures IsIdenticalInternal(g, rank, x, y, p) <==>
            SameHead(g, x, y) && AllIdentical(g, rank, Parts(g[x]), Parts(g[y]), Pair(x, y, p))
  {
    InterfaceHeads(g, x, y);
    var a, b := Parts(g[x]), Parts(g[y]);
    assert |a| == |g[x].allMethods| && |b| == |g[y].allMethods|;
    assert forall i :: 0 <= i < |a| ==> a[i] == g[x].allMethods[i].typ;
    assert forall i :: 0 <= i < |b| ==> b[i] == g[y].allMethods[i].typ;
  }

  lemma UnfoldSmall(g: Graph, rank: map<Ref, nat>, x: Ref, y: Ref, p: Stack)
    requires Ranked(g, rank) && x in g && y in g && x != y
    requires !(g[x].Struct? && g[y].Struct?) && !(g[x].Interface? && g[y].Interface?)
    requires !(g[x].Tuple? && g[y].Tuple?)
    ensures IsIdenticalInternal(g, rank, x, y, p) ==>
            SameHead(g, x, y) && AllIdentical(g, rank, Parts(g[x]), Parts(g[y]), p)
    ensures SameHead(g, x, y) && AllIdentical(g, rank, Parts(g[x]), Parts(g[y]), p) ==>
            IsIdenticalInternal(g, rank, x, y, p)
  {
    if SameHead(g, x, y) {
      AllIdenticalSmall(g, rank, Parts(g[x]), Parts(g[y]), p);
    }
  }

  /** One unfolding of the algorithm: unless the answer comes from pointer equality or from the
      stack, it holds exactly when the heads are equal and all parts are found identical under
      the stack extended by an interface pair. */
  lemma Unfold(g: Graph, rank: map<Ref, nat>, x: Ref, y: Ref, p: Stack)
    requires Ranked(g, rank) && x in g && y in g && x != y
    requires !(g[x].Interface? && g[y].Interface? && OnStack(p, x, y))
    ensures var q := if g[x].Interface? then Pair(x, y, p) else p;
            IsIdenticalInternal(g, rank, x, y, p) <==>
            SameHead(g, x, y) && AllIdentical(g, rank, Parts(g[x]), Parts(g[y]), q)
  {
    var q := if g[x].Interface? then Pair(x, y, p) else p;
    var a, b := Parts(g[x]), Parts(g[y]);
    if g[x].Struct? && g[y].Struct? {
      UnfoldStruct(g, rank, x, y, p);
    } else if g[x].Interface? && g[y].Interface? {
      UnfoldInterface(g, rank, x, y, p);
    } else if g[x].Tuple? && g[y].Tuple? {
    } else {
      UnfoldSmall(g, rank, x, y, p);
    }
  }

  /** The positive answer for x and y under the stack p is explained: by pointer equality, by the
      stack, or by equal heads and positive answers for all parts. */
  ghost predicate Explained(g: Graph, yes: iset<(Ref, Ref, Stack)>, x: Ref, y: Ref, p: Stack) {
    && x in g && y in g
    && (x == y || OnStack(p, x, y) ||
        (SameHead(g, x, y) &&
         forall i :: 0 <= i < |Parts(g[x])| ==>
           (Parts(g[x])[i], Parts(g[y])[i], if g[x].Interface? then Pair(x, y, p) else p) in yes))
  }

  /** Soundness under assumptions: when every positive answer is explained, a positive answer is
      right to depth n as soon as the pairs on its stack agree to depth n. */
  lemma {:induction false} PositiveAgrees(g: Graph, yes: iset<(Ref, Ref, Stack)>, n: nat, x: Ref, y: Ref, p: Stack)
    requires Closed(g) && x in g && y in g && StackIn(g, p) && StackAgrees(g, n, p)
    requires forall a, b, q {:trigger Explained(g, yes, a, b, q)} :: (a, b, q) in yes ==> Explained(g, yes, a, b, q)
    requires (x, y, p) in yes
    ensures Agree(g, n, x, y)
    decreases n
  {
    assert Explained(g, yes, x, y, p);
    if n == 0 || x == y {
    } else if OnStack(p, x, y) {
      OnStackAgrees(g, n, p, x, y);
    } else {
      StackAgreesLess(g, n - 1, p);
      PositiveAgrees(g, yes, n - 1, x, y, p);
      var q := if g[x].Interface? then Pair(x, y, p) else p;
      var a, b := Parts(g[x]), Parts(g[y]);
      forall i | 0 <= i < |a| ensures Agree(g, n - 1, a[i], b[i]) {
        PositiveAgrees(g, yes, n - 1, a[i], b[i], q);
      }
    }
  }

  /** The answers of the algorithm. */
  ghost function Answers(g: Graph, rank: map<Ref, nat>): iset<(Ref, Ref, Stack)>
    requires Ranked(g, rank)
  {
    iset x, y, p | x in g && y in g && IsIdenticalInternal(g, rank, x, y, p) :: (x, y, p)
  }

  lemma AnswerExplained(g: Graph, rank: map<Ref, nat>, x: Ref, y: Ref, p: Stack)
    requires Ranked(g, rank) && (x, y, p) in Answers(g, rank)
    ensures Explained(g, Answers(g, rank), x, y, p)
  {
    if x != y && !OnStack(p, x, y) {
      Unfold(g, rank, x, y, p);
    }
  }

  /** Completeness under any assumptions: bisimilar types are never told apart. */
  lemma {:induction false} BisimilarAccepted(g: Graph, rank: map<Ref, nat>, r: set<(Ref, Ref)>, x: Ref, y: Ref, p: Stack)
    requires Ranked(g, rank) && Bisimulation(g, r) && (x, y) in r
    requires x in g && y in g
    ensures IsIdenticalInternal(g, rank, x, y, p)
    decreases |Unvisited(g, p)|, rank[x]
  {
    if x == y || (g[x].Interface? && g[y].Interface? && OnStack(p, x, y)) {
      assert Steps(g, r, x, y);
    } else {
      assert Steps(g, r, x, y);
      Unfold(g, rank, x, y, p);
      var q := if g[x].Interface? then Pair(x, y, p) else p;
      if g[x].Interface? {
        PushShrinks(g, p, x, y);
        ShrinkIsSmaller(Unvisited(g, q), Unvisited(g, p));
      }
      var a, b := Parts(g[x]), Parts(g[y]);
      forall i | 0 <= i < |a| ensures IsIdenticalInternal(g, rank, a[i], b[i], q) {
        BisimilarAccepted(g, rank, r, a[i], b[i], q);
      }
    }
  }

  /** Types that agree to every depth are bisimilar. */
  lemma AgreeingBisimilar(g: Graph, x: Ref, y: Ref)
    requires Closed(g) && x in g && y in g
    requires forall n: nat :: Agree(g, n, x, y)
    ensures Bisimilar(g, x, y)
  {
    var r := set a, b | a in g.Keys && b in g.Keys && (forall n: nat :: Agree(g, n, a, b)) :: (a, b);
    forall a, b | (a, b) in r
      ensures Steps(g, r, a, b)
    {
      assert Agree(g, 1, a, b);
      forall i | 0 <= i < |Parts(g[a])| ensures (Parts(g[a])[i], Parts(g[b])[i]) in r {
        forall n: nat ensures Agree(g, n, Parts(g[a])[i], Parts(g[b])[i]) {
          assert Agree(g, n + 1, a, b);
        }
      }
    }
    assert Bisimulation(g, r) && (x, y) in r;
  }

  /** Main result. With any stack of truly bisimilar pairs, and in particular with none, the
      comparison answers yes exactly for bisimilar types: taking a pair on the stack to be equal
      is sound and complete. */
  lemma IdenticalIffBisimilar(g: Graph, rank: map<Ref, nat>, x: Ref, y: Ref, p: Stack)
    requires Ranked(g, rank) && x in g && y in g && StackIn(g, p)
    requires forall a, b :: (a, b) in Pairs(p) ==> Bisimilar(g, a, b)
    ensures IsIdenticalInternal(g, rank, x, y, p) <==> Bisimilar(g, x, y)
  {
    if IsIdenticalInternal(g, rank, x, y, p) {
      var yes := Answers(g, rank);
      forall a, b, q | (a, b, q) in yes ensures Explained(g, yes, a, b, q) {
        AnswerExplained(g, rank, a, b, q);
      }
      forall n: nat ensures Agree(g, n, x, y) {
        BisimilarStackAgrees(g, n, p);
        PositiveAgrees(g, yes, n, x, y, p);
      }
      AgreeingBisimilar(g, x, y);
    }
    if Bisimilar(g, x, y) {
      var r :| Bisimulation(g, r) && (x, y) in r;
      BisimilarAccepted(g, rank, r, x, y, p);
    }
  }

  lemma {:induction false} BisimilarAgrees(g: Graph, r: set<(Ref, Ref)>, n: nat, x: Ref, y: Ref)
    requires Closed(g) && Bisimulation(g, r) && (x, y) in r && x in g && y in g
    ensures Agree(g, n, x, y)
  {
    if n > 0 {
      assert Steps(g, r, x, y);
      forall i | 0 <= i < |Parts(g[x])| ensures Agree(g, n - 1, Parts(g[x])[i], Parts(g[y])[i]) {
        BisimilarAgrees(g, r, n - 1, Parts(g[x])[i], Parts(g[y])[i]);
      }
    }
  }

  lemma {:induction false} BisimilarStackAgrees(g: Graph, n: nat, p: Stack)
    requires Closed(g) && StackIn(g, p)
    requires forall a, b :: (a, b) in Pairs(p) ==> Bisimilar(g, a, b)
    ensures StackAgrees(g, n, p)
  {
    if p.Pair? {
      assert (p.x, p.y) in Pairs(p);
      var r :| Bisimulation(g, r) && (p.x, p.y) in r;
      BisimilarAgrees(g, r, n, p.x, p.y);
      BisimilarStackAgrees(g, n, p.prev);
    }
  }

  /** `IsIdentical` is an equivalence relation on types, although it is computed with an
      asymmetric descent and an assumption stack. */
  lemma IdentityIsEquivalence(g: Graph, rank: map<Ref, nat>, x: Ref, y: Ref, z: Ref)
    requires Ranked(g, rank) && x in g && y in g && z in g
    ensures IsIdentical(g, rank, x, x)
    ensures IsIdentical(g, rank, x, y) <==> IsIdentical(g, rank, y, x)
    ensures IsIdentical(g, rank, x, y) && IsIdentical(g, rank, y, z) ==> IsIdentical(g, rank, x, z)
  {
    IdenticalIffBisimilar(g, rank, x, y, Empty);
    IdenticalIffBisimilar(g, rank, y, x, Empty);
    IdenticalIffBisimilar(g, rank, y, z, Empty);
    IdenticalIffBisimilar(g, rank, x, z, Empty);
    if Bisimilar(g, x, y) { BisimilarSymmetric(g, x, y); }
    if Bisimilar(g, y, x) { BisimilarSymmetric(g, y, x); }
    if Bisimilar(g, x, y) && Bisimilar(g, y, z) { BisimilarTransitive(g, x, y, z); }
  }

  lemma BisimilarSymmetric(g: Graph, x: Ref, y: Ref)
    requires Bisimilar(g, x, y)
    ensures Bisimilar(g, y, x)
  {
    var r :| Bisimulation(g, r) && (x, y) in r;
    var s := set a, b | (b, a) in r && a in g.Keys && b in g.Keys :: (a, b);
    forall a, b | (a, b) in s ensures Steps(g, s, a, b) {
      assert Steps(g, r, b, a);
      forall i | 0 <= i < |Parts(g[a])| ensures (Parts(g[a])[i], Parts(g[b])[i]) in s {
        assert Steps(g, r, Parts(g[b])[i], Parts(g[a])[i]);
      }
    }
    assert Steps(g, r, x, y) && (y, x) in s && Bisimulation(g, s);
  }

  lemma BisimilarTransitive(g: Graph, x: Ref, y: Ref, z: Ref)
    requires Bisimilar(g, x, y) && Bisimilar(g, y, z)
    ensures Bisimilar(g, x, z)
  {
    var r :| Bisimulation(g, r) && (x, y) in r;
    var s :| Bisimulation(g, s) && (y, z) in s;
    var t := set a, b, c | (a, b) in r && (b, c) in s && a in g.Keys && c in g.Keys && b in g.Keys :: (a, c);
    forall a, c | (a, c) in t ensures Steps(g, t, a, c) {
      var b :| (a, b) in r && (b, c) in s && b in g.Keys;
      ComposeSteps(g, r, s, t, a, b, c);
    }
    assert Steps(g, r, x, y) && Steps(g, s, y, z) && (x, z) in t && Bisimulation(g, t);
  }

  lemma ComposeSteps(g: Graph, r: set<(Ref, Ref)>, s: set<(Ref, Ref)>, t: set<(Ref, Ref)>, a: Ref, b: Ref, c: Ref)
    requires Bisimulation(g, r) && Bisimulation(g, s) && (a, b) in r && (b, c) in s
    requires forall a, b, c :: (a, b) in r && (b, c) in s && a in g && b in g && c in g ==> (a, c) in t
    ensures Steps(g, t, a, c)
  {
    assert Steps(g, r, a, b) && Steps(g, s, b, c);
    forall i | 0 <= i < |Parts(g[a])| ensures (Parts(g[a])[i], Parts(g[c])[i]) in t {
      var u, v, w := Parts(g[a])[i], Parts(g[b])[i], Parts(g[c])[i];
      assert Steps(g, r, u, v) && Steps(g, s, v, w);
    }
  }
}
