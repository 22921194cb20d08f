/** Targets of goto statements (go/types/labels.go): the one-pass resolver of forward jumps against
    the rule of the language. */
module Labels {
  import opened Sealing

  /** Statements, as far as gotos are concerned. Parts are statements of the same block one after the
      other, like the branches of an if statement; a goto has an identity. */
  datatype Stmt =
    | Other
    | VarDecl
    | Labeled(name: string, stmt: Stmt)
    | Goto(id: nat, name: string)
    | Block(list: seq<Stmt>)
    | Parts(parts: seq<Stmt>)

  // ---------------------------------------------------------------------------
  // The rule

  /** A block is known by the numbers of the nested blocks on the way to it. */
  type Place = seq<nat>

  /** What happens in a body, in the order of the text, each in its block. */
  datatype Event =
    | Var(block: Place)
    | Lab(name: string, block: Place)
    | Jump(id: nat, name: string, block: Place)

  /** The blocks that a statement opens directly in its own. */
  function Opens(s: Stmt): nat {
    match s
    case Labeled(_, t) => Opens(t)
    case Block(_) => 1
    case Parts(parts) => OpensList(parts, 0)
    case _ => 0
  }

  function OpensList(list: seq<Stmt>, i: nat): nat
    decreases list, |list| - i
  {
    if i >= |list| then 0 else Opens(list[i]) + OpensList(list, i + 1)
  }

  /** The events of a statement in block b, where k nested blocks have been opened before. */
  function Trace(s: Stmt, b: Place, k: nat): seq<Event> {
    match s
    case Other => []
    case VarDecl => [Var(b)]
    case Labeled(name, t) => [Lab(name, b)] + Trace(t, b, k)
    case Goto(id, name) => [Jump(id, name, b)]
    case Block(list) => TraceList(list, 0, b + [k], 0)
    case Parts(parts) => TraceList(parts, 0, b, k)
  }

  function TraceList(list: seq<Stmt>, i: nat, b: Place, k: nat): seq<Event>
    decreases list, |list| - i
  {
    if i >= |list| then [] else Trace(list[i], b, k) + TraceList(list, i + 1, b, k + Opens(list[i]))
  }

  /** Event j declares the label of the goto that is event i, in a block around that goto. */
  predicate Target(tr: seq<Event>, i: nat, j: nat)
    requires i < |tr| && j < |tr|
  {
    tr[i].Jump? && tr[j].Lab? && tr[j].name == tr[i].name && tr[j].block <= tr[i].block
  }

  /** A variable is declared in block b between events i and j. */
  ghost predicate VarAfter(tr: seq<Event>, i: nat, j: nat, b: Place) {
    exists m: nat :: i < m < j && m < |tr| && tr[m] == Var(b)
  }

  /** The jump is forward over a variable declaration in the label's own block. */
  ghost predicate OverVar(tr: seq<Event>, i: nat, j: nat)
    requires i < |tr| && j < |tr|
  {
    Target(tr, i, j) && VarAfter(tr, i, j, tr[j].block)
  }

  predicate LabelAt(tr: seq<Event>, j: nat, name: string) {
    j < |tr| && tr[j].Lab? && tr[j].name == name
  }

  /** A blank label introduces no binding. */
  const BLANK := "_"

  /** A label is declared somewhere in the body. */
  ghost predicate Declares(tr: seq<Event>, name: string) {
    name != BLANK && exists j: nat :: LabelAt(tr, j, name)
  }

  ghost predicate HasTarget(tr: seq<Event>, i: nat)
    requires i < |tr|
  {
    exists j: nat :: j < |tr| && Target(tr, i, j)
  }

  datatype Problem = JumpsOverVariable | JumpsIntoBlock | NotDeclared

  /** The rule for the goto that is event i. */
  ghost predicate Violates(tr: seq<Event>, i: nat, p: Problem)
    requires i < |tr|
  {
    tr[i].Jump? &&
    match p
    case NotDeclared => !Declares(tr, tr[i].name)
    case JumpsIntoBlock => Declares(tr, tr[i].name) && !HasTarget(tr, i)
    case JumpsOverVariable => Declares(tr, tr[i].name) && exists j: nat :: j < |tr| && OverVar(tr, i, j)
  }

  /** Labels are declared once, blank ones aside, and each goto has its own identity. */
  ghost predicate Distinct(tr: seq<Event>) {
    forall i, j :: 0 <= i < j < |tr| ==>
      && !(tr[i].Lab? && tr[j].Lab? && tr[i].name == tr[j].name != BLANK)
      && !(tr[i].Jump? && tr[j].Jump? && tr[i].id == tr[j].id)
  }

  /** A label is declared more than once. */
  ghost predicate Redeclared(tr: seq<Event>, name: string) {
    name != BLANK && exists i: nat, j: nat :: i < j < |tr| && LabelAt(tr, i, name) && LabelAt(tr, j, name)
  }

  /** A goto that names the blank label, in a block with such a label in it or around it. */
  ghost predicate BlankMet(tr: seq<Event>) {
    exists i: nat :: i < |tr| && tr[i].Jump? && tr[i].name == BLANK && HasTarget(tr, i)
  }

  /** The same, with the label before the goto. */
  ghost predicate BlankBack(tr: seq<Event>) {
    exists i: nat, j: nat :: j < i < |tr| && Target(tr, i, j) && tr[i].name == BLANK
  }

  /** A label is named by a goto. */
  ghost predicate Wanted(tr: seq<Event>, name: string) {
    exists i: nat :: i < |tr| && tr[i].Jump? && tr[i].name == name
  }

  // ---------------------------------------------------------------------------
  // What the resolver knows after some events

  /** A goto statement. */
  datatype Branch = Branch(id: nat, name: string)

  predicate IsJump(tr: seq<Event>, i: nat, x: Branch) {
    i < |tr| && tr[i].Jump? && tr[i].id == x.id && tr[i].name == x.name
  }

  /** A label of block b or of a block around it. */
  ghost predicate InScope(tr: seq<Event>, b: Place, name: string) {
    exists j: nat :: LabelAt(tr, j, name) && tr[j].block <= b
  }

  ghost predicate ScopeOk(tr: seq<Event>, b: Place, known: set<string>) {
    forall name :: name in known <==> InScope(tr, b, name)
  }

  /** Block b began after t0 events and has opened k blocks. */
  ghost predicate PlacesOk(tr: seq<Event>, t0: nat, b: Place, k: nat) {
    && t0 <= |tr|
    && (forall i: nat :: i < t0 ==> !(b <= tr[i].block))
    && (forall i: nat :: t0 <= i < |tr| ==> Within(tr[i].block, b, k))
  }

  predicate Within(p: Place, b: Place, k: nat) {
    b <= p && (|b| < |p| ==> p[|b|] < k)
  }

  /** The forward jumps of a block are its gotos without a target so far. */
  ghost predicate FwdOk(tr: seq<Event>, t0: nat, fwd: seq<Branch>) {
    forall x :: x in fwd <==> Pending(tr, t0, x)
  }

  ghost predicate Pending(tr: seq<Event>, t0: nat, x: Branch) {
    exists i: nat :: t0 <= i && IsJump(tr, i, x) && !HasTarget(tr, i)
  }

  /** The bad ones among them are those before a variable declaration of the block. */
  ghost predicate BadOk(tr: seq<Event>, t0: nat, b: Place, fwd: seq<Branch>, bad: seq<Branch>) {
    && (forall x :: x in bad ==> exists i: nat :: IsJump(tr, i, x))
    && (forall i: nat, x :: t0 <= i && IsJump(tr, i, x) && x in fwd ==> (x in bad <==> VarAfter(tr, i, |tr|, b)))
  }

  /** The errors so far are the jumps over variables. */
  ghost predicate ErrorsOk(tr: seq<Event>, errors: set<(nat, Problem)>) {
    forall id: nat, p :: (id, p) in errors <==> p == JumpsOverVariable && Crossing(tr, id)
  }

  /** The first target of a goto makes it a jump over a variable. */
  ghost predicate Crosses(tr: seq<Event>, i: nat, j: nat)
    requires i < |tr| && j < |tr|
  {
    OverVar(tr, i, j) && forall k: nat :: k < j ==> !Target(tr, i, k)
  }

  ghost predicate Crossing(tr: seq<Event>, id: nat) {
    exists i: nat, j: nat :: i < |tr| && j < |tr| && Crosses(tr, i, j) && tr[i].id == id
  }

  /** The labels used so far are the targets of gotos. */
  ghost predicate UsedOk(tr: seq<Event>, used: set<string>) {
    forall name :: name in used <==> Hit(tr, name)
  }

  ghost predicate Hit(tr: seq<Event>, name: string) {
    exists i: nat :: i < |tr| && tr[i].Jump? && tr[i].name == name && HasTarget(tr, i)
  }

  ghost predicate NamesOk(tr: seq<Event>, all: set<string>, again: set<string>) {
    && (forall name :: name in all <==> Declares(tr, name))
    && (forall name :: name in again <==> Redeclared(tr, name))
  }

  // ---------------------------------------------------------------------------
  // One more event

  lemma InScopeStep(tr: seq<Event>, e: Event, b: Place, name: string)
    ensures InScope(tr + [e], b, name) <==> InScope(tr, b, name) || (e.Lab? && e.name == name && e.block <= b)
  {
    var tr' := tr + [e];
    if InScope(tr, b, name) {
      var j: nat :| LabelAt(tr, j, name) && tr[j].block <= b;
      assert LabelAt(tr', j, name) && tr'[j] == tr[j];
    }
    if e.Lab? && e.name == name && e.block <= b {
      assert LabelAt(tr', |tr|, name);
    }
    if InScope(tr', b, name) {
      var j: nat :| LabelAt(tr', j, name) && tr'[j].block <= b;
      if j < |tr| {
        assert LabelAt(tr, j, name);
      }
    }
  }

  lemma HasTargetStep(tr: seq<Event>, e: Event, i: nat)
    requires i < |tr|
    ensures HasTarget(tr + [e], i) <==> HasTarget(tr, i) || Reaches(tr, e, i)
  {
    var tr' := tr + [e];
    if HasTarget(tr, i) {
      var j: nat :| j < |tr| && Target(tr, i, j);
      assert Target(tr', i, j);
    }
    if Reaches(tr, e, i) {
      assert Target(tr', i, |tr|);
    }
    if HasTarget(tr', i) {
      var j: nat :| j < |tr'| && Target(tr', i, j);
      if j < |tr| {
        assert Target(tr, i, j);
      }
    }
  }

  lemma HasTargetIsInScope(tr: seq<Event>, i: nat)
    requires i < |tr| && tr[i].Jump?
    ensures HasTarget(tr, i) <==> InScope(tr, tr[i].block, tr[i].name)
  {
    if HasTarget(tr, i) {
      var j: nat :| j < |tr| && Target(tr, i, j);
      assert LabelAt(tr, j, tr[i].name);
    }
    if InScope(tr, tr[i].block, tr[i].name) {
      var j: nat :| LabelAt(tr, j, tr[i].name) && tr[j].block <= tr[i].block;
      assert Target(tr, i, j);
    }
  }

  lemma VarAfterStep(tr: seq<Event>, e: Event, i: nat, j: nat, b: Place)
    requires j <= |tr|
    ensures VarAfter(tr + [e], i, j, b) <==> VarAfter(tr, i, j, b)
  {
    var tr' := tr + [e];
    if VarAfter(tr, i, j, b) {
      var m: nat :| i < m < j && m < |tr| && tr[m] == Var(b);
      assert tr'[m] == Var(b);
    }
    if VarAfter(tr', i, j, b) {
      var m: nat :| i < m < j && m < |tr'| && tr'[m] == Var(b);
      assert tr[m] == Var(b);
    }
  }

  lemma VarAfterLonger(tr: seq<Event>, e: Event, i: nat, b: Place)
    requires i < |tr|
    ensures VarAfter(tr + [e], i, |tr| + 1, b) <==> VarAfter(tr, i, |tr|, b) || e == Var(b)
  {
    VarAfterStep(tr, e, i, |tr|, b);
    var tr' := tr + [e];
    if e == Var(b) {
      assert tr'[|tr|] == Var(b);
    }
  }

  lemma CrossingStep(tr: seq<Event>, e: Event, id: nat)
    ensures Crossing(tr + [e], id) <==> Crossing(tr, id) || CrossedBy(tr, e, id)
  {
    var tr' := tr + [e];
    if Crossing(tr, id) {
      var i: nat, j: nat :| i < |tr| && j < |tr| && Crosses(tr, i, j) && tr[i].id == id;
      CrossesStep(tr, e, i, j);
    }
    if CrossedBy(tr, e, id) {
      var i: nat :| i < |tr| && Reaches(tr, e, i) && tr[i].id == id && VarAfter(tr, i, |tr|, e.block) && !HasTarget(tr, i);
      VarAfterStep(tr, e, i, |tr|, e.block);
      assert forall k: nat :: k < |tr| ==> Target(tr', i, k) == Target(tr, i, k);
      assert Crosses(tr', i, |tr|);
    }
    if Crossing(tr', id) {
      var i: nat, j: nat :| i < |tr'| && j < |tr'| && Crosses(tr', i, j) && tr'[i].id == id;
      var m: nat :| i < m < j && m < |tr'| && tr'[m] == Var(tr'[j].block);
      VarAfterStep(tr, e, i, j, tr'[j].block);
      if j < |tr| {
        CrossesStep(tr, e, i, j);
      } else {
        assert forall k: nat :: k < |tr| ==> Target(tr', i, k) == Target(tr, i, k);
        assert Reaches(tr, e, i);
      }
    }
  }

  lemma CrossesStep(tr: seq<Event>, e: Event, i: nat, j: nat)
    requires i < |tr| && j < |tr|
    ensures Crosses(tr + [e], i, j) <==> Crosses(tr, i, j)
  {
    VarAfterStep(tr, e, i, j, tr[j].block);
    assert forall k: nat :: k <= j ==> Target(tr + [e], i, k) == Target(tr, i, k);
  }

  /** The label e is a target of the goto i. */
  predicate Reaches(tr: seq<Event>, e: Event, i: nat) {
    i < |tr| && e.Lab? && tr[i].Jump? && e.name == tr[i].name && e.block <= tr[i].block
  }

  /** The label e, as the first target, makes the goto with this identity a jump over a variable. */
  ghost predicate CrossedBy(tr: seq<Event>, e: Event, id: nat) {
    exists i: nat :: i < |tr| && Reaches(tr, e, i) && tr[i].id == id && VarAfter(tr, i, |tr|, e.block) && !HasTarget(tr, i)
  }

  lemma DistinctPrefix(tr: seq<Event>, more: seq<Event>)
    requires Distinct(tr + more)
    ensures Distinct(tr)
  {
    var all := tr + more;
    forall i, j | 0 <= i < j < |tr|
      ensures !(tr[i].Lab? && tr[j].Lab? && tr[i].name == tr[j].name != BLANK)
      ensures !(tr[i].Jump? && tr[j].Jump? && tr[i].id == tr[j].id)
    {
      assert all[i] == tr[i] && all[j] == tr[j];
    }
  }

  lemma PlacesStep(tr: seq<Event>, e: Event, t0: nat, b: Place, k: nat)
    requires PlacesOk(tr, t0, b, k) && e.block == b
    ensures PlacesOk(tr + [e], t0, b, k)
  {
  }

  /** Only the labels of its own block and of blocks around can catch a goto that is still pending. */
  lemma ReachesPending(tr: seq<Event>, e: Event, t0: nat, b: Place, k: nat, i: nat)
    requires PlacesOk(tr, t0, b, k) && e.Lab? && e.block == b && i < |tr| && tr[i].Jump?
    ensures Reaches(tr, e, i) <==> t0 <= i && e.name == tr[i].name
  {
    if t0 <= i {
      assert Within(tr[i].block, b, k);
    }
  }

  lemma PendingStep(tr: seq<Event>, e: Event, t0: nat, b: Place, k: nat, x: Branch)
    requires PlacesOk(tr, t0, b, k) && e.block == b
    ensures Pending(tr + [e], t0, x) <==>
      (Pending(tr, t0, x) && !(e.Lab? && e.name == x.name)) ||
      (e == Jump(x.id, x.name, b) && !InScope(tr, b, x.name))
  {
    var tr' := tr + [e];
    if Pending(tr, t0, x) && !(e.Lab? && e.name == x.name) {
      var i: nat :| t0 <= i && IsJump(tr, i, x) && !HasTarget(tr, i);
      HasTargetStep(tr, e, i);
      assert IsJump(tr', i, x) && !HasTarget(tr', i);
    }
    if e == Jump(x.id, x.name, b) {
      HasTargetIsInScope(tr', |tr|);
      InScopeStep(tr, e, b, x.name);
      assert IsJump(tr', |tr|, x);
    }
    if Pending(tr', t0, x) {
      var i: nat :| t0 <= i && IsJump(tr', i, x) && !HasTarget(tr', i);
      if i < |tr| {
        HasTargetStep(tr, e, i);
        if e.Lab? {
          ReachesPending(tr, e, t0, b, k, i);
        }
        assert IsJump(tr, i, x);
      }
    }
  }

  /** A label reaches gotos that were pending, or had a target before. */
  lemma HitStep(tr: seq<Event>, e: Event, t0: nat, b: Place, k: nat, name: string)
    requires PlacesOk(tr, t0, b, k) && e.block == b
    ensures Hit(tr + [e], name) <==>
      Hit(tr, name) || (e.Lab? && e.name == name && SomePending(tr, t0, name)) || (e.Jump? && e.name == name && InScope(tr, b, name))
  {
    var tr' := tr + [e];
    if Hit(tr, name) {
      var i: nat :| i < |tr| && tr[i].Jump? && tr[i].name == name && HasTarget(tr, i);
      HasTargetStep(tr, e, i);
      assert tr'[i] == tr[i];
    }
    if e.Lab? && e.name == name && SomePending(tr, t0, name) {
      var x :| Pending(tr, t0, x) && x.name == name;
      var i: nat :| t0 <= i && IsJump(tr, i, x) && !HasTarget(tr, i);
      HasTargetStep(tr, e, i);
      ReachesPending(tr, e, t0, b, k, i);
      assert tr'[i] == tr[i];
    }
    if e.Jump? && e.name == name {
      HasTargetIsInScope(tr', |tr|);
      InScopeStep(tr, e, b, name);
      assert tr'[|tr|] == e;
    }
    if Hit(tr', name) {
      var i: nat :| i < |tr'| && tr'[i].Jump? && tr'[i].name == name && HasTarget(tr', i);
      if i < |tr| {
        HasTargetStep(tr, e, i);
        if HasTarget(tr, i) {
          assert Hit(tr, name);
        } else {
          ReachesPending(tr, e, t0, b, k, i);
          var x := Branch(tr[i].id, name);
          assert IsJump(tr, i, x);
          assert Pending(tr, t0, x);
        }
      }
    }
  }

  ghost predicate SomePending(tr: seq<Event>, t0: nat, name: string) {
    exists x :: Pending(tr, t0, x) && x.name == name
  }

  lemma NamesStep(tr: seq<Event>, e: Event, all: set<string>, again: set<string>)
    requires NamesOk(tr, all, again)
    ensures !e.Lab? ==> NamesOk(tr + [e], all, again)
    ensures e.Lab? ==> NamesOk(tr + [e], if e.name == BLANK then all else all + {e.name}, if e.name in all then again + {e.name} else again)
  {
    forall name
      ensures Declares(tr + [e], name) <==> Declares(tr, name) || (e.Lab? && e.name == name != BLANK)
      ensures Redeclared(tr + [e], name) <==> Redeclared(tr, name) || (e.Lab? && e.name == name && Declares(tr, name))
    {
      DeclaresStep(tr, e, name);
      RedeclaredStep(tr, e, name);
    }
  }

  lemma DeclaresStep(tr: seq<Event>, e: Event, name: string)
    ensures Declares(tr + [e], name) <==> Declares(tr, name) || (e.Lab? && e.name == name != BLANK)
  {
    var tr' := tr + [e];
    if Declares(tr, name) {
      var j: nat :| LabelAt(tr, j, name);
      assert LabelAt(tr', j, name);
    }
    if e.Lab? && e.name == name {
      assert LabelAt(tr', |tr|, name);
    }
    if Declares(tr', name) {
      var j: nat :| LabelAt(tr', j, name);
      assert j < |tr| ==> LabelAt(tr, j, name);
    }
  }

  lemma RedeclaredStep(tr: seq<Event>, e: Event, name: string)
    ensures Redeclared(tr + [e], name) <==> Redeclared(tr, name) || (e.Lab? && e.name == name && Declares(tr, name))
  {
    var tr' := tr + [e];
    if Redeclared(tr, name) {
      var i: nat, j: nat :| i < j < |tr| && LabelAt(tr, i, name) && LabelAt(tr, j, name);
      assert LabelAt(tr', i, name) && LabelAt(tr', j, name);
    }
    if e.Lab? && e.name == name && Declares(tr, name) {
      var i: nat :| LabelAt(tr, i, name);
      assert LabelAt(tr', i, name) && LabelAt(tr', |tr|, name);
    }
    if Redeclared(tr', name) {
      var i: nat, j: nat :| i < j < |tr'| && LabelAt(tr', i, name) && LabelAt(tr', j, name);
      assert LabelAt(tr, i, name);
      assert j < |tr| ==> LabelAt(tr, j, name);
    }
  }

  // ---------------------------------------------------------------------------
  // What one block knows

  /** The view of the resolver inside a block. */
  datatype View = View(known: set<string>, fwd: seq<Branch>, bad: seq<Branch>, used: set<string>, errors: set<(nat, Problem)>)

  ghost predicate ViewOk(tr: seq<Event>, t0: nat, b: Place, v: View) {
    && ScopeOk(tr, b, v.known) && FwdOk(tr, t0, v.fwd) && BadOk(tr, t0, b, v.fwd, v.bad)
    && ErrorsOk(tr, v.errors) && UsedOk(tr, v.used)
  }

  /** A variable declaration makes all forward jumps bad. */
  lemma VarStep(tr: seq<Event>, t0: nat, b: Place, k: nat, v: View)
    requires PlacesOk(tr, t0, b, k) && ViewOk(tr, t0, b, v)
    ensures ViewOk(tr + [Var(b)], t0, b, v.(bad := v.fwd))
  {
    var e := Var(b);
    var tr' := tr + [e];
    forall name ensures InScope(tr', b, name) <==> InScope(tr, b, name) { InScopeStep(tr, e, b, name); }
    forall x ensures Pending(tr', t0, x) <==> Pending(tr, t0, x) { PendingStep(tr, e, t0, b, k, x); }
    forall id: nat ensures Crossing(tr', id) <==> Crossing(tr, id) { CrossingStep(tr, e, id); }
    forall name ensures Hit(tr', name) <==> Hit(tr, name) { HitStep(tr, e, t0, b, k, name); }
    forall i: nat, x | t0 <= i && IsJump(tr', i, x) && x in v.fwd
      ensures VarAfter(tr', i, |tr'|, b)
    {
      assert tr'[|tr|] == Var(b);
    }
    forall x | x in v.fwd
      ensures exists i: nat :: IsJump(tr', i, x)
    {
      assert Pending(tr', t0, x);
    }
  }

  /** A goto without a target so far becomes a forward jump. */
  lemma JumpStep(tr: seq<Event>, t0: nat, b: Place, k: nat, v: View, id: nat, name: string)
    requires PlacesOk(tr, t0, b, k) && ViewOk(tr, t0, b, v) && Distinct(tr + [Jump(id, name, b)])
    ensures ViewOk(tr + [Jump(id, name, b)], t0, b,
              if name in v.known then v.(used := v.used + {name}) else v.(fwd := v.fwd + [Branch(id, name)]))
  {
    var e := Jump(id, name, b);
    var tr' := tr + [e];
    var v' := if name in v.known then v.(used := v.used + {name}) else v.(fwd := v.fwd + [Branch(id, name)]);
    forall n ensures InScope(tr', b, n) <==> InScope(tr, b, n) { InScopeStep(tr, e, b, n); }
    forall x ensures Pending(tr', t0, x) <==> Pending(tr, t0, x) || (x == Branch(id, name) && name !in v.known) {
      PendingStep(tr, e, t0, b, k, x);
    }
    forall i: nat ensures Crossing(tr', i) <==> Crossing(tr, i) { CrossingStep(tr, e, i); }
    forall n ensures Hit(tr', n) <==> Hit(tr, n) || (n == name && name in v.known) { HitStep(tr, e, t0, b, k, n); }
    JumpStepBad(tr, t0, b, v.fwd, v.bad, id, name);
  }

  lemma JumpStepBad(tr: seq<Event>, t0: nat, b: Place, fwd: seq<Branch>, bad: seq<Branch>, id: nat, name: string)
    requires BadOk(tr, t0, b, fwd, bad) && FwdOk(tr, t0, fwd) && Distinct(tr + [Jump(id, name, b)])
    ensures BadOk(tr + [Jump(id, name, b)], t0, b, fwd, bad)
    ensures BadOk(tr + [Jump(id, name, b)], t0, b, fwd + [Branch(id, name)], bad)
  {
    var e := Jump(id, name, b);
    var tr' := tr + [e];
    forall x, i: nat | IsJump(tr, i, x)
      ensures x.id != id && IsJump(tr', i, x)
    {
      assert tr'[i].Jump? && tr'[|tr|].Jump? && tr'[|tr|] == e;
    }
    forall i: nat, x | t0 <= i && IsJump(tr', i, x) && x in fwd + [Branch(id, name)]
      ensures x in bad <==> VarAfter(tr', i, |tr'|, b)
    {
      if i < |tr| {
        assert IsJump(tr, i, x);
        VarAfterLonger(tr, e, i, b);
      }
    }
  }

  // ---------------------------------------------------------------------------
  // Labels

  /** The forward jumps that a label does not resolve. */
  function Unmatched(fwd: seq<Branch>, name: string): (r: seq<Branch>)
    ensures forall x :: x in r <==> x in fwd && x.name != name
  {
    if fwd == [] then []
    else
      var rest := Unmatched(fwd[..|fwd| - 1], name);
      var last := fwd[|fwd| - 1];
      if last.name == name then rest else rest + [last]
  }

  lemma UnmatchedStep(done: seq<Branch>, x: Branch, name: string)
    ensures Unmatched(done + [x], name) == if x.name == name then Unmatched(done, name) else Unmatched(done, name) + [x]
  {
    assert (done + [x])[..|done|] == done;
  }

  /** A resolved forward jump is an error when it is a bad one. */
  ghost predicate Resolves(fwd: seq<Branch>, bad: seq<Branch>, name: string, id: nat) {
    Branch(id, name) in fwd && Branch(id, name) in bad
  }

  ghost predicate Adds(errors: set<(nat, Problem)>, errors': set<(nat, Problem)>, fwd: seq<Branch>, bad: seq<Branch>, name: string) {
    forall z: nat {:trigger Seal(z)} :: Seal(z) ==>
      forall id: nat, p :: (id, p) in errors' <==> (id, p) in errors || (p == JumpsOverVariable && Resolves(fwd, bad, name, id))
  }

  ghost predicate Named(fwd: seq<Branch>, name: string) {
    exists x :: x in fwd && x.name == name
  }

  /** The first n forward jumps are sorted. */
  ghost predicate Sorted(fwd: seq<Branch>, n: nat, bad: seq<Branch>, name: string, errors: set<(nat, Problem)>,
                         kept: seq<Branch>, any: bool, errors': set<(nat, Problem)>)
    requires n <= |fwd|
  {
    forall z: nat {:trigger Seal(z)} :: Seal(z) ==>
      && kept == Unmatched(fwd[..n], name) && (any <==> Named(fwd[..n], name))
      && Adds(errors, errors', fwd[..n], bad, name)
  }

  lemma SortStart(fwd: seq<Branch>, bad: seq<Branch>, name: string, errors: set<(nat, Problem)>)
    ensures Sorted(fwd, 0, bad, name, errors, [], false, errors)
  {
    AddsNone(errors, bad, name);
    assert fwd[..0] == [];
  }

  lemma SortStep(fwd: seq<Branch>, n: nat, bad: seq<Branch>, name: string, errors: set<(nat, Problem)>,
                 kept: seq<Branch>, any: bool, errors': set<(nat, Problem)>)
    requires n < |fwd| && Sorted(fwd, n, bad, name, errors, kept, any, errors')
    ensures var x := fwd[n];
            Sorted(fwd, n + 1, bad, name, errors, if x.name == name then kept else kept + [x], any || x.name == name,
              if x.name == name && x in bad then errors' + {(x.id, JumpsOverVariable)} else errors')
  {
    var done, x := fwd[..n], fwd[n];
    SortedNow(fwd, n, bad, name, errors, kept, any, errors');
    ResolveStep(errors, errors', done, x, bad, name);
    UnmatchedStep(done, x, name);
    assert fwd[..n + 1] == done + [x];
  }

  lemma SortedNow(fwd: seq<Branch>, n: nat, bad: seq<Branch>, name: string, errors: set<(nat, Problem)>,
                  kept: seq<Branch>, any: bool, errors': set<(nat, Problem)>)
    requires n <= |fwd| && Sorted(fwd, n, bad, name, errors, kept, any, errors')
    ensures kept == Unmatched(fwd[..n], name) && (any <==> Named(fwd[..n], name)) && Adds(errors, errors', fwd[..n], bad, name)
  {
    assert Seal(0);
  }

  lemma SortEnd(fwd: seq<Branch>, bad: seq<Branch>, name: string, errors: set<(nat, Problem)>,
                kept: seq<Branch>, any: bool, errors': set<(nat, Problem)>)
    requires Sorted(fwd, |fwd|, bad, name, errors, kept, any, errors')
    ensures kept == Unmatched(fwd, name) && (any <==> Named(fwd, name)) && Adds(errors, errors', fwd, bad, name)
  {
    assert fwd[..|fwd|] == fwd;
    SortedNow(fwd, |fwd|, bad, name, errors, kept, any, errors');
  }

  lemma AddsNone(errors: set<(nat, Problem)>, bad: seq<Branch>, name: string)
    ensures Adds(errors, errors, [], bad, name)
  {
  }

  lemma ResolveStep(errors: set<(nat, Problem)>, errors': set<(nat, Problem)>, done: seq<Branch>, x: Branch, bad: seq<Branch>, name: string)
    requires Adds(errors, errors', done, bad, name)
    ensures Adds(errors, if x.name == name && x in bad then errors' + {(x.id, JumpsOverVariable)} else errors', done + [x], bad, name)
    ensures Named(done + [x], name) <==> Named(done, name) || x.name == name
  {
    assert Seal(0);
    if Named(done, name) {
      var y :| y in done && y.name == name;
      assert y in done + [x];
    }
    assert x in done + [x];
    assert x.name == name ==> x == Branch(x.id, name);
  }

  lemma CrossedIsBad(tr: seq<Event>, t0: nat, b: Place, k: nat, v: View, name: string, id: nat)
    requires PlacesOk(tr, t0, b, k) && ViewOk(tr, t0, b, v)
    ensures CrossedBy(tr, Lab(name, b), id) <==> Resolves(v.fwd, v.bad, name, id)
  {
    var e := Lab(name, b);
    var x := Branch(id, name);
    if CrossedBy(tr, e, id) {
      var i: nat :| i < |tr| && Reaches(tr, e, i) && tr[i].id == id && VarAfter(tr, i, |tr|, b) && !HasTarget(tr, i);
      ReachesPending(tr, e, t0, b, k, i);
      assert IsJump(tr, i, x) && Pending(tr, t0, x);
    }
    if Resolves(v.fwd, v.bad, name, id) {
      assert Pending(tr, t0, x);
      var i: nat :| t0 <= i && IsJump(tr, i, x) && !HasTarget(tr, i);
      ReachesPending(tr, e, t0, b, k, i);
    }
  }

  lemma LabelStep(tr: seq<Event>, t0: nat, b: Place, k: nat, v: View, name: string, errors: set<(nat, Problem)>, used: set<string>)
    requires PlacesOk(tr, t0, b, k) && ViewOk(tr, t0, b, v)
    requires Adds(v.errors, errors, v.fwd, v.bad, name)
    requires used == if Named(v.fwd, name) then v.used + {name} else v.used
    ensures ViewOk(tr + [Lab(name, b)], t0, b, View(v.known + {name}, Unmatched(v.fwd, name), v.bad, used, errors))
  {
    assert Seal(0);
    var e := Lab(name, b);
    var tr' := tr + [e];
    var fwd := Unmatched(v.fwd, name);
    forall n ensures InScope(tr', b, n) <==> InScope(tr, b, n) || n == name { InScopeStep(tr, e, b, n); }
    forall x ensures Pending(tr', t0, x) <==> Pending(tr, t0, x) && x.name != name { PendingStep(tr, e, t0, b, k, x); }
    forall id: nat ensures Crossing(tr', id) <==> Crossing(tr, id) || Resolves(v.fwd, v.bad, name, id) {
      CrossingStep(tr, e, id);
      CrossedIsBad(tr, t0, b, k, v, name, id);
    }
    forall n ensures Hit(tr', n) <==> Hit(tr, n) || (n == name && SomePending(tr, t0, name)) { HitStep(tr, e, t0, b, k, n); }
    LabelStepBad(tr, e, t0, b, v.fwd, fwd, v.bad);
  }

  lemma LabelStepBad(tr: seq<Event>, e: Event, t0: nat, b: Place, fwd: seq<Branch>, fwd': seq<Branch>, bad: seq<Branch>)
    requires BadOk(tr, t0, b, fwd, bad) && e.Lab? && forall x :: x in fwd' ==> x in fwd
    ensures BadOk(tr + [e], t0, b, fwd', bad)
  {
    var tr' := tr + [e];
    forall x | x in bad
      ensures exists i: nat :: IsJump(tr', i, x)
    {
      var i: nat :| IsJump(tr, i, x);
      assert IsJump(tr', i, x);
    }
    forall i: nat, x | t0 <= i && IsJump(tr', i, x) && x in fwd'
      ensures x in bad <==> VarAfter(tr', i, |tr'|, b)
    {
      assert IsJump(tr, i, x);
      VarAfterLonger(tr, e, i, b);
    }
  }

  // ---------------------------------------------------------------------------
  // Nested blocks

  /** A nested block starts with the labels around it and with no jumps of its own. */
  lemma Enter(tr: seq<Event>, t0: nat, b: Place, k: nat, v: View)
    requires PlacesOk(tr, t0, b, k) && ViewOk(tr, t0, b, v)
    ensures PlacesOk(tr, |tr|, b + [k], 0)
    ensures ViewOk(tr, |tr|, b + [k], v.(fwd := [], bad := []))
  {
    NothingInside(tr, t0, b, k);
    forall name ensures InScope(tr, b + [k], name) <==> InScope(tr, b, name) { EnterScope(tr, t0, b, k, name); }
  }

  lemma EnterScope(tr: seq<Event>, t0: nat, b: Place, k: nat, name: string)
    requires PlacesOk(tr, t0, b, k)
    ensures InScope(tr, b + [k], name) <==> InScope(tr, b, name)
  {
    NothingInside(tr, t0, b, k);
    if InScope(tr, b + [k], name) {
      var j: nat :| LabelAt(tr, j, name) && tr[j].block <= b + [k];
      ProperPrefix(tr[j].block, b, k);
    }
    if InScope(tr, b, name) {
      var j: nat :| LabelAt(tr, j, name) && tr[j].block <= b;
    }
  }

  lemma ProperPrefix(p: Place, b: Place, k: nat)
    requires p <= b + [k]
    ensures p <= b || p == b + [k]
  {
    if |p| <= |b| {
      assert p == (b + [k])[..|p|] == b[..|p|];
    }
  }

  lemma StepInto(b: Place, k: nat, p: Place)
    ensures b + [k] <= p <==> b <= p && |b| < |p| && p[|b|] == k
  {
    if b + [k] <= p {
      assert p[..|b|] == (b + [k])[..|b|] == b;
      assert p[|b|] == (b + [k])[|b|];
    }
  }

  /** The next nested block is a new one. */
  lemma NothingInside(tr: seq<Event>, t0: nat, b: Place, k: nat)
    requires PlacesOk(tr, t0, b, k)
    ensures forall i: nat :: i < |tr| ==> !(b + [k] <= tr[i].block)
  {
    forall i: nat | i < |tr|
      ensures !(b + [k] <= tr[i].block)
    {
      StepInto(b, k, tr[i].block);
      assert t0 <= i ==> Within(tr[i].block, b, k);
    }
  }

  /** The events of a nested block do not concern what is around it. */
  ghost predicate Inside(tr: seq<Event>, n: nat, b: Place, k: nat) {
    && n <= |tr|
    && (forall i: nat :: i < n ==> !(b + [k] <= tr[i].block))
    && (forall i: nat :: n <= i < |tr| ==> b + [k] <= tr[i].block)
  }

  lemma InsidePlaces(tr: seq<Event>, n: nat, t0: nat, b: Place, k: nat, k': nat)
    requires n <= |tr| && PlacesOk(tr[..n], t0, b, k) && PlacesOk(tr, n, b + [k], k')
    ensures Inside(tr, n, b, k) && PlacesOk(tr, t0, b, k + 1)
  {
    forall i: nat | i < t0 ensures !(b <= tr[i].block) { assert tr[..n][i] == tr[i]; }
    forall i: nat | t0 <= i < |tr|
      ensures Within(tr[i].block, b, k + 1)
    {
      if i < n {
        assert tr[..n][i] == tr[i] && Within(tr[i].block, b, k);
      } else {
        assert Within(tr[i].block, b + [k], k');
        StepInto(b, k, tr[i].block);
      }
    }
  }

  lemma InsideTargets(tr: seq<Event>, n: nat, b: Place, k: nat, i: nat)
    requires Inside(tr, n, b, k) && i < n
    ensures HasTarget(tr, i) <==> HasTarget(tr[..n], i)
  {
    var tr0 := tr[..n];
    if HasTarget(tr, i) {
      var j: nat :| j < |tr| && Target(tr, i, j);
      if n <= j {
        assert b + [k] <= tr[j].block <= tr[i].block;
        PrefixTransitive(b + [k], tr[j].block, tr[i].block);
      }
      assert Target(tr0, i, j);
    }
    if HasTarget(tr0, i) {
      var j: nat :| j < |tr0| && Target(tr0, i, j);
      assert Target(tr, i, j);
    }
  }

  lemma PrefixTransitive(a: Place, b: Place, c: Place)
    requires a <= b && b <= c
    ensures a <= c
  {
    assert c[..|a|] == c[..|b|][..|a|];
  }

  lemma InsideScope(tr: seq<Event>, n: nat, b: Place, k: nat, name: string)
    requires Inside(tr, n, b, k)
    ensures InScope(tr, b, name) <==> InScope(tr[..n], b, name)
  {
    var tr0 := tr[..n];
    if InScope(tr, b, name) {
      var j: nat :| LabelAt(tr, j, name) && tr[j].block <= b;
      StepInto(b, k, tr[j].block);
      assert LabelAt(tr0, j, name);
    }
    if InScope(tr0, b, name) {
      var j: nat :| LabelAt(tr0, j, name) && tr0[j].block <= b;
      assert LabelAt(tr, j, name);
    }
  }

  lemma InsidePending(tr: seq<Event>, n: nat, t0: nat, b: Place, k: nat, x: Branch)
    requires Inside(tr, n, b, k) && t0 <= n
    ensures Pending(tr, t0, x) <==> Pending(tr[..n], t0, x) || Pending(tr, n, x)
  {
    var tr0 := tr[..n];
    if Pending(tr, t0, x) {
      var i: nat :| t0 <= i && IsJump(tr, i, x) && !HasTarget(tr, i);
      if i < n {
        InsideTargets(tr, n, b, k, i);
        assert IsJump(tr0, i, x);
      }
    }
    if Pending(tr0, t0, x) {
      var i: nat :| t0 <= i && IsJump(tr0, i, x) && !HasTarget(tr0, i);
      InsideTargets(tr, n, b, k, i);
      assert IsJump(tr, i, x);
    }
    if Pending(tr, n, x) {
      var i: nat :| n <= i && IsJump(tr, i, x) && !HasTarget(tr, i);
    }
  }

  lemma InsideBad(tr: seq<Event>, n: nat, t0: nat, b: Place, k: nat, fwd: seq<Branch>, more: seq<Branch>, bad: seq<Branch>)
    requires Inside(tr, n, b, k) && t0 <= n && Distinct(tr)
    requires BadOk(tr[..n], t0, b, fwd, bad) && FwdOk(tr[..n], t0, fwd) && FwdOk(tr, n, more)
    ensures BadOk(tr, t0, b, fwd + more, bad)
  {
    var tr0 := tr[..n];
    forall x | x in bad
      ensures exists i: nat :: i < n && IsJump(tr, i, x)
    {
      var i: nat :| IsJump(tr0, i, x);
      assert IsJump(tr, i, x);
    }
    forall i: nat, x | t0 <= i && IsJump(tr, i, x) && x in fwd + more
      ensures x in bad <==> VarAfter(tr, i, |tr|, b)
    {
      InsideVars(tr, n, b, k, i);
      if i < n {
        assert IsJump(tr0, i, x);
        assert x in more ==> Pending(tr, n, x);
      }
    }
  }

  lemma InsideVars(tr: seq<Event>, n: nat, b: Place, k: nat, i: nat)
    requires Inside(tr, n, b, k)
    ensures VarAfter(tr, i, |tr|, b) <==> VarAfter(tr[..n], i, n, b)
  {
    var tr0 := tr[..n];
    if VarAfter(tr, i, |tr|, b) {
      var m: nat :| i < m < |tr| && tr[m] == Var(b);
      StepInto(b, k, tr[m].block);
      assert tr0[m] == Var(b);
    }
    if VarAfter(tr0, i, n, b) {
      var m: nat :| i < m < n && tr0[m] == Var(b);
      assert tr[m] == Var(b);
    }
  }

  /** The jumps that a nested block leaves open become forward jumps of the block around it. */
  lemma Leave(tr: seq<Event>, n: nat, t0: nat, b: Place, k: nat, k': nat, v: View, w: View)
    requires n <= |tr| && PlacesOk(tr[..n], t0, b, k) && ViewOk(tr[..n], t0, b, v)
    requires PlacesOk(tr, n, b + [k], k') && ViewOk(tr, n, b + [k], w) && Distinct(tr)
    ensures ViewOk(tr, t0, b, View(v.known, v.fwd + w.fwd, v.bad, w.used, w.errors))
  {
    InsidePlaces(tr, n, t0, b, k, k');
    forall name ensures InScope(tr, b, name) <==> InScope(tr[..n], b, name) { InsideScope(tr, n, b, k, name); }
    forall x ensures Pending(tr, t0, x) <==> Pending(tr[..n], t0, x) || Pending(tr, n, x) { InsidePending(tr, n, t0, b, k, x); }
    InsideBad(tr, n, t0, b, k, v.fwd, w.fwd, v.bad);
  }

  // ---------------------------------------------------------------------------
  // The walk

  /** After the events tr, in block b: what the resolver knows is right if labels are distinct. */
  ghost predicate Walked(tr: seq<Event>, t0: nat, b: Place, k: nat, v: View, all: set<string>, again: set<string>) {
    forall z: nat {:trigger Seal(z)} :: Seal(z) ==>
      && NamesOk(tr, all, again) && PlacesOk(tr, t0, b, k) && (Distinct(tr) ==> ViewOk(tr, t0, b, v))
      && (BLANK in v.known <==> InScope(tr, b, BLANK)) && !BlankBack(tr)
  }

  /** A goto to a blank label is met only by a goto that finds one in scope. */
  lemma BlankBackStep(tr: seq<Event>, e: Event)
    ensures BlankBack(tr + [e]) <==> BlankBack(tr) || (e.Jump? && e.name == BLANK && InScope(tr, e.block, BLANK))
  {
    var tr' := tr + [e];
    if BlankBack(tr) {
      var i: nat, j: nat :| j < i < |tr| && Target(tr, i, j) && tr[i].name == BLANK;
      assert Target(tr', i, j) && tr'[i] == tr[i];
    }
    if e.Jump? && e.name == BLANK && InScope(tr, e.block, BLANK) {
      var j: nat :| LabelAt(tr, j, BLANK) && tr[j].block <= e.block;
      assert Target(tr', |tr|, j);
    }
    if BlankBack(tr') {
      var i: nat, j: nat :| j < i < |tr'| && Target(tr', i, j) && tr'[i].name == BLANK;
      if i < |tr| {
        assert Target(tr, i, j);
      } else {
        assert LabelAt(tr, j, BLANK);
      }
    }
  }

  lemma BlankBackStays(tr: seq<Event>, more: seq<Event>)
    requires BlankBack(tr)
    ensures BlankBack(tr + more)
  {
    var i: nat, j: nat :| j < i < |tr| && Target(tr, i, j) && tr[i].name == BLANK;
    assert Target(tr + more, i, j) && (tr + more)[i] == tr[i];
  }

  lemma WalkVar(tr: seq<Event>, t0: nat, b: Place, k: nat, v: View, all: set<string>, again: set<string>)
    requires Walked(tr, t0, b, k, v, all, again)
    ensures Walked(tr + [Var(b)], t0, b, k, v.(bad := v.fwd), all, again)
  {
    var e := Var(b);
    assert Seal(0);
    NamesStep(tr, e, all, again);
    PlacesStep(tr, e, t0, b, k);
    InScopeStep(tr, e, b, BLANK);
    BlankBackStep(tr, e);
    if Distinct(tr + [e]) {
      DistinctPrefix(tr, [e]);
      VarStep(tr, t0, b, k, v);
    }
  }

  lemma WalkJump(tr: seq<Event>, t0: nat, b: Place, k: nat, v: View, all: set<string>, again: set<string>, id: nat, name: string)
    requires Walked(tr, t0, b, k, v, all, again)
    ensures if name == BLANK && BLANK in v.known then BlankBack(tr + [Jump(id, name, b)])
            else
              Walked(tr + [Jump(id, name, b)], t0, b, k,
                if name in v.known then v.(used := v.used + {name}) else v.(fwd := v.fwd + [Branch(id, name)]), all, again)
  {
    var e := Jump(id, name, b);
    assert Seal(0);
    NamesStep(tr, e, all, again);
    PlacesStep(tr, e, t0, b, k);
    InScopeStep(tr, e, b, BLANK);
    BlankBackStep(tr, e);
    if Distinct(tr + [e]) {
      DistinctPrefix(tr, [e]);
      JumpStep(tr, t0, b, k, v, id, name);
    }
  }

  lemma WalkLabel(tr: seq<Event>, t0: nat, b: Place, k: nat, v: View, all: set<string>, again: set<string>, name: string,
                  errors: set<(nat, Problem)>, used: set<string>)
    requires Walked(tr, t0, b, k, v, all, again) && Adds(v.errors, errors, v.fwd, v.bad, name)
    requires used == if Named(v.fwd, name) then v.used + {name} else v.used
    ensures Walked(tr + [Lab(name, b)], t0, b, k,
              View(if name in all then v.known else v.known + {name}, Unmatched(v.fwd, name), v.bad, used, errors),
              if name == BLANK then all else all + {name}, if name in all then again + {name} else again)
  {
    var e := Lab(name, b);
    assert Seal(0);
    NamesStep(tr, e, all, again);
    PlacesStep(tr, e, t0, b, k);
    InScopeStep(tr, e, b, BLANK);
    BlankBackStep(tr, e);
    if Distinct(tr + [e]) {
      DistinctPrefix(tr, [e]);
      NewLabel(tr, name, b);
      LabelStep(tr, t0, b, k, v, name, errors, used);
    }
  }

  /** With all labels different, a label is not among those declared before. */
  lemma NewLabel(tr: seq<Event>, name: string, b: Place)
    requires Distinct(tr + [Lab(name, b)])
    ensures !Declares(tr, name)
  {
    var tr' := tr + [Lab(name, b)];
    forall j: nat | name != BLANK
      ensures !LabelAt(tr, j, name)
    {
      if j < |tr| {
        assert tr'[j] == tr[j] && tr'[|tr|] == Lab(name, b);
      }
    }
  }

  lemma WalkEnter(tr: seq<Event>, t0: nat, b: Place, k: nat, v: View, all: set<string>, again: set<string>)
    requires Walked(tr, t0, b, k, v, all, again)
    ensures Walked(tr, |tr|, b + [k], 0, v.(fwd := [], bad := []), all, again)
  {
    assert Seal(0);
    NothingInside(tr, t0, b, k);
    EnterScope(tr, t0, b, k, BLANK);
    if Distinct(tr) {
      Enter(tr, t0, b, k, v);
    }
  }

  lemma WalkLeave(tr: seq<Event>, inner: seq<Event>, t0: nat, b: Place, k: nat, k': nat, v: View, w: View,
                  all: set<string>, again: set<string>, all': set<string>, again': set<string>)
    requires Walked(tr, t0, b, k, v, all, again) && Walked(tr + inner, |tr|, b + [k], k', w, all', again')
    ensures Walked(tr + inner, t0, b, k + 1, View(v.known, v.fwd + w.fwd, v.bad, w.used, w.errors), all', again')
  {
    assert Seal(0);
    assert (tr + inner)[..|tr|] == tr;
    InsidePlaces(tr + inner, |tr|, t0, b, k, k');
    InsideScope(tr + inner, |tr|, b, k, BLANK);
    if Distinct(tr + inner) {
      DistinctPrefix(tr, inner);
      Leave(tr + inner, |tr|, t0, b, k, k', v, w);
    }
  }

  /** A goto with this identity breaks the rule. */
  ghost predicate Violated(tr: seq<Event>, id: nat, p: Problem) {
    exists i: nat :: i < |tr| && Violates(tr, i, p) && tr[i].id == id
  }

  /** A goto without a target, and what the resolver makes of it. */
  ghost predicate Left(tr: seq<Event>, id: nat, p: Problem) {
    exists i: nat :: i < |tr| && LeftAt(tr, i, p) && tr[i].id == id
  }

  ghost predicate LeftAt(tr: seq<Event>, i: nat, p: Problem)
    requires i < |tr|
  {
    tr[i].Jump? && !HasTarget(tr, i) && p == if Declares(tr, tr[i].name) then JumpsIntoBlock else NotDeclared
  }

  /** What remains of a jump that no label has resolved. */
  function Verdict(all: set<string>, name: string): Problem {
    if name in all then JumpsIntoBlock else NotDeclared
  }

  /** The errors added for jumps that are left over. */
  ghost predicate Leftover(left: seq<Branch>, all: set<string>, id: nat, p: Problem) {
    exists x :: x in left && x.id == id && p == Verdict(all, x.name)
  }

  lemma LeftoverIs(tr: seq<Event>, v: View, all: set<string>, again: set<string>, id: nat, p: Problem)
    requires NamesOk(tr, all, again) && ViewOk(tr, 0, [], v)
    ensures Leftover(v.fwd, all, id, p) <==> Left(tr, id, p)
  {
    if Leftover(v.fwd, all, id, p) {
      var x :| x in v.fwd && x.id == id && p == Verdict(all, x.name);
      assert Pending(tr, 0, x);
      var i: nat :| IsJump(tr, i, x) && !HasTarget(tr, i);
      assert LeftAt(tr, i, p);
    }
    if Left(tr, id, p) {
      var i: nat :| i < |tr| && LeftAt(tr, i, p) && tr[i].id == id;
      var x := Branch(id, tr[i].name);
      assert IsJump(tr, i, x);
      assert Pending(tr, 0, x);
      assert x in v.fwd;
    }
  }

  /** Without a goto that meets a blank label, what is left over is what the rule forbids. */
  lemma LeftIsViolated(tr: seq<Event>, id: nat, p: Problem)
    requires !BlankMet(tr)
    ensures Left(tr, id, p) <==> p != JumpsOverVariable && Violated(tr, id, p)
  {
    if Left(tr, id, p) {
      var i: nat :| i < |tr| && LeftAt(tr, i, p) && tr[i].id == id;
      assert Violates(tr, i, p);
    }
    if p != JumpsOverVariable && Violated(tr, id, p) {
      var i: nat :| i < |tr| && Violates(tr, i, p) && tr[i].id == id;
      if HasTarget(tr, i) {
        var j: nat :| j < |tr| && Target(tr, i, j);
        assert LabelAt(tr, j, tr[i].name);
      }
      assert LeftAt(tr, i, p);
    }
  }

  /** Without such a goto, the jumps over variables are those that the rule forbids. */
  lemma CrossingIsViolated(tr: seq<Event>, id: nat)
    requires Distinct(tr) && !BlankMet(tr)
    ensures Crossing(tr, id) <==> Violated(tr, id, JumpsOverVariable)
  {
    if Crossing(tr, id) {
      var i: nat, j: nat :| i < |tr| && j < |tr| && Crosses(tr, i, j) && tr[i].id == id;
      assert HasTarget(tr, i);
      assert LabelAt(tr, j, tr[i].name);
      assert Violates(tr, i, JumpsOverVariable);
    }
    if Violated(tr, id, JumpsOverVariable) {
      var i: nat :| i < |tr| && Violates(tr, i, JumpsOverVariable) && tr[i].id == id;
      var j: nat :| j < |tr| && OverVar(tr, i, j);
      TargetIsOne(tr, i, j);
      assert Crosses(tr, i, j);
    }
  }

  lemma TargetIsOne(tr: seq<Event>, i: nat, j: nat)
    requires Distinct(tr) && i < |tr| && j < |tr| && Target(tr, i, j) && tr[i].name != BLANK
    ensures forall k: nat :: k < j ==> !Target(tr, i, k)
  {
  }

  /** The errors that the resolver reports. */
  ghost predicate Coded(tr: seq<Event>, errors: set<(nat, Problem)>) {
    forall id: nat, p :: (id, p) in errors <==> (p == JumpsOverVariable && Crossing(tr, id)) || Left(tr, id, p)
  }

  /** The errors are right. */
  ghost predicate AllRight(tr: seq<Event>, errors: set<(nat, Problem)>) {
    forall id: nat, p :: (id, p) in errors <==> Violated(tr, id, p)
  }

  /** They are, exactly if no goto meets a blank label. */
  lemma RightIffNoBlankMet(tr: seq<Event>, errors: set<(nat, Problem)>)
    requires Distinct(tr) && Coded(tr, errors)
    ensures AllRight(tr, errors) <==> !BlankMet(tr)
  {
    if BlankMet(tr) {
      var i: nat :| i < |tr| && tr[i].Jump? && tr[i].name == BLANK && HasTarget(tr, i);
      assert Violates(tr, i, NotDeclared);
      assert Violated(tr, tr[i].id, NotDeclared);
      forall k: nat | k < |tr| && tr[k].Jump? && tr[k].id == tr[i].id
        ensures k == i
      {
      }
      assert !Left(tr, tr[i].id, NotDeclared);
      assert (tr[i].id, NotDeclared) !in errors;
    } else {
      forall id: nat, p ensures (id, p) in errors <==> Violated(tr, id, p) {
        LeftIsViolated(tr, id, p);
        CrossingIsViolated(tr, id);
      }
    }
  }

  /** In the end a declared label is used if some goto names it. */
  lemma WantedIsUsed(tr: seq<Event>, v: View, all: set<string>, again: set<string>, name: string)
    requires NamesOk(tr, all, again) && ViewOk(tr, 0, [], v)
    ensures name in all ==> (Wanted(tr, name) <==> name in v.used || Named(v.fwd, name))
  {
    if name in v.used {
      var i: nat :| i < |tr| && tr[i].Jump? && tr[i].name == name && HasTarget(tr, i);
    }
    if Named(v.fwd, name) {
      var x :| x in v.fwd && x.name == name;
      assert Pending(tr, 0, x);
      var i: nat :| IsJump(tr, i, x) && !HasTarget(tr, i);
    }
    if Wanted(tr, name) {
      var i: nat :| i < |tr| && tr[i].Jump? && tr[i].name == name;
      var x := Branch(tr[i].id, name);
      assert IsJump(tr, i, x);
      if HasTarget(tr, i) {
        assert Hit(tr, name);
      } else {
        assert Pending(tr, 0, x);
      }
    }
  }

  /** The reports on a whole body: labels declared again, errors and unused labels. */
  ghost predicate Reported(tr: seq<Event>, errors: set<(nat, Problem)>, unused: set<string>, again: set<string>) {
    && (forall name :: name in again <==> Redeclared(tr, name))
    && (Distinct(tr) ==>
        && (AllRight(tr, errors) <==> !BlankMet(tr))
        && (forall name :: name in unused <==> Declares(tr, name) && !Wanted(tr, name)))
  }

  lemma WalkEnd(tr: seq<Event>, k: nat, v: View, all: set<string>, again: set<string>, errors: set<(nat, Problem)>, used: set<string>)
    requires Walked(tr, 0, [], k, v, all, again) && Added(v, all, v.fwd, errors, used)
    ensures Reported(tr, errors, all - used, again) && !BlankBack(tr)
  {
    assert Seal(0);
    if Distinct(tr) {
      forall id: nat, p ensures (id, p) in errors <==> (p == JumpsOverVariable && Crossing(tr, id)) || Left(tr, id, p) {
        LeftoverIs(tr, v, all, again, id, p);
      }
      RightIffNoBlankMet(tr, errors);
      forall name ensures name in all - used <==> Declares(tr, name) && !Wanted(tr, name) {
        WantedIsUsed(tr, v, all, again, name);
      }
    }
  }

  /** The last loop, after the jumps `done`. */
  ghost predicate Added(v: View, all: set<string>, done: seq<Branch>, errors: set<(nat, Problem)>, used: set<string>) {
    forall z: nat {:trigger Seal(z)} :: Seal(z) ==>
      && (forall id: nat, p :: (id, p) in errors <==> (id, p) in v.errors || Leftover(done, all, id, p))
      && (forall name :: name in all ==> (name in used <==> name in v.used || Named(done, name)))
  }

  lemma AddedNone(v: View, all: set<string>)
    ensures Added(v, all, [], v.errors, v.used)
  {
  }

  lemma AddedStep(v: View, all: set<string>, done: seq<Branch>, errors: set<(nat, Problem)>, used: set<string>, x: Branch)
    requires Added(v, all, done, errors, used)
    ensures Added(v, all, done + [x], errors + {(x.id, Verdict(all, x.name))}, if x.name in all then used + {x.name} else used)
  {
    assert Seal(0);
    var done' := done + [x];
    assert x in done';
    forall id: nat, p ensures Leftover(done', all, id, p) <==> Leftover(done, all, id, p) || (id == x.id && p == Verdict(all, x.name)) {
      if Leftover(done, all, id, p) {
        var y :| y in done && y.id == id && p == Verdict(all, y.name);
        assert y in done';
      }
    }
    forall name ensures Named(done', name) <==> Named(done, name) || x.name == name {
      if Named(done, name) {
        var y :| y in done && y.name == name;
        assert y in done';
      }
    }
  }

  // ---------------------------------------------------------------------------
  // The resolver

  /** `block`: the labels of a block, within its enclosing blocks, with the local state of the walk. */
  class Block {
    const parent: Block?
    ghost const around: set<Block>
    var labels: set<string>
    var varDecl: bool
    var fwdJumps: seq<Branch>
    var badJumps: seq<Branch>

    ghost predicate Linked()
      decreases around
    {
      && this !in around
      && if parent == null then around == {} else around == parent.around + {parent} && parent !in parent.around && parent.Linked()
    }

    /** The labels of the block and of the blocks around it. */
    ghost function Known(): set<string>
      requires Linked()
      reads this, around
      decreases around
    {
      labels + (if parent == null then {} else parent.Known())
    }

    constructor (parent: Block?)
      requires parent != null ==> parent.Linked()
      ensures Linked() && fresh(this) && this.parent == parent
      ensures labels == {} && !varDecl && fwdJumps == [] && badJumps == []
    {
      this.parent := parent;
      this.around := if parent == null then {} else parent.around + {parent};
      labels, varDecl, fwdJumps, badJumps := {}, false, [], [];
    }

    /** `gotoTarget`. */
    method GotoTarget(name: string) returns (found: bool)
      requires Linked()
      ensures found <==> name in Known()
    {
      var s: Block? := this;
      while s != null
        invariant s != null ==> s.Linked() && (name in Known() <==> name in s.Known())
        invariant s == null ==> name !in Known()
        decreases s != null, if s != null then s.around else {}
      {
        if name in s.labels { return true; }
        s := s.parent;
      }
      return false;
    }

    /** `recordVarDecl`. */
    method RecordVarDecl()
      modifies `varDecl, `badJumps
      ensures varDecl && badJumps == fwdJumps
    {
      varDecl := true;
      badJumps := fwdJumps;
    }
  }

  class Checker {
    /** All labels declared so far, those declared again, and those used. */
    var all: set<string>
    var again: set<string>
    var used: set<string>
    var errors: set<(nat, Problem)>

    ghost function ViewOf(b: Block): View
      requires b.Linked()
      reads this, b, b.around
    {
      View(b.Known(), b.fwdJumps, b.badJumps, used, errors)
    }

    /** After the events tr, inside block b. */
    ghost predicate Ready(b: Block, tr: seq<Event>, t0: nat, p: Place, k: nat)
      requires b.Linked()
      reads this, b, b.around
    {
      && Walked(tr, t0, p, k, ViewOf(b), all, again)
      && b.Known() <= all + {BLANK} && (!b.varDecl ==> b.badJumps == [])
    }

    constructor ()
      ensures all == {} && again == {} && used == {} && errors == {}
    {
      all, again, used, errors := {}, {}, {}, {};
    }

    /** A label resolves the forward jumps to it, and they leave the list. */
    method ResolveJumps(b: Block, name: string)
      modifies b`fwdJumps, `used, `errors
      ensures b.fwdJumps == Unmatched(old(b.fwdJumps), name)
      ensures used == if Named(old(b.fwdJumps), name) then old(used) + {name} else old(used)
      ensures Adds(old(errors), errors, old(b.fwdJumps), if b.varDecl then b.badJumps else [], name)
    {
      var kept, any, bad := Sort(b.fwdJumps, if b.varDecl then b.badJumps else [], name, errors);
      b.fwdJumps, errors := kept, bad;
      if any {
        used := used + {name};
      }
    }

    /** Sorts the jumps that stay from those that are resolved, and adds an error for each bad one of these. */
    static method Sort(fwd: seq<Branch>, bad: seq<Branch>, name: string, errors: set<(nat, Problem)>)
      returns (kept: seq<Branch>, any: bool, errors': set<(nat, Problem)>)
      ensures kept == Unmatched(fwd, name) && (any <==> Named(fwd, name))
      ensures Adds(errors, errors', fwd, bad, name)
    {
      kept, any, errors' := [], false, errors;
      SortStart(fwd, bad, name, errors);
      for i := 0 to |fwd|
        invariant Sorted(fwd, i, bad, name, errors, kept, any, errors')
      {
        var x := fwd[i];
        SortStep(fwd, i, bad, name, errors, kept, any, errors');
        if x.name == name {
          any := true;
          if x in bad {
            errors' := errors' + {(x.id, JumpsOverVariable)};
          }
        } else {
          kept := kept + [x];
        }
      }
      SortEnd(fwd, bad, name, errors, kept, any, errors');
    }

    method DeclareLabel(b: Block, name: string, ghost tr: seq<Event>, ghost t0: nat, ghost p: Place, ghost k: nat)
      requires b.Linked() && Ready(b, tr, t0, p, k)
      modifies this, b
      ensures Ready(b, tr + [Lab(name, p)], t0, p, k)
    {
      ghost var v, all0, again0 := ViewOf(b), all, again;
      BlankUndeclared(tr, t0, p, k, v, all, again);
      EnterLabel(b, name);
      ResolveJumps(b, name);
      WalkLabel(tr, t0, p, k, v, all0, again0, name, errors, used);
    }

    /** `all.Insert`, which never enters a blank label, and `block.insert`, whose label is new in the blocks
        around unless it is blank. */
    method EnterLabel(b: Block, name: string)
      requires b.Linked() && b.Known() <= all + {BLANK} && BLANK !in all
      modifies `all, `again, b`labels
      ensures again == if name in old(all) then old(again) + {name} else old(again)
      ensures all == if name == BLANK then old(all) else old(all) + {name}
      ensures b.Known() == if name in old(all) then old(b.Known()) else old(b.Known()) + {name}
      ensures b.Known() <= all + {BLANK}
    {
      if name in all {
        again := again + {name};
        assert all + {name} == all;
      } else {
        assert name != BLANK ==> name !in b.Known();
        if name != BLANK {
          all := all + {name};
        }
        b.labels := b.labels + {name};
      }
    }

    /** One statement; fails where the source panics: a goto that finds a blank label in scope is looked up
        among the labels of the body, where a blank one is never entered. */
    method StmtBranches(b: Block, s: Stmt, ghost tr: seq<Event>, ghost t0: nat, ghost p: Place, ghost k: nat) returns (ok: bool)
      requires b.Linked() && Ready(b, tr, t0, p, k)
      modifies this, b
      ensures if ok then Ready(b, tr + Trace(s, p, k), t0, p, k + Opens(s)) else BlankBack(tr + Trace(s, p, k))
      decreases s, 0
    {
      ok := true;
      match s {
        case Other =>
          assert tr + [] == tr;
        case VarDecl =>
          WalkVar(tr, t0, p, k, ViewOf(b), all, again);
          b.RecordVarDecl();
        case Labeled(name, t) =>
          DeclareLabel(b, name, tr, t0, p, k);
          ok := StmtBranches(b, t, tr + [Lab(name, p)], t0, p, k);
          assert tr + [Lab(name, p)] + Trace(t, p, k) == tr + ([Lab(name, p)] + Trace(t, p, k));
        case Goto(id, name) =>
          ok := GotoBranch(b, id, name, tr, t0, p, k);
        case Block(list) =>
          ok := NestedBlock(b, list, tr, t0, p, k);
        case Parts(parts) =>
          ok := ListBranches(b, parts, tr, t0, p, k);
      }
    }

    method GotoBranch(b: Block, id: nat, name: string, ghost tr: seq<Event>, ghost t0: nat, ghost p: Place, ghost k: nat)
      returns (ok: bool)
      requires b.Linked() && Ready(b, tr, t0, p, k)
      modifies this, b
      ensures if ok then Ready(b, tr + [Jump(id, name, p)], t0, p, k) else BlankBack(tr + [Jump(id, name, p)])
    {
      WalkJump(tr, t0, p, k, ViewOf(b), all, again, id, name);
      BlankUndeclared(tr, t0, p, k, ViewOf(b), all, again);
      ok := true;
      var found := b.GotoTarget(name);
      if found {
        if name !in all {
          return false;
        }
        used := used + {name};
      } else {
        b.fwdJumps := b.fwdJumps + [Branch(id, name)];
      }
    }

    /** Statements one after the other in the same block. */
    method ListBranches(b: Block, list: seq<Stmt>, ghost tr: seq<Event>, ghost t0: nat, ghost p: Place, ghost k: nat) returns (ok: bool)
      requires b.Linked() && Ready(b, tr, t0, p, k)
      modifies this, b
      ensures if ok then Ready(b, tr + TraceList(list, 0, p, k), t0, p, k + OpensList(list, 0))
              else BlankBack(tr + TraceList(list, 0, p, k))
      decreases list, 1
    {
      ghost var done, k' := [], k;
      assert tr + [] == tr;
      for i := 0 to |list|
        invariant k' >= k && k' + OpensList(list, i) == k + OpensList(list, 0)
        invariant done + TraceList(list, i, p, k') == TraceList(list, 0, p, k)
        invariant Ready(b, tr + done, t0, p, k')
      {
        ghost var more, rest := Trace(list[i], p, k'), TraceList(list, i + 1, p, k' + Opens(list[i]));
        ok := StmtBranches(b, list[i], tr + done, t0, p, k');
        OneMore(tr, done, more, rest);
        if !ok {
          BlankBackStays(tr + done + more, rest);
          return;
        }
        done := done + more;
        k' := k' + Opens(list[i]);
      }
      assert done + [] == done;
      ok := true;
    }

    method OpenBlock(b: Block, ghost tr: seq<Event>, ghost t0: nat, ghost p: Place, ghost k: nat) returns (inner: Block)
      requires b.Linked() && Ready(b, tr, t0, p, k)
      ensures fresh(inner) && inner.Linked() && inner.parent == b && Ready(inner, tr, |tr|, p + [k], 0)
    {
      inner := new Block(b);
      WalkEnter(tr, t0, p, k, ViewOf(b), all, again);
      assert inner.Known() == b.Known();
    }

    /** `blockBranches`, with the jumps that the nested block leaves open. */
    method NestedBlock(b: Block, list: seq<Stmt>, ghost tr: seq<Event>, ghost t0: nat, ghost p: Place, ghost k: nat) returns (ok: bool)
      requires b.Linked() && Ready(b, tr, t0, p, k)
      modifies this, b
      ensures if ok then Ready(b, tr + TraceList(list, 0, p + [k], 0), t0, p, k + 1)
              else BlankBack(tr + TraceList(list, 0, p + [k], 0))
      decreases list, 2
    {
      ghost var v, all0, again0 := ViewOf(b), all, again;
      var inner := OpenBlock(b, tr, t0, p, k);
      ok := ListBranches(inner, list, tr, |tr|, p + [k], 0);
      if ok {
        CloseBlock(b, inner, tr, TraceList(list, 0, p + [k], 0), t0, p, k, OpensList(list, 0), v, all0, again0);
      }
    }

    method CloseBlock(b: Block, inner: Block, ghost tr: seq<Event>, ghost more: seq<Event>, ghost t0: nat, ghost p: Place, ghost k: nat,
                      ghost k': nat, ghost v: View, ghost all0: set<string>, ghost again0: set<string>)
      requires b.Linked() && inner.Linked() && inner.parent == b && Ready(inner, tr + more, |tr|, p + [k], k')
      requires Walked(tr, t0, p, k, v, all0, again0) && (!b.varDecl ==> b.badJumps == [])
      requires v.known == b.Known() && v.fwd == b.fwdJumps && v.bad == b.badJumps
      modifies b`fwdJumps
      ensures Ready(b, tr + more, t0, p, k + 1)
    {
      WalkLeave(tr, more, t0, p, k, k', v, ViewOf(inner), all0, again0, all, again);
      assert b.Known() <= inner.Known();
      b.fwdJumps := b.fwdJumps + inner.fwdJumps;
    }

    /** `labels`: panics exactly if a goto finds a blank label in scope. Else the labels that are declared
        again are reported; and with labels declared once, so are the labels that no goto names, and exactly
        those gotos that break the rule, with what is wrong, if and only if no goto meets a blank label. */
    method Labels(body: seq<Stmt>) returns (panics: bool, unused: set<string>)
      requires all == {} && again == {} && used == {} && errors == {}
      modifies this
      ensures panics <==> BlankBack(TraceList(body, 0, [], 0))
      ensures !panics ==> Reported(TraceList(body, 0, [], 0), errors, unused, again)
    {
      var outer := new Block(null);
      Start();
      var ok := ListBranches(outer, body, [], 0, [], 0);
      assert [] + TraceList(body, 0, [], 0) == TraceList(body, 0, [], 0);
      if !ok {
        return true, {};
      }
      panics := false;
      ghost var v := ViewOf(outer);
      ghost var done: seq<Branch> := [];
      var fwd := outer.fwdJumps;
      AddedNone(v, all);
      for i := 0 to |fwd|
        invariant |done| == i && (forall j :: 0 <= j < i ==> done[j] == fwd[j])
        invariant Added(v, all, done, errors, used)
        invariant Walked(TraceList(body, 0, [], 0), 0, [], OpensList(body, 0), v, all, again)
      {
        var x := fwd[i];
        AddedStep(v, all, done, errors, used, x);
        errors := errors + {(x.id, Verdict(all, x.name))};
        if x.name in all {
          used := used + {x.name};
        }
        done := done + [x];
      }
      assert done == fwd;
      WalkEnd(TraceList(body, 0, [], 0), OpensList(body, 0), v, all, again, errors, used);
      unused := all - used;
    }
  }

  lemma OneMore(tr: seq<Event>, done: seq<Event>, more: seq<Event>, rest: seq<Event>)
    ensures tr + done + more == tr + (done + more)
    ensures done + (more + rest) == done + more + rest
    ensures tr + (done + (more + rest)) == tr + done + more + rest
  {
  }

  lemma BlankUndeclared(tr: seq<Event>, t0: nat, b: Place, k: nat, v: View, all: set<string>, again: set<string>)
    requires Walked(tr, t0, b, k, v, all, again)
    ensures BLANK !in all
  {
    assert Seal(0);
  }

  lemma Start()
    ensures Walked([], 0, [], 0, View({}, [], [], {}, {}), {}, {})
  {
  }

  // ---------------------------------------------------------------------------
  // Blank labels

  /** `_: goto _` makes the checker panic. */
  lemma BlankLabelPanics(id: nat)
    ensures BlankBack(TraceList([Labeled(BLANK, Other), Goto(id, BLANK)], 0, [], 0))
  {
    var body := [Labeled(BLANK, Other), Goto(id, BLANK)];
    assert TraceList(body, 2, [], 0) == [];
    assert TraceList(body, 1, [], 0) == [Jump(id, BLANK, [])];
    assert Trace(Other, [], 0) == [] && Trace(body[0], [], 0) == [Lab(BLANK, [])] + Trace(Other, [], 0);
    var tr := TraceList(body, 0, [], 0);
    assert tr == [Lab(BLANK, []), Jump(id, BLANK, [])];
    assert Target(tr, 1, 0);
  }

  /** `goto _; _:` breaks the rule, for no blank label is ever declared; it is resolved without an error. */
  lemma BlankLabelAccepted(id: nat)
    ensures var tr := TraceList([Goto(id, BLANK), Labeled(BLANK, Other)], 0, [], 0);
            Distinct(tr) && !BlankBack(tr) && Violated(tr, id, NotDeclared) && Coded(tr, {})
  {
    var body := [Goto(id, BLANK), Labeled(BLANK, Other)];
    assert TraceList(body, 2, [], 0) == [];
    assert Trace(Other, [], 0) == [] && Trace(body[1], [], 0) == [Lab(BLANK, [])] + Trace(Other, [], 0);
    assert TraceList(body, 1, [], 0) == [Lab(BLANK, [])];
    assert Trace(body[0], [], 0) == [Jump(id, BLANK, [])] && Opens(body[0]) == 0;
    var tr := TraceList(body, 0, [], 0);
    assert tr == [Jump(id, BLANK, []), Lab(BLANK, [])];
    assert Target(tr, 0, 1);
    assert Violates(tr, 0, NotDeclared);
  }
}
