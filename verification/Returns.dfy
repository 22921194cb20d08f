/** Terminating statements (go/types/return.go) against an execution semantics. */
module Returns {
  import opened Types

  datatype Tok = BREAK | CONTINUE | GOTO | FALLTHROUGH

  const PANIC := "panic"

  /** Statements, as far as the analysis and the flow of control tell them apart, with the names that
      they declare: Declare in its own block, the others for the statements inside. A call is one of an
      identifier, in parentheses or not; any other expression is simple. */
  datatype Stmt =
    | Simple
    | Declare(names: set<string>)
    | Labeled(lbl: string, stmt: Stmt)
    | Call(callee: string)
    | Return
    | Branch(tok: Tok, target: Option<string>)
    | Block(list: seq<Stmt>)
    | IfStmt(names: set<string>, body: Stmt, els: Option<Stmt>)
    | Switch(names: set<string>, clauses: seq<Clause>)
    | Select(clauses: seq<Clause>)
    | For(names: set<string>, hasCond: bool, body: Stmt)
    | Range(names: set<string>, body: Stmt)

  datatype Clause = Clause(isDefault: bool, names: set<string>, body: seq<Stmt>)

  // ---------------------------------------------------------------------------
  // Scopes

  /** The names that a statement declares in its own block. */
  function Declared(s: Stmt): set<string> {
    match s
    case Declare(names) => names
    case Labeled(_, t) => Declared(t)
    case _ => {}
  }

  /** The names that the first n statements of a block declare in it. */
  function Before(list: seq<Stmt>, n: nat): set<string>
    requires n <= |list|
  {
    if n == 0 then {} else Before(list, n - 1) + Declared(list[n - 1])
  }

  /** A function: the names that are declared around it and hide those of the universe; those that the blocks
      around a function literal declare after it, since its body is checked only when theirs have been; its
      parameters and results; and its body, whose names belong to the same scope. */
  datatype Function = Function(outside: set<string>, later: set<string>, params: set<string>, body: seq<Stmt>) {
    /** What is in scope where the body begins. */
    function Entry(): set<string> {
      outside + params
    }

    /** What the scope of the function and those around it hold once the body has been checked. */
    function Scope(): set<string> {
      Entry() + later + Before(body, |body|)
    }
  }

  /** `LookupParent` in the scope of the function finds the predeclared panic: no name there, nor in the
      scopes around, hides it. */
  predicate FoundPanic(callee: string, scope: set<string>) {
    callee == PANIC && PANIC !in scope
  }

  /** What a call calls where the names env are in scope. */
  predicate IsPanic(callee: string, env: set<string>) {
    callee == PANIC && PANIC !in env
  }

  // ---------------------------------------------------------------------------
  // The analysis

  /** `isTerminating`; lbl is the label of the statement, or empty, and scope that of the function. */
  predicate IsTerminating(s: Stmt, lbl: string, scope: set<string>) {
    match s
    case Labeled(l, t) => IsTerminating(t, l, scope)
    case Call(callee) => FoundPanic(callee, scope)
    case Return => true
    case Branch(tok, _) => tok == GOTO || tok == FALLTHROUGH
    case Block(list) => IsTerminatingList(list, "", scope)
    case IfStmt(_, body, els) => els.Some? && IsTerminating(body, "", scope) && IsTerminating(els.value, "", scope)
    case Switch(_, clauses) => AllTerminating(clauses, 0, lbl, scope) && exists i :: 0 <= i < |clauses| && clauses[i].isDefault
    case Select(clauses) => AllTerminating(clauses, 0, lbl, scope)
    case For(_, hasCond, body) => !hasCond && !HasBreak(body, lbl, true)
    case _ => false
  }

  predicate IsTerminatingList(list: seq<Stmt>, lbl: string, scope: set<string>) {
    |list| > 0 && IsTerminating(list[|list| - 1], lbl, scope)
  }

  /** All clauses from i on end in a terminating statement and have no break out of the statement. */
  predicate AllTerminating(clauses: seq<Clause>, i: nat, lbl: string, scope: set<string>)
    decreases clauses, |clauses| - i
  {
    i >= |clauses| ||
    (IsTerminatingList(clauses[i].body, "", scope) && !HasBreakList(clauses[i].body, 0, lbl, true)
     && AllTerminating(clauses, i + 1, lbl, scope))
  }

  /** `hasBreak`. */
  predicate HasBreak(s: Stmt, lbl: string, implicit: bool) {
    match s
    case Labeled(_, t) => HasBreak(t, lbl, implicit)
    case Branch(tok, target) =>
      tok == BREAK && if target.None? then implicit else target.value == lbl
    case Block(list) => HasBreakList(list, 0, lbl, implicit)
    case IfStmt(_, body, els) => HasBreak(body, lbl, implicit) || (els.Some? && HasBreak(els.value, lbl, implicit))
    case Switch(_, clauses) => lbl != "" && HasBreakClauses(clauses, 0, lbl)
    case Select(clauses) => lbl != "" && HasBreakClauses(clauses, 0, lbl)
    case For(_, _, body) => lbl != "" && HasBreak(body, lbl, false)
    case Range(_, body) => lbl != "" && HasBreak(body, lbl, false)
    case _ => false
  }

  predicate HasBreakList(list: seq<Stmt>, i: nat, lbl: string, implicit: bool)
    decreases list, |list| - i
  {
    i < |list| && (HasBreak(list[i], lbl, implicit) || HasBreakList(list, i + 1, lbl, implicit))
  }

  predicate HasBreakClauses(clauses: seq<Clause>, i: nat, lbl: string)
    decreases clauses, |clauses| - i
  {
    i < |clauses| && (HasBreakList(clauses[i].body, 0, lbl, false) || HasBreakClauses(clauses, i + 1, lbl))
  }

  // ---------------------------------------------------------------------------
  // Execution

  /** How the execution of a statement ends. */
  datatype Outcome =
    | Normal
    | Breaks(target: Option<string>)
    | Continues(target: Option<string>)
    | Jumps(target: Option<string>)
    | FallsThrough
    | Returns
    | Panics

  /** A break that the statement with the given label, or without one, catches. */
  predicate Leaves(o: Outcome, lbl: string) {
    o.Breaks? && (o.target.None? || (lbl != "" && o.target == Some(lbl)))
  }

  predicate Again(o: Outcome, lbl: string) {
    o.Normal? || (o.Continues? && (o.target.None? || (lbl != "" && o.target == Some(lbl))))
  }

  /** The statement carries the label. */
  predicate Carries(s: Stmt, lbl: string) {
    s.Labeled? && (s.lbl == lbl || Carries(s.stmt, lbl))
  }

  /** Some execution of the statement where the names env are in scope, of depth at most n, has the
      outcome. Conditions and the choice of clauses are left open; anything that is evaluated may panic. */
  ghost predicate Exec(s: Stmt, lbl: string, env: set<string>, o: Outcome, n: nat)
    decreases n, 0
  {
    n > 0 &&
    var m: nat := n - 1;
    match s
    case Simple => o.Normal? || o.Panics?
    case Declare(_) => o.Normal? || o.Panics?
    case Labeled(l, t) => Exec(t, l, env, o, m)
    case Call(callee) => o.Panics? || (o.Normal? && !IsPanic(callee, env))
    case Return => o.Returns? || o.Panics?
    case Branch(tok, target) => o == BranchOutcome(tok, target)
    case Block(list) => ExecList(list, 0, env, o, m)
    case IfStmt(names, body, els) =>
      || o.Panics? || Exec(body, "", env + names, o, m)
      || if els.Some? then Exec(els.value, "", env + names, o, m) else o.Normal?
    case Switch(names, clauses) =>
      || o.Panics? || (o.Normal? && forall i :: 0 <= i < |clauses| ==> !clauses[i].isDefault)
      || exists i: nat :: i < |clauses| && ExecClause(clauses, i, lbl, env + names, o, m)
    case Select(clauses) => o.Panics? || exists i: nat :: i < |clauses| && ExecClause(clauses, i, lbl, env, o, m)
    case For(names, hasCond, body) => o.Panics? || (hasCond && o.Normal?) || ExecLoop(s, body, lbl, env, o, m)
    case Range(names, body) => o.Panics? || o.Normal? || ExecLoop(s, body, lbl, env, o, m)
  }

  /** The names that a loop declares for its body. */
  function LoopNames(s: Stmt): set<string> {
    if s.For? || s.Range? then s.names else {}
  }

  function BranchOutcome(tok: Tok, target: Option<string>): Outcome {
    match tok
    case BREAK => Breaks(target)
    case CONTINUE => Continues(target)
    case GOTO => Jumps(target)
    case FALLTHROUGH => FallsThrough
  }

  /** One round of a loop, and what comes of it. */
  ghost predicate ExecLoop(s: Stmt, body: Stmt, lbl: string, env: set<string>, o: Outcome, n: nat)
    decreases n, 0
  {
    n > 0 &&
    var m: nat := n - 1;
    exists o1 :: Exec(body, "", env + LoopNames(s), o1, m) && AfterRound(s, lbl, env, o1, o, m)
  }

  ghost predicate AfterRound(s: Stmt, lbl: string, env: set<string>, o1: Outcome, o: Outcome, n: nat)
    decreases n, 1
  {
    if Again(o1, lbl) then Exec(s, lbl, env, o, n) else if Leaves(o1, lbl) then o.Normal? else o == o1
  }

  /** A list from statement i on, each statement with the names that those before it declare; a goto whose
      label is in the list resumes there. */
  ghost predicate ExecList(list: seq<Stmt>, i: nat, env: set<string>, o: Outcome, n: nat)
    decreases n, 0
  {
    n > 0 &&
    var m: nat := n - 1;
    if i >= |list| then o.Normal?
    else exists o1 :: Exec(list[i], "", env + Before(list, i), o1, m) && AfterStmt(list, i, env, o1, o, m)
  }

  ghost predicate AfterStmt(list: seq<Stmt>, i: nat, env: set<string>, o1: Outcome, o: Outcome, n: nat)
    decreases n, 1
  {
    if o1.Normal? then ExecList(list, i + 1, env, o, n)
    else (o == o1 && !JumpsInto(list, o1)) || (exists j: nat :: Lands(list, o1, j) && ExecList(list, j, env, o, n))
  }

  predicate Lands(list: seq<Stmt>, o: Outcome, j: nat) {
    o.Jumps? && o.target.Some? && j < |list| && Carries(list[j], o.target.value)
  }

  ghost predicate JumpsInto(list: seq<Stmt>, o: Outcome) {
    exists j: nat :: Lands(list, o, j)
  }

  /** A clause of a switch or select, and those it falls through to. */
  ghost predicate ExecClause(clauses: seq<Clause>, i: nat, lbl: string, env: set<string>, o: Outcome, n: nat)
    requires i < |clauses|
    decreases n, 0
  {
    n > 0 &&
    var m: nat := n - 1;
    exists o1 :: ExecList(clauses[i].body, 0, env + clauses[i].names, o1, m) && AfterClause(clauses, i, lbl, env, o1, o, m)
  }

  ghost predicate AfterClause(clauses: seq<Clause>, i: nat, lbl: string, env: set<string>, o1: Outcome, o: Outcome, n: nat)
    requires i < |clauses|
    decreases n, 1
  {
    if o1.FallsThrough? && i + 1 < |clauses| then ExecClause(clauses, i + 1, lbl, env, o, n)
    else if Leaves(o1, lbl) then o.Normal? else o == o1
  }

  // ---------------------------------------------------------------------------
  // Breaks

  /** The break is one that hasBreak looks for. */
  predicate Sought(o: Outcome, lbl: string, implicit: bool) {
    o.Breaks? && ((o.target.None? && implicit) || (lbl != "" && o.target == Some(lbl)))
  }

  /** If execution ends in a break to the label, or in an unlabeled one, hasBreak finds it. */
  lemma {:induction false} BreakFound(s: Stmt, own: string, env: set<string>, o: Outcome, lbl: string, implicit: bool, n: nat)
    requires Exec(s, own, env, o, n) && Sought(o, lbl, implicit)
    ensures HasBreak(s, lbl, implicit)
    decreases n
  {
    var m: nat := n - 1;
    match s
    case Labeled(l, t) => BreakFound(t, l, env, o, lbl, implicit, m);
    case Block(list) => BreakInList(list, 0, env, o, lbl, implicit, m);
    case IfStmt(names, body, els) =>
      if Exec(body, "", env + names, o, m) {
        BreakFound(body, "", env + names, o, lbl, implicit, m);
      } else {
        BreakFound(els.value, "", env + names, o, lbl, implicit, m);
      }
    case Switch(names, clauses) =>
      var i: nat :| i < |clauses| && ExecClause(clauses, i, own, env + names, o, m);
      BreakInClauses(clauses, i, own, env + names, o, lbl, m);
    case Select(clauses) =>
      var i: nat :| i < |clauses| && ExecClause(clauses, i, own, env, o, m);
      BreakInClauses(clauses, i, own, env, o, lbl, m);
    case For(_, _, body) => BreakInLoop(s, body, own, env, o, lbl, m);
    case Range(_, body) => BreakInLoop(s, body, own, env, o, lbl, m);
    case _ =>
  }

  lemma {:induction false} BreakInList(list: seq<Stmt>, i: nat, env: set<string>, o: Outcome, lbl: string, implicit: bool, n: nat)
    requires ExecList(list, i, env, o, n) && Sought(o, lbl, implicit)
    ensures HasBreakList(list, 0, lbl, implicit)
    decreases n
  {
    var m: nat := n - 1;
    var o1 :| Exec(list[i], "", env + Before(list, i), o1, m) && AfterStmt(list, i, env, o1, o, m);
    if o1.Normal? {
      BreakInList(list, i + 1, env, o, lbl, implicit, m);
    } else if o == o1 {
      BreakFound(list[i], "", env + Before(list, i), o, lbl, implicit, m);
      InList(list, 0, i, lbl, implicit);
    } else {
      var j: nat :| Lands(list, o1, j) && ExecList(list, j, env, o, m);
      BreakInList(list, j, env, o, lbl, implicit, m);
    }
  }

  lemma {:induction false} InList(list: seq<Stmt>, i: nat, j: nat, lbl: string, implicit: bool)
    requires i <= j < |list| && HasBreak(list[j], lbl, implicit)
    ensures HasBreakList(list, i, lbl, implicit)
    decreases j - i
  {
    if i < j { InList(list, i + 1, j, lbl, implicit); }
  }

  /** Out of a breakable statement only breaks with a label of another statement come. */
  lemma {:induction false} BreakInClauses(clauses: seq<Clause>, i: nat, own: string, env: set<string>, o: Outcome, lbl: string, n: nat)
    requires i < |clauses| && ExecClause(clauses, i, own, env, o, n) && o.Breaks? && (o.target.None? || (lbl != "" && o.target == Some(lbl)))
    ensures lbl != "" && HasBreakClauses(clauses, 0, lbl)
    decreases n
  {
    var m: nat := n - 1;
    var o1 :| ExecList(clauses[i].body, 0, env + clauses[i].names, o1, m) && AfterClause(clauses, i, own, env, o1, o, m);
    if o1.FallsThrough? && i + 1 < |clauses| {
      BreakInClauses(clauses, i + 1, own, env, o, lbl, m);
    } else {
      BreakInList(clauses[i].body, 0, env + clauses[i].names, o, lbl, false, m);
      InClauses(clauses, 0, i, lbl);
    }
  }

  lemma {:induction false} InClauses(clauses: seq<Clause>, i: nat, j: nat, lbl: string)
    requires i <= j < |clauses| && HasBreakList(clauses[j].body, 0, lbl, false)
    ensures HasBreakClauses(clauses, i, lbl)
    decreases j - i
  {
    if i < j { InClauses(clauses, i + 1, j, lbl); }
  }

  lemma {:induction false} BreakInLoop(s: Stmt, body: Stmt, own: string, env: set<string>, o: Outcome, lbl: string, n: nat)
    requires (s.For? || s.Range?) && body == s.body && ExecLoop(s, body, own, env, o, n)
    requires o.Breaks? && (o.target.None? || (lbl != "" && o.target == Some(lbl)))
    ensures lbl != "" && HasBreak(body, lbl, false)
    decreases n
  {
    var m: nat := n - 1;
    var o1 :| Exec(body, "", env + LoopNames(s), o1, m) && AfterRound(s, own, env, o1, o, m);
    if Again(o1, own) {
      LoopAgain(s, own, env, o, m);
      BreakInLoop(s, body, own, env, o, lbl, m - 1);
    } else {
      BreakFound(body, "", env + LoopNames(s), o, lbl, false, m);
    }
  }

  // ---------------------------------------------------------------------------
  // Soundness

  /** Every call that the lookup in the function's scope takes for the predeclared panic is one. */
  predicate Resolved(s: Stmt, env: set<string>, scope: set<string>) {
    match s
    case Labeled(_, t) => Resolved(t, env, scope)
    case Call(callee) => FoundPanic(callee, scope) ==> IsPanic(callee, env)
    case Block(list) => ResolvedList(list, 0, env, scope)
    case IfStmt(names, body, els) => Resolved(body, env + names, scope) && (els.Some? ==> Resolved(els.value, env + names, scope))
    case Switch(names, clauses) => ResolvedClauses(clauses, 0, env + names, scope)
    case Select(clauses) => ResolvedClauses(clauses, 0, env, scope)
    case For(names, _, body) => Resolved(body, env + names, scope)
    case Range(names, body) => Resolved(body, env + names, scope)
    case _ => true
  }

  predicate ResolvedList(list: seq<Stmt>, i: nat, env: set<string>, scope: set<string>)
    decreases list, |list| - i
  {
    i >= |list| || (Resolved(list[i], env + Before(list, i), scope) && ResolvedList(list, i + 1, env, scope))
  }

  predicate ResolvedClauses(clauses: seq<Clause>, i: nat, env: set<string>, scope: set<string>)
    decreases clauses, |clauses| - i
  {
    i >= |clauses| || (ResolvedList(clauses[i].body, 0, env + clauses[i].names, scope) && ResolvedClauses(clauses, i + 1, env, scope))
  }

  lemma {:induction false} ResolvedAt(list: seq<Stmt>, i: nat, j: nat, env: set<string>, scope: set<string>)
    requires ResolvedList(list, i, env, scope) && i <= j < |list|
    ensures Resolved(list[j], env + Before(list, j), scope)
    decreases j - i
  {
    if i < j { ResolvedAt(list, i + 1, j, env, scope); }
  }

  lemma {:induction false} ClauseAt(clauses: seq<Clause>, i: nat, j: nat, lbl: string, env: set<string>, scope: set<string>)
    requires ResolvedClauses(clauses, i, env, scope) && AllTerminating(clauses, i, lbl, scope) && i <= j < |clauses|
    ensures ResolvedList(clauses[j].body, 0, env + clauses[j].names, scope) && IsTerminatingList(clauses[j].body, "", scope)
    ensures !HasBreakList(clauses[j].body, 0, lbl, true)
    decreases j - i
  {
    if i < j { ClauseAt(clauses, i + 1, j, lbl, env, scope); }
  }

  /** No execution of a terminating statement, of any depth, completes normally. */
  lemma {:induction false} NeverNormal(s: Stmt, lbl: string, env: set<string>, scope: set<string>, o: Outcome, n: nat)
    requires IsTerminating(s, lbl, scope) && Resolved(s, env, scope) && Exec(s, lbl, env, o, n)
    ensures !o.Normal?
    decreases n
  {
    var m: nat := n - 1;
    match s
    case Labeled(l, t) => NeverNormal(t, l, env, scope, o, m);
    case Block(list) => ListNeverNormal(list, 0, env, scope, o, m);
    case IfStmt(names, body, els) =>
      if Exec(body, "", env + names, o, m) { NeverNormal(body, "", env + names, scope, o, m); }
      if Exec(els.value, "", env + names, o, m) { NeverNormal(els.value, "", env + names, scope, o, m); }
    case Switch(names, clauses) =>
      if i: nat :| i < |clauses| && ExecClause(clauses, i, lbl, env + names, o, m) {
        ClauseNeverNormal(clauses, i, lbl, env + names, scope, o, m);
      }
    case Select(clauses) =>
      if i: nat :| i < |clauses| && ExecClause(clauses, i, lbl, env, o, m) { ClauseNeverNormal(clauses, i, lbl, env, scope, o, m); }
    case For(_, _, body) =>
      if ExecLoop(s, body, lbl, env, o, m) { LoopNeverNormal(s, body, lbl, env, scope, o, m); }
    case _ =>
  }

  lemma {:induction false} ListNeverNormal(list: seq<Stmt>, i: nat, env: set<string>, scope: set<string>, o: Outcome, n: nat)
    requires IsTerminatingList(list, "", scope) && ResolvedList(list, 0, env, scope) && i < |list| && ExecList(list, i, env, o, n)
    ensures !o.Normal?
    decreases n
  {
    var m: nat := n - 1;
    var o1 :| Exec(list[i], "", env + Before(list, i), o1, m) && AfterStmt(list, i, env, o1, o, m);
    if i + 1 == |list| {
      ResolvedAt(list, 0, i, env, scope);
      NeverNormal(list[i], "", env + Before(list, i), scope, o1, m);
    }
    if o1.Normal? {
      ListNeverNormal(list, i + 1, env, scope, o, m);
    } else if j: nat :| Lands(list, o1, j) && ExecList(list, j, env, o, m) {
      ListNeverNormal(list, j, env, scope, o, m);
    }
  }

  lemma {:induction false} ClauseNeverNormal(clauses: seq<Clause>, i: nat, lbl: string, env: set<string>, scope: set<string>, o: Outcome, n: nat)
    requires i < |clauses| && AllTerminating(clauses, 0, lbl, scope) && ResolvedClauses(clauses, 0, env, scope)
    requires ExecClause(clauses, i, lbl, env, o, n)
    ensures !o.Normal?
    decreases n
  {
    var m: nat := n - 1;
    var inner := env + clauses[i].names;
    var o1 :| ExecList(clauses[i].body, 0, inner, o1, m) && AfterClause(clauses, i, lbl, env, o1, o, m);
    ClauseAt(clauses, 0, i, lbl, env, scope);
    ListNeverNormal(clauses[i].body, 0, inner, scope, o1, m);
    if Leaves(o1, lbl) { BreakInList(clauses[i].body, 0, inner, o1, lbl, true, m); }
    if o1.FallsThrough? && i + 1 < |clauses| { ClauseNeverNormal(clauses, i + 1, lbl, env, scope, o, m); }
  }

  lemma {:induction false} LoopNeverNormal(s: Stmt, body: Stmt, lbl: string, env: set<string>, scope: set<string>, o: Outcome, n: nat)
    requires s.For? && body == s.body && IsTerminating(s, lbl, scope) && ExecLoop(s, body, lbl, env, o, n)
    ensures !o.Normal?
    decreases n
  {
    var m: nat := n - 1;
    var o1 :| Exec(body, "", env + LoopNames(s), o1, m) && AfterRound(s, lbl, env, o1, o, m);
    if Leaves(o1, lbl) { BreakFound(body, "", env + LoopNames(s), o1, lbl, true, m); }
    if Again(o1, lbl) {
      if !o.Panics? {
        LoopAgain(s, lbl, env, o, m);
        LoopNeverNormal(s, body, lbl, env, scope, o, m - 1);
      }
    }
  }

  lemma LoopAgain(s: Stmt, lbl: string, env: set<string>, o: Outcome, n: nat)
    requires (s.For? || s.Range?) && Exec(s, lbl, env, o, n) && !o.Panics?
             && ((s.For? && !s.hasCond) || !o.Normal?)
    ensures n >= 1 && ExecLoop(s, s.body, lbl, env, o, n - 1)
  {}

  // ---------------------------------------------------------------------------
  // Where the lookup is right

  /** No call of `panic` stands where a block nested in the body has declared that name; hidden says that
      some block has, of those around the statement. */
  predicate Clear(s: Stmt, hidden: bool) {
    match s
    case Labeled(_, t) => Clear(t, hidden)
    case Call(callee) => callee == PANIC ==> !hidden
    case Block(list) => ClearList(list, 0, hidden)
    case IfStmt(names, body, els) => Clear(body, hidden || PANIC in names) && (els.Some? ==> Clear(els.value, hidden || PANIC in names))
    case Switch(names, clauses) => ClearClauses(clauses, 0, hidden || PANIC in names)
    case Select(clauses) => ClearClauses(clauses, 0, hidden)
    case For(names, _, body) => Clear(body, hidden || PANIC in names)
    case Range(names, body) => Clear(body, hidden || PANIC in names)
    case _ => true
  }

  predicate ClearList(list: seq<Stmt>, i: nat, hidden: bool)
    decreases list, |list| - i
  {
    i >= |list| || (Clear(list[i], hidden || PANIC in Before(list, i)) && ClearList(list, i + 1, hidden))
  }

  predicate ClearClauses(clauses: seq<Clause>, i: nat, hidden: bool)
    decreases clauses, |clauses| - i
  {
    i >= |clauses| || (ClearList(clauses[i].body, 0, hidden || PANIC in clauses[i].names) && ClearClauses(clauses, i + 1, hidden))
  }

  /** The body itself is no nested block: its names are in the scope in which the lookup is done. */
  predicate ClearBody(body: seq<Stmt>) {
    forall i :: 0 <= i < |body| ==> Clear(body[i], false)
  }

  /** Unless a name in the function's scope hides the predeclared panic, lookups in a statement are right
      exactly if it is clear. */
  lemma {:induction false} ResolvedIffClear(s: Stmt, env: set<string>, scope: set<string>)
    requires PANIC !in scope
    ensures Resolved(s, env, scope) <==> Clear(s, PANIC in env)
    decreases s
  {
    match s
    case Labeled(_, t) => ResolvedIffClear(t, env, scope);
    case Block(list) => ListIffClear(list, 0, env, scope);
    case IfStmt(names, body, els) =>
      ResolvedIffClear(body, env + names, scope);
      if els.Some? { ResolvedIffClear(els.value, env + names, scope); }
    case Switch(names, clauses) => ClausesIffClear(clauses, 0, env + names, scope);
    case Select(clauses) => ClausesIffClear(clauses, 0, env, scope);
    case For(names, _, body) => ResolvedIffClear(body, env + names, scope);
    case Range(names, body) => ResolvedIffClear(body, env + names, scope);
    case _ =>
  }

  lemma {:induction false} ListIffClear(list: seq<Stmt>, i: nat, env: set<string>, scope: set<string>)
    requires PANIC !in scope
    ensures ResolvedList(list, i, env, scope) <==> ClearList(list, i, PANIC in env)
    decreases list, |list| - i
  {
    if i < |list| {
      ResolvedIffClear(list[i], env + Before(list, i), scope);
      ListIffClear(list, i + 1, env, scope);
    }
  }

  lemma {:induction false} ClausesIffClear(clauses: seq<Clause>, i: nat, env: set<string>, scope: set<string>)
    requires PANIC !in scope
    ensures ResolvedClauses(clauses, i, env, scope) <==> ClearClauses(clauses, i, PANIC in env)
    decreases clauses, |clauses| - i
  {
    if i < |clauses| {
      ListIffClear(clauses[i].body, 0, env + clauses[i].names, scope);
      ClausesIffClear(clauses, i + 1, env, scope);
    }
  }

  /** With the predeclared panic hidden in the function's scope nothing is taken for it. */
  lemma {:induction false} HiddenResolved(s: Stmt, env: set<string>, scope: set<string>)
    requires PANIC in scope
    ensures Resolved(s, env, scope)
    decreases s
  {
    match s
    case Labeled(_, t) => HiddenResolved(t, env, scope);
    case Block(list) => HiddenList(list, 0, env, scope);
    case IfStmt(names, body, els) =>
      HiddenResolved(body, env + names, scope);
      if els.Some? { HiddenResolved(els.value, env + names, scope); }
    case Switch(names, clauses) => HiddenClauses(clauses, 0, env + names, scope);
    case Select(clauses) => HiddenClauses(clauses, 0, env, scope);
    case For(names, _, body) => HiddenResolved(body, env + names, scope);
    case Range(names, body) => HiddenResolved(body, env + names, scope);
    case _ =>
  }

  lemma {:induction false} HiddenList(list: seq<Stmt>, i: nat, env: set<string>, scope: set<string>)
    requires PANIC in scope
    ensures ResolvedList(list, i, env, scope)
    decreases list, |list| - i
  {
    if i < |list| {
      HiddenResolved(list[i], env + Before(list, i), scope);
      HiddenList(list, i + 1, env, scope);
    }
  }

  lemma {:induction false} HiddenClauses(clauses: seq<Clause>, i: nat, env: set<string>, scope: set<string>)
    requires PANIC in scope
    ensures ResolvedClauses(clauses, i, env, scope)
    decreases clauses, |clauses| - i
  {
    if i < |clauses| {
      HiddenList(clauses[i].body, 0, env + clauses[i].names, scope);
      HiddenClauses(clauses, i + 1, env, scope);
    }
  }

  lemma {:induction false} BeforeGrows(list: seq<Stmt>, i: nat, j: nat)
    requires i <= j <= |list|
    ensures Before(list, i) <= Before(list, j)
    decreases j - i
  {
    if i < j { BeforeGrows(list, i, j - 1); }
  }

  /** The name `panic` is looked up in the scope of the function after the body has been checked, not where
      the call stands. No call is mistaken for one of the predeclared function, exactly if the function's
      scope hides that function, or no nested block around a call of `panic` declares the name before it. */
  lemma PanicLookup(f: Function)
    ensures ResolvedList(f.body, 0, f.Entry(), f.Scope()) <==> PANIC in f.Scope() || ClearBody(f.body)
  {
    if PANIC in f.Scope() {
      HiddenList(f.body, 0, f.Entry(), f.Scope());
    } else {
      ListIffClear(f.body, 0, f.Entry(), f.Scope());
      BodyIsClear(f, 0);
    }
  }

  lemma {:induction false} BodyIsClear(f: Function, i: nat)
    requires i <= |f.body| && PANIC !in f.Scope()
    ensures ClearList(f.body, i, false) <==> forall j :: i <= j < |f.body| ==> Clear(f.body[j], false)
    decreases |f.body| - i
  {
    if i < |f.body| {
      BeforeGrows(f.body, i, |f.body|);
      BodyIsClear(f, i + 1);
    }
  }

  /** Soundness of `isTerminating` for a function's body: under that condition, no execution of a body that
      is found to be terminating completes normally. */
  lemma TerminatingSound(f: Function)
    requires IsTerminating(Block(f.body), "", f.Scope()) && (PANIC in f.Scope() || ClearBody(f.body))
    ensures forall n: nat :: !Exec(Block(f.body), "", f.Entry(), Normal, n)
  {
    PanicLookup(f);
    forall n: nat ensures !Exec(Block(f.body), "", f.Entry(), Normal, n) {
      if Exec(Block(f.body), "", f.Entry(), Normal, n) {
        NeverNormal(Block(f.body), "", f.Entry(), f.Scope(), Normal, n);
      }
    }
  }

  /** `{ panic := func(int) {}; panic(1) }` as the only statement of a body. */
  function Shadowing(): Function {
    Function({}, {}, {}, [Block([Declare({PANIC}), Call(PANIC)])])
  }

  /** Its call returns, yet the body is found to be terminating. */
  lemma ShadowedPanic()
    ensures var f := Shadowing();
            && IsTerminating(Block(f.body), "", f.Scope()) && !ClearBody(f.body)
            && exists n: nat :: Exec(Block(f.body), "", f.Entry(), Normal, n)
  {
    var f, inner := Shadowing(), [Declare({PANIC}), Call(PANIC)];
    assert Before(inner, 1) == Before(inner, 0) + Declared(inner[0]) == {PANIC};
    InnerReturns(inner, {} + {});
    BodyReturns(f, inner);
    assert Exec(Block(f.body), "", f.Entry(), Normal, 6);
    assert Before(f.body, 1) == Before(f.body, 0) + Declared(f.body[0]) == {};
    assert IsTerminating(inner[1], "", f.Scope());
    assert IsTerminating(f.body[0], "", f.Scope());
    assert !Clear(inner[1], true);
    assert ClearList(inner, 0, false) ==> ClearList(inner, 1, false);
    assert !Clear(f.body[0], false);
  }

  lemma InnerReturns(inner: seq<Stmt>, env: set<string>)
    requires inner == [Declare({PANIC}), Call(PANIC)]
    ensures ExecList(inner, 0, env, Normal, 3)
  {
    assert Before(inner, 1) == Before(inner, 0) + Declared(inner[0]) == {PANIC};
    assert ExecList(inner, 2, env, Normal, 1);
    OneRuns(inner, 1, env, 1);
    OneRuns(inner, 0, env, 2);
  }

  lemma BodyReturns(f: Function, inner: seq<Stmt>)
    requires f == Shadowing() && inner == [Declare({PANIC}), Call(PANIC)] && ExecList(inner, 0, f.Entry(), Normal, 3)
    ensures ExecList(f.body, 0, f.Entry(), Normal, 5)
  {
    assert f.Entry() + Before(f.body, 0) == f.Entry();
    assert Exec(f.body[0], "", f.Entry() + Before(f.body, 0), Normal, 4);
    assert ExecList(f.body, 1, f.Entry(), Normal, 4);
    OneRuns(f.body, 0, f.Entry(), 4);
  }

  lemma OneRuns(list: seq<Stmt>, i: nat, env: set<string>, n: nat)
    requires i < |list| && Exec(list[i], "", env + Before(list, i), Normal, n) && ExecList(list, i + 1, env, Normal, n)
    ensures ExecList(list, i, env, Normal, n + 1)
  {
    assert AfterStmt(list, i, env, Normal, Normal, n);
  }
}
