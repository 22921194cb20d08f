/** The converse of the soundness of go/types/return.go: what is not found to be terminating can end, and a
    break that is found can be taken. */
module Endings {
  import opened Types
  import opened Returns

  // ---------------------------------------------------------------------------
  // Executions of any depth

  ghost predicate Can(s: Stmt, own: string, env: set<string>, o: Outcome) {
    exists n: nat :: Exec(s, own, env, o, n)
  }

  ghost predicate CanList(list: seq<Stmt>, i: nat, env: set<string>, o: Outcome) {
    exists n: nat :: ExecList(list, i, env, o, n)
  }

  ghost predicate CanClause(clauses: seq<Clause>, i: nat, own: string, env: set<string>, o: Outcome)
    requires i < |clauses|
  {
    exists n: nat :: ExecClause(clauses, i, own, env, o, n)
  }

  /** An execution stays one if more depth is allowed. */
  lemma {:induction false} ExecMore(s: Stmt, own: string, env: set<string>, o: Outcome, n: nat, m: nat)
    requires Exec(s, own, env, o, n) && n <= m
    ensures Exec(s, own, env, o, m)
    decreases n
  {
    var d: nat := n - 1;
    match s
    case Labeled(l, t) => ExecMore(t, l, env, o, d, m - 1);
    case Block(list) => ListMore(list, 0, env, o, d, m - 1);
    case IfStmt(names, body, els) =>
      if Exec(body, "", env + names, o, d) { ExecMore(body, "", env + names, o, d, m - 1); }
      if els.Some? && Exec(els.value, "", env + names, o, d) { ExecMore(els.value, "", env + names, o, d, m - 1); }
    case Switch(names, clauses) =>
      if i: nat :| i < |clauses| && ExecClause(clauses, i, own, env + names, o, d) {
        ClauseMore(clauses, i, own, env + names, o, d, m - 1);
      }
    case Select(clauses) =>
      if i: nat :| i < |clauses| && ExecClause(clauses, i, own, env, o, d) { ClauseMore(clauses, i, own, env, o, d, m - 1); }
    case For(_, _, body) => if ExecLoop(s, body, own, env, o, d) { LoopMore(s, body, own, env, o, d, m - 1); }
    case Range(_, body) => if ExecLoop(s, body, own, env, o, d) { LoopMore(s, body, own, env, o, d, m - 1); }
    case _ =>
  }

  lemma {:induction false} LoopMore(s: Stmt, body: Stmt, own: string, env: set<string>, o: Outcome, n: nat, m: nat)
    requires ExecLoop(s, body, own, env, o, n) && n <= m
    ensures ExecLoop(s, body, own, env, o, m)
    decreases n
  {
    var o1 :| Exec(body, "", env + LoopNames(s), o1, n - 1) && AfterRound(s, own, env, o1, o, n - 1);
    ExecMore(body, "", env + LoopNames(s), o1, n - 1, m - 1);
    if Again(o1, own) { ExecMore(s, own, env, o, n - 1, m - 1); }
    assert AfterRound(s, own, env, o1, o, m - 1);
  }

  lemma {:induction false} ListMore(list: seq<Stmt>, i: nat, env: set<string>, o: Outcome, n: nat, m: nat)
    requires ExecList(list, i, env, o, n) && n <= m
    ensures ExecList(list, i, env, o, m)
    decreases n
  {
    if i < |list| {
      var o1 :| Exec(list[i], "", env + Before(list, i), o1, n - 1) && AfterStmt(list, i, env, o1, o, n - 1);
      ExecMore(list[i], "", env + Before(list, i), o1, n - 1, m - 1);
      if o1.Normal? {
        ListMore(list, i + 1, env, o, n - 1, m - 1);
      } else if j: nat :| Lands(list, o1, j) && ExecList(list, j, env, o, n - 1) {
        ListMore(list, j, env, o, n - 1, m - 1);
      }
      assert AfterStmt(list, i, env, o1, o, m - 1);
    }
  }

  lemma {:induction false} ClauseMore(clauses: seq<Clause>, i: nat, own: string, env: set<string>, o: Outcome, n: nat, m: nat)
    requires i < |clauses| && ExecClause(clauses, i, own, env, o, n) && n <= m
    ensures ExecClause(clauses, i, own, env, o, m)
    decreases n
  {
    var inner := env + clauses[i].names;
    var o1 :| ExecList(clauses[i].body, 0, inner, o1, n - 1) && AfterClause(clauses, i, own, env, o1, o, n - 1);
    ListMore(clauses[i].body, 0, inner, o1, n - 1, m - 1);
    if o1.FallsThrough? && i + 1 < |clauses| { ClauseMore(clauses, i + 1, own, env, o, n - 1, m - 1); }
    assert AfterClause(clauses, i, own, env, o1, o, m - 1);
  }

  lemma BlockCan(list: seq<Stmt>, own: string, env: set<string>, o: Outcome)
    requires CanList(list, 0, env, o)
    ensures Can(Block(list), own, env, o)
  {
    var n: nat :| ExecList(list, 0, env, o, n);
    assert Exec(Block(list), own, env, o, n + 1);
  }

  /** A statement that completes is followed by the next one. */
  lemma Follow(list: seq<Stmt>, i: nat, env: set<string>, o: Outcome)
    requires i < |list| && Can(list[i], "", env + Before(list, i), Normal) && CanList(list, i + 1, env, o)
    ensures CanList(list, i, env, o)
  {
    var n: nat :| Exec(list[i], "", env + Before(list, i), Normal, n);
    var m: nat :| ExecList(list, i + 1, env, o, m);
    var k := if n > m then n else m;
    ExecMore(list[i], "", env + Before(list, i), Normal, n, k);
    ListMore(list, i + 1, env, o, m, k);
    assert AfterStmt(list, i, env, Normal, o, k);
    assert ExecList(list, i, env, o, k + 1);
  }

  /** The outcomes that the converse is about. */
  predicate Ends(o: Outcome) {
    o.Normal? || o.Breaks? || o.Continues?
  }

  /** A list ends with a statement that breaks or continues, or with its last statement. */
  lemma LastOne(list: seq<Stmt>, i: nat, env: set<string>, o: Outcome)
    requires i < |list| && Ends(o) && (o.Normal? ==> i + 1 == |list|) && Can(list[i], "", env + Before(list, i), o)
    ensures CanList(list, i, env, o)
  {
    if o.Normal? {
      assert ExecList(list, i + 1, env, Normal, 1);
      Follow(list, i, env, o);
    } else {
      var n: nat :| Exec(list[i], "", env + Before(list, i), o, n);
      assert AfterStmt(list, i, env, o, o, n);
      assert ExecList(list, i, env, o, n + 1);
    }
  }

  lemma ClauseCan(clauses: seq<Clause>, i: nat, own: string, env: set<string>, o: Outcome)
    requires i < |clauses| && Ends(o) && CanList(clauses[i].body, 0, env + clauses[i].names, o)
    ensures CanClause(clauses, i, own, env, if Leaves(o, own) then Normal else o)
  {
    var n: nat :| ExecList(clauses[i].body, 0, env + clauses[i].names, o, n);
    var o' := if Leaves(o, own) then Normal else o;
    assert AfterClause(clauses, i, own, env, o, o', n);
    assert ExecClause(clauses, i, own, env, o', n + 1);
  }

  lemma ChoiceCan(s: Stmt, i: nat, own: string, env: set<string>, o: Outcome)
    requires s.Switch? || s.Select?
    requires i < |s.clauses| && CanClause(s.clauses, i, own, if s.Switch? then env + s.names else env, o)
    ensures Can(s, own, env, o)
  {
    var n: nat :| ExecClause(s.clauses, i, own, if s.Switch? then env + s.names else env, o, n);
    assert Exec(s, own, env, o, n + 1);
  }

  /** A break ends a loop, or what is around it. */
  lemma LoopCan(s: Stmt, own: string, env: set<string>, o: Outcome)
    requires (s.For? || s.Range?) && o.Breaks? && Can(s.body, "", env + s.names, o)
    ensures Can(s, own, env, if Leaves(o, own) then Normal else o)
  {
    var n: nat :| Exec(s.body, "", env + s.names, o, n);
    var o' := if Leaves(o, own) then Normal else o;
    assert AfterRound(s, own, env, o, o', n);
    assert ExecLoop(s, s.body, own, env, o', n + 1);
    assert Exec(s, own, env, o', n + 2);
  }

  lemma IfCan(s: Stmt, own: string, env: set<string>, o: Outcome)
    requires s.IfStmt?
    requires Can(s.body, "", env + s.names, o) || (s.els.Some? && Can(s.els.value, "", env + s.names, o))
    ensures Can(s, own, env, o)
  {
    if Can(s.body, "", env + s.names, o) {
      var n: nat :| Exec(s.body, "", env + s.names, o, n);
      assert Exec(s, own, env, o, n + 1);
    } else {
      var n: nat :| Exec(s.els.value, "", env + s.names, o, n);
      assert Exec(s, own, env, o, n + 1);
    }
  }

  lemma LabeledCan(l: string, t: Stmt, own: string, env: set<string>, o: Outcome)
    requires Can(t, l, env, o)
    ensures Can(Labeled(l, t), own, env, o)
  {
    var n: nat :| Exec(t, l, env, o, n);
    assert Exec(Labeled(l, t), own, env, o, n + 1);
  }

  // ---------------------------------------------------------------------------
  // Regular code

  /** Every statement but the last of its list can complete normally; no label is that of a statement around
      its own, and none is empty; and the lookup of panic is right for every call, both ways. */
  ghost predicate Regular(s: Stmt, env: set<string>, scope: set<string>, around: set<string>) {
    match s
    case Labeled(l, t) => l != "" && l !in around && Regular(t, env, scope, around + {l})
    case Call(callee) => FoundPanic(callee, scope) <==> IsPanic(callee, env)
    case Branch(_, target) => target != Some("")
    case Block(list) => RegularList(list, 0, env, scope, around)
    case IfStmt(names, body, els) =>
      Regular(body, env + names, scope, around) && (els.Some? ==> Regular(els.value, env + names, scope, around))
    case Switch(names, clauses) => RegularClauses(clauses, 0, env + names, scope, around)
    case Select(clauses) => RegularClauses(clauses, 0, env, scope, around)
    case For(names, _, body) => Regular(body, env + names, scope, around)
    case Range(names, body) => Regular(body, env + names, scope, around)
    case _ => true
  }

  ghost predicate RegularList(list: seq<Stmt>, i: nat, env: set<string>, scope: set<string>, around: set<string>)
    decreases list, |list| - i
  {
    i >= |list| ||
    (Regular(list[i], env + Before(list, i), scope, around) && (i + 1 < |list| ==> Can(list[i], "", env + Before(list, i), Normal))
     && RegularList(list, i + 1, env, scope, around))
  }

  ghost predicate RegularClauses(clauses: seq<Clause>, i: nat, env: set<string>, scope: set<string>, around: set<string>)
    decreases clauses, |clauses| - i
  {
    i >= |clauses| ||
    (RegularList(clauses[i].body, 0, env + clauses[i].names, scope, around) && RegularClauses(clauses, i + 1, env, scope, around))
  }

  lemma {:induction false} RegularAt(clauses: seq<Clause>, i: nat, j: nat, env: set<string>, scope: set<string>, around: set<string>)
    requires RegularClauses(clauses, i, env, scope, around) && i <= j < |clauses|
    ensures RegularList(clauses[j].body, 0, env + clauses[j].names, scope, around)
    decreases j - i
  {
    if i < j { RegularAt(clauses, i + 1, j, env, scope, around); }
  }

  lemma {:induction false} RegularResolved(s: Stmt, env: set<string>, scope: set<string>, around: set<string>)
    requires Regular(s, env, scope, around)
    ensures Resolved(s, env, scope)
    decreases s
  {
    match s
    case Labeled(l, t) => RegularResolved(t, env, scope, around + {l});
    case Block(list) => ListResolved(list, 0, env, scope, around);
    case IfStmt(names, body, els) =>
      RegularResolved(body, env + names, scope, around);
      if els.Some? { RegularResolved(els.value, env + names, scope, around); }
    case Switch(names, clauses) => ClausesResolved(clauses, 0, env + names, scope, around);
    case Select(clauses) => ClausesResolved(clauses, 0, env, scope, around);
    case For(names, _, body) => RegularResolved(body, env + names, scope, around);
    case Range(names, body) => RegularResolved(body, env + names, scope, around);
    case _ =>
  }

  lemma {:induction false} ListResolved(list: seq<Stmt>, i: nat, env: set<string>, scope: set<string>, around: set<string>)
    requires RegularList(list, i, env, scope, around)
    ensures ResolvedList(list, i, env, scope)
    decreases list, |list| - i
  {
    if i < |list| {
      RegularResolved(list[i], env + Before(list, i), scope, around);
      ListResolved(list, i + 1, env, scope, around);
    }
  }

  lemma {:induction false} ClausesResolved(clauses: seq<Clause>, i: nat, env: set<string>, scope: set<string>, around: set<string>)
    requires RegularClauses(clauses, i, env, scope, around)
    ensures ResolvedClauses(clauses, i, env, scope)
    decreases clauses, |clauses| - i
  {
    if i < |clauses| {
      ListResolved(clauses[i].body, 0, env + clauses[i].names, scope, around);
      ClausesResolved(clauses, i + 1, env, scope, around);
    }
  }

  // ---------------------------------------------------------------------------
  // Breaks that are found are taken

  /** Some execution ends in a break that hasBreak has found. */
  lemma {:induction false} BreakTaken(s: Stmt, own: string, env: set<string>, scope: set<string>, around: set<string>, lbl: string, implicit: bool)
      returns (o: Outcome)
    requires HasBreak(s, lbl, implicit) && Regular(s, env, scope, around) && (lbl == "" || (lbl in around && lbl != own))
    ensures Sought(o, lbl, implicit) && Can(s, own, env, o)
    decreases s
  {
    match s {
      case Labeled(l, t) =>
        o := BreakTaken(t, l, env, scope, around + {l}, lbl, implicit);
        LabeledCan(l, t, own, env, o);
      case Branch(tok, target) =>
        o := Breaks(target);
        assert Exec(s, own, env, o, 1);
      case Block(list) =>
        o := ListBreak(list, 0, env, scope, around, lbl, implicit);
        BlockCan(list, own, env, o);
      case IfStmt(names, body, els) =>
        if HasBreak(body, lbl, implicit) {
          o := BreakTaken(body, "", env + names, scope, around, lbl, implicit);
        } else {
          o := BreakTaken(els.value, "", env + names, scope, around, lbl, implicit);
        }
        IfCan(s, own, env, o);
      case Switch(names, clauses) =>
        var i;
        i, o := ClauseBreak(clauses, 0, own, env + names, scope, around, lbl);
        ChoiceCan(s, i, own, env, o);
      case Select(clauses) =>
        var i;
        i, o := ClauseBreak(clauses, 0, own, env, scope, around, lbl);
        ChoiceCan(s, i, own, env, o);
      case For(names, _, body) =>
        o := BreakTaken(body, "", env + names, scope, around, lbl, false);
        LoopCan(s, own, env, o);
      case Range(names, body) =>
        o := BreakTaken(body, "", env + names, scope, around, lbl, false);
        LoopCan(s, own, env, o);
    }
  }

  lemma {:induction false} ListBreak(list: seq<Stmt>, i: nat, env: set<string>, scope: set<string>, around: set<string>, lbl: string, implicit: bool)
      returns (o: Outcome)
    requires HasBreakList(list, i, lbl, implicit) && RegularList(list, i, env, scope, around) && (lbl == "" || lbl in around)
    ensures Sought(o, lbl, implicit) && CanList(list, i, env, o)
    decreases list, |list| - i
  {
    if HasBreak(list[i], lbl, implicit) {
      o := BreakTaken(list[i], "", env + Before(list, i), scope, around, lbl, implicit);
      LastOne(list, i, env, o);
    } else {
      o := ListBreak(list, i + 1, env, scope, around, lbl, implicit);
      Follow(list, i, env, o);
    }
  }

  lemma {:induction false} ClauseBreak(clauses: seq<Clause>, i: nat, own: string, env: set<string>, scope: set<string>, around: set<string>, lbl: string)
      returns (j: nat, o: Outcome)
    requires HasBreakClauses(clauses, i, lbl) && RegularClauses(clauses, i, env, scope, around) && lbl in around && lbl != own
    ensures j < |clauses| && Sought(o, lbl, false) && CanClause(clauses, j, own, env, o)
    decreases clauses, |clauses| - i
  {
    if HasBreakList(clauses[i].body, 0, lbl, false) {
      o := ListBreak(clauses[i].body, 0, env + clauses[i].names, scope, around, lbl, false);
      j := i;
      ClauseCan(clauses, i, own, env, o);
    } else {
      j, o := ClauseBreak(clauses, i + 1, own, env, scope, around, lbl);
    }
  }

  // ---------------------------------------------------------------------------
  // What is not terminating ends

  /** A statement that is not found to be terminating has an execution that completes normally, or that ends in
      a break or continue. */
  lemma {:induction false} EndReached(s: Stmt, own: string, env: set<string>, scope: set<string>, around: set<string>) returns (o: Outcome)
    requires !IsTerminating(s, own, scope) && Regular(s, env, scope, around) && (own == "" || own in around)
    ensures Ends(o) && Can(s, own, env, o)
    decreases s
  {
    match s {
      case Labeled(l, t) =>
        o := EndReached(t, l, env, scope, around + {l});
        LabeledCan(l, t, own, env, o);
      case Branch(tok, target) =>
        o := BranchOutcome(tok, target);
        assert Exec(s, own, env, o, 1);
      case Block(list) =>
        o := ListEnd(list, 0, env, scope, around);
        BlockCan(list, own, env, o);
      case IfStmt(names, body, els) =>
        if els.None? {
          o := Normal;
          assert Exec(s, own, env, o, 1);
        } else {
          if !IsTerminating(body, "", scope) {
            o := EndReached(body, "", env + names, scope, around);
          } else {
            o := EndReached(els.value, "", env + names, scope, around);
          }
          IfCan(s, own, env, o);
        }
      case Switch(names, clauses) =>
        if AllTerminating(clauses, 0, own, scope) {
          o := Normal;
          assert Exec(s, own, env, o, 1);
        } else {
          var i;
          i, o := ClauseEnd(clauses, 0, own, env + names, scope, around);
          ChoiceCan(s, i, own, env, o);
        }
      case Select(clauses) =>
        var i;
        i, o := ClauseEnd(clauses, 0, own, env, scope, around);
        ChoiceCan(s, i, own, env, o);
      case For(names, hasCond, body) =>
        o := Normal;
        if hasCond {
          assert Exec(s, own, env, o, 1);
        } else {
          var o1 := BreakTaken(body, "", env + names, scope, around, own, true);
          LoopCan(s, own, env, o1);
        }
      case Simple =>
        o := Normal;
        assert Exec(s, own, env, o, 1);
      case Declare(_) =>
        o := Normal;
        assert Exec(s, own, env, o, 1);
      case Call(_) =>
        o := Normal;
        assert Exec(s, own, env, o, 1);
      case Range(_, _) =>
        o := Normal;
        assert Exec(s, own, env, o, 1);
    }
  }

  lemma {:induction false} ListEnd(list: seq<Stmt>, i: nat, env: set<string>, scope: set<string>, around: set<string>) returns (o: Outcome)
    requires !IsTerminatingList(list, "", scope) && i <= |list| && RegularList(list, i, env, scope, around)
    ensures Ends(o) && CanList(list, i, env, o)
    decreases list, |list| - i
  {
    if i == |list| {
      o := Normal;
      assert ExecList(list, i, env, o, 1);
    } else if i + 1 == |list| {
      o := EndReached(list[i], "", env + Before(list, i), scope, around);
      LastOne(list, i, env, o);
    } else {
      o := ListEnd(list, i + 1, env, scope, around);
      Follow(list, i, env, o);
    }
  }

  lemma {:induction false} ClauseEnd(clauses: seq<Clause>, i: nat, own: string, env: set<string>, scope: set<string>, around: set<string>)
      returns (j: nat, o: Outcome)
    requires !AllTerminating(clauses, i, own, scope) && RegularClauses(clauses, i, env, scope, around) && (own == "" || own in around)
    ensures j < |clauses| && Ends(o) && CanClause(clauses, j, own, env, o)
    decreases clauses, |clauses| - i
  {
    var (list, inner) := (clauses[i].body, env + clauses[i].names);
    if IsTerminatingList(list, "", scope) && !HasBreakList(list, 0, own, true) {
      j, o := ClauseEnd(clauses, i + 1, own, env, scope, around);
    } else {
      var o1;
      if !IsTerminatingList(list, "", scope) {
        o1 := ListEnd(list, 0, inner, scope, around);
      } else {
        o1 := ListBreak(list, 0, inner, scope, around, own, true);
      }
      j, o := i, if Leaves(o1, own) then Normal else o1;
      ClauseCan(clauses, i, own, env, o1);
    }
  }

  // ---------------------------------------------------------------------------
  // Bodies

  /** Breaks and continues that may come out of the statement are among those in out. */
  predicate Contained(s: Stmt, own: string, out: set<Outcome>) {
    match s
    case Labeled(l, t) => Contained(t, l, out)
    case Branch(tok, target) => tok == BREAK || tok == CONTINUE ==> BranchOutcome(tok, target) in out
    case Block(list) => ContainedList(list, 0, out)
    case IfStmt(_, body, els) => Contained(body, "", out) && (els.Some? ==> Contained(els.value, "", out))
    case Switch(_, clauses) => ContainedClauses(clauses, 0, out + Caught(own, false))
    case Select(clauses) => ContainedClauses(clauses, 0, out + Caught(own, false))
    case For(_, _, body) => Contained(body, "", out + Caught(own, true))
    case Range(_, body) => Contained(body, "", out + Caught(own, true))
    case _ => true
  }

  /** What a statement with the label catches. */
  function Caught(own: string, loop: bool): set<Outcome> {
    {Breaks(None)} + (if loop then {Continues(None)} else {})
    + (if own == "" then {} else {Breaks(Some(own))} + if loop then {Continues(Some(own))} else {})
  }

  predicate ContainedList(list: seq<Stmt>, i: nat, out: set<Outcome>)
    decreases list, |list| - i
  {
    i >= |list| || (Contained(list[i], "", out) && ContainedList(list, i + 1, out))
  }

  predicate ContainedClauses(clauses: seq<Clause>, i: nat, out: set<Outcome>)
    decreases clauses, |clauses| - i
  {
    i >= |clauses| || (ContainedList(clauses[i].body, 0, out) && ContainedClauses(clauses, i + 1, out))
  }

  lemma {:induction false} ContainedAt(list: seq<Stmt>, i: nat, j: nat, out: set<Outcome>)
    requires ContainedList(list, i, out) && i <= j < |list|
    ensures Contained(list[j], "", out)
    decreases j - i
  {
    if i < j { ContainedAt(list, i + 1, j, out); }
  }

  lemma {:induction false} ClauseContained(clauses: seq<Clause>, i: nat, j: nat, out: set<Outcome>)
    requires ContainedClauses(clauses, i, out) && i <= j < |clauses|
    ensures ContainedList(clauses[j].body, 0, out)
    decreases j - i
  {
    if i < j { ClauseContained(clauses, i + 1, j, out); }
  }

  predicate Escapes(o: Outcome) {
    o.Breaks? || o.Continues?
  }

  lemma {:induction false} StaysInside(s: Stmt, own: string, env: set<string>, o: Outcome, n: nat, out: set<Outcome>)
    requires Exec(s, own, env, o, n) && Contained(s, own, out) && Escapes(o)
    ensures o in out
    decreases n
  {
    match s
    case Labeled(l, t) => StaysInside(t, l, env, o, n - 1, out);
    case Block(list) => ListInside(list, 0, env, o, n - 1, out);
    case IfStmt(names, body, els) =>
      if Exec(body, "", env + names, o, n - 1) {
        StaysInside(body, "", env + names, o, n - 1, out);
      } else {
        StaysInside(els.value, "", env + names, o, n - 1, out);
      }
    case Switch(names, clauses) =>
      var i: nat :| i < |clauses| && ExecClause(clauses, i, own, env + names, o, n - 1);
      ClauseInside(clauses, i, own, env + names, o, n - 1, out);
    case Select(clauses) =>
      var i: nat :| i < |clauses| && ExecClause(clauses, i, own, env, o, n - 1);
      ClauseInside(clauses, i, own, env, o, n - 1, out);
    case For(_, _, body) => LoopInside(s, own, env, o, n - 1, out);
    case Range(_, body) => LoopInside(s, own, env, o, n - 1, out);
    case _ =>
  }

  lemma {:induction false} ListInside(list: seq<Stmt>, i: nat, env: set<string>, o: Outcome, n: nat, out: set<Outcome>)
    requires ExecList(list, i, env, o, n) && ContainedList(list, 0, out) && Escapes(o)
    ensures o in out
    decreases n
  {
    var o1 :| Exec(list[i], "", env + Before(list, i), o1, n - 1) && AfterStmt(list, i, env, o1, o, n - 1);
    if o1.Normal? {
      ListInside(list, i + 1, env, o, n - 1, out);
    } else if o == o1 {
      ContainedAt(list, 0, i, out);
      StaysInside(list[i], "", env + Before(list, i), o, n - 1, out);
    } else {
      var j: nat :| Lands(list, o1, j) && ExecList(list, j, env, o, n - 1);
      ListInside(list, j, env, o, n - 1, out);
    }
  }

  lemma {:induction false} ClauseInside(clauses: seq<Clause>, i: nat, own: string, env: set<string>, o: Outcome, n: nat, out: set<Outcome>)
    requires i < |clauses| && ExecClause(clauses, i, own, env, o, n) && Escapes(o)
    requires ContainedClauses(clauses, 0, out + Caught(own, false))
    ensures o in out
    decreases n
  {
    var inner := env + clauses[i].names;
    var o1 :| ExecList(clauses[i].body, 0, inner, o1, n - 1) && AfterClause(clauses, i, own, env, o1, o, n - 1);
    if o1.FallsThrough? && i + 1 < |clauses| {
      ClauseInside(clauses, i + 1, own, env, o, n - 1, out);
    } else {
      ClauseContained(clauses, 0, i, out + Caught(own, false));
      ListInside(clauses[i].body, 0, inner, o, n - 1, out + Caught(own, false));
    }
  }

  lemma {:induction false} LoopInside(s: Stmt, own: string, env: set<string>, o: Outcome, n: nat, out: set<Outcome>)
    requires (s.For? || s.Range?) && ExecLoop(s, s.body, own, env, o, n) && Escapes(o)
    requires Contained(s.body, "", out + Caught(own, true))
    ensures o in out
    decreases n
  {
    var o1 :| Exec(s.body, "", env + LoopNames(s), o1, n - 1) && AfterRound(s, own, env, o1, o, n - 1);
    if Again(o1, own) {
      LoopAgain(s, own, env, o, n - 1);
      LoopInside(s, own, env, o, n - 2, out);
    } else {
      StaysInside(s.body, "", env + LoopNames(s), o, n - 1, out + Caught(own, true));
    }
  }

  /** For regular code whose breaks and continues stay inside, a body is found to be terminating if and only if
      no execution of it completes normally. */
  lemma TerminatingExact(f: Function)
    requires Regular(Block(f.body), f.Entry(), f.Scope(), {}) && Contained(Block(f.body), "", {})
    ensures IsTerminating(Block(f.body), "", f.Scope()) <==> !Can(Block(f.body), "", f.Entry(), Normal)
  {
    var s := Block(f.body);
    if IsTerminating(s, "", f.Scope()) {
      RegularResolved(s, f.Entry(), f.Scope(), {});
      if n: nat :| Exec(s, "", f.Entry(), Normal, n) { NeverNormal(s, "", f.Entry(), f.Scope(), Normal, n); }
    } else {
      var o := EndReached(s, "", f.Entry(), f.Scope(), {});
      if !o.Normal? {
        var n: nat :| Exec(s, "", f.Entry(), o, n);
        StaysInside(s, "", f.Entry(), o, n, {});
      }
    }
  }

  /** The body of a function literal, `panic(1)`, where the function around it declares `panic` after it. */
  function HiddenLater(): Function {
    Function({}, {PANIC}, {}, [Call(PANIC)])
  }

  /** Its call never returns, yet the body is not found to be terminating: the lookup finds the later name. */
  lemma LaterPanic()
    ensures var f := HiddenLater();
            !IsTerminating(Block(f.body), "", f.Scope()) && !Can(Block(f.body), "", f.Entry(), Normal)
  {
    var f := HiddenLater();
    assert Before(f.body, 0) == {} && PANIC in f.Scope();
    assert !IsTerminating(f.body[0], "", f.Scope());
    forall n: nat ensures !Exec(Block(f.body), "", f.Entry(), Normal, n) {
      if n > 1 && ExecList(f.body, 0, f.Entry(), Normal, n - 1) { NotPastPanic(f, n - 1); }
    }
  }

  lemma NotPastPanic(f: Function, n: nat)
    requires f == HiddenLater()
    ensures !ExecList(f.body, 0, f.Entry(), Normal, n)
  {
    if n > 0 {
      var m: nat := n - 1;
      assert Before(f.body, 0) == {};
      forall o1 | Exec(f.body[0], "", f.Entry() + Before(f.body, 0), o1, m) ensures o1.Panics? {}
    }
  }
}
