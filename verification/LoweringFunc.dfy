/** The lowering of whole functions: the machine on the lowered code does what the source does. */
module LoweringFunc {
  import opened Values
  import opened Ir
  import opened Stmts
  import opened Flat
  import opened Lowering
  import opened LoweringDomain
  import opened LoweringExprs
  import opened LoweringStmts
  import opened LoweringLabels

  const TOP_SCOPE: Scope := Scope(false, false, false)

  /** A function body has nowhere to `break`, `continue` or `fallthrough` to. */
  lemma {:induction false} NeverLeaves(st: Stmt, sc: Scope, n: nat, env: Env, fuel: nat)
    requires Lowerable(st, sc, n) && Exec(st, env, fuel).Done?
    ensures Allowed(Exec(st, env, fuel).outcome, sc)
    decreases fuel, st, 1
  {
    match st
    case If(test, a, b) => NeverLeaves(if Truth(Eval(test, env)) then a else b, sc, n, env, fuel);
    case For(init, _, _, _) =>
      NeverLeaves(init, sc, n, env, fuel);
      var r := Exec(init, env, fuel);
      if r.Finished() {
        LoopNeverLeaves(st, sc, n, r.env, fuel);
      }
    case Cond(clauses) => CondNeverLeaves(clauses, sc, n, env, fuel);
    case Switch(expr, cases) =>
      var i := Select(cases, Eval(expr, env), env).value;
      CasesSuffix(cases, i, expr.kind, CaseScope(sc), n);
      CasesNeverLeave(cases[i..], expr.kind, sc, n, env, fuel);
    case Block(stmts) => BlockNeverLeaves(stmts, sc, n, env, fuel);
    case _ =>
  }

  predicate Allowed(o: Outcome, sc: Scope) {
    match o
    case Normal => true
    case Breaks => sc.breaks
    case Continues => sc.continues
    case FallsThrough => sc.fallsThrough
  }

  lemma {:induction false} LoopNeverLeaves(st: Stmt, sc: Scope, n: nat, env: Env, fuel: nat)
    requires st.For? && Lowerable(st, sc, n) && Loop(st, env, fuel).Done?
    ensures Allowed(Loop(st, env, fuel).outcome, sc)
    decreases fuel, st.body, 2
  {
    if Truth(Eval(st.test, env)) {
      NeverLeaves(st.body, LoopScope(sc), n, env, fuel - 1);
      var r := Exec(st.body, env, fuel - 1);
      if r.outcome != FallsThrough && r.outcome != Breaks {
        PostNeverLeaves(st, sc, n, r.env, fuel);
      }
    }
  }

  lemma {:induction false} PostNeverLeaves(st: Stmt, sc: Scope, n: nat, env: Env, fuel: nat)
    requires st.For? && Lowerable(st, sc, n) && !st.test.Const? && fuel > 0 && LoopPost(st, env, fuel).Done?
    ensures Allowed(LoopPost(st, env, fuel).outcome, sc)
    decreases fuel, st.body, 1
  {
    NeverLeaves(st.post, LoopScope(sc), n, env, fuel - 1);
    var q := Exec(st.post, env, fuel - 1);
    if q.outcome != FallsThrough && q.outcome != Breaks {
      LoopNeverLeaves(st, sc, n, q.env, fuel - 1);
    }
  }

  lemma {:induction false} CondNeverLeaves(clauses: seq<Clause>, sc: Scope, n: nat, env: Env, fuel: nat)
    requires ClausesLowerable(clauses, sc, n) && ExecCond(clauses, env, fuel).Done?
    ensures Allowed(ExecCond(clauses, env, fuel).outcome, sc)
    decreases fuel, clauses, 0
  {
    if clauses != [] {
      if Truth(Eval(clauses[0].test, env)) {
        ClauseNeverLeaves(clauses[0], sc, n, env, fuel);
      } else {
        CondNeverLeaves(clauses[1..], sc, n, env, fuel);
      }
    }
  }

  lemma {:induction false} ClauseNeverLeaves(c: Clause, sc: Scope, n: nat, env: Env, fuel: nat)
    requires ClauseLowerable(c, sc, n) && ExecBody(c, env, fuel).Done?
    ensures Allowed(ExecBody(c, env, fuel).outcome, sc)
    decreases fuel, c, 2
  {
    NeverLeaves(c.body, sc, n, env, fuel);
  }

  lemma {:induction false} CasesNeverLeave(cases: seq<Case>, k: Kind, sc: Scope, n: nat, env: Env, fuel: nat)
    requires CasesLowerable(cases, k, CaseScope(sc), n) && ExecCases(cases, env, fuel).Done?
    ensures Allowed(ExecCases(cases, env, fuel).outcome, sc)
    decreases fuel, cases, 0
  {
    if cases != [] {
      CaseNeverLeaves(cases[0], k, CaseScope(sc), n, env, fuel);
      var r := ExecCase(cases[0], env, fuel);
      if r.outcome == FallsThrough {
        CasesNeverLeave(cases[1..], k, sc, n, r.env, fuel);
      }
    }
  }

  lemma {:induction false} CaseNeverLeaves(c: Case, k: Kind, sc: Scope, n: nat, env: Env, fuel: nat)
    requires CaseLowerable(c, k, sc, n) && ExecCase(c, env, fuel).Done?
    ensures Allowed(ExecCase(c, env, fuel).outcome, sc)
    decreases fuel, c, 2
  {
    NeverLeaves(c.body, sc, n, env, fuel);
  }

  lemma {:induction false} CasesSuffix(cases: seq<Case>, i: nat, k: Kind, sc: Scope, n: nat)
    requires i <= |cases| && CasesLowerable(cases, k, sc, n)
    ensures CasesLowerable(cases[i..], k, sc, n)
  {
    if i > 0 {
      CasesSuffix(cases[1..], i - 1, k, sc, n);
      assert cases[i..] == cases[1..][i - 1..];
    } else {
      assert cases[i..] == cases;
    }
  }

  lemma {:induction false} BlockNeverLeaves(stmts: seq<Stmt>, sc: Scope, n: nat, env: Env, fuel: nat)
    requires AllLowerable(stmts, sc, n) && ExecBlock(stmts, env, fuel).Done?
    ensures Allowed(ExecBlock(stmts, env, fuel).outcome, sc)
    decreases fuel, stmts, 0
  {
    if stmts != [] {
      NeverLeaves(stmts[0], sc, n, env, fuel);
      var r := Exec(stmts[0], env, fuel);
      if r.Finished() {
        BlockNeverLeaves(stmts[1..], sc, n, r.env, fuel);
      }
    }
  }

  /** A function whose body ends in a state makes the machine, started at its first instruction, come
      to the final return with that state in the source variables. */
  lemma FuncSim(params: seq<nat>, body: Stmt, vars: nat, n: nat, env: Env, fuel: nat) returns (env': Env)
    requires Lowerable(body, TOP_SCOPE, n) && n <= vars && Exec(body, env, fuel).Done?
    ensures var code := CompileFunc(params, body, vars).node;
      && Exec(body, env, fuel).outcome == Normal
      && Reaches(code, Config(0, env), Config(|code| - 1, env')) && code[|code| - 1] == Ret
      && Agree(n, Exec(body, env, fuel).env, env')
  {
    var code := CompileFunc(params, body, vars).node;
    var s := FuncStart(params, vars);
    var t := FuncBody(params, body, vars);
    FuncLabels(params, body, vars);
    assert t.node <= code;
    assert s.node <= t.node;
    NeverLeaves(body, TOP_SCOPE, n, env, fuel);
    StartSim(params, vars, code, env);
    env' := AddSim(body, s, code, n, env, env, fuel, TOP_SCOPE);
    ReachesTrans(code, Config(0, env), At(s, env), At(t, env'));
  }

  lemma StartSim(params: seq<nat>, vars: nat, p: seq<Instr>, env: Env)
    requires FuncStart(params, vars).node <= p
    ensures Reaches(p, Config(0, env), At(FuncStart(params, vars), env))
  {
    StepReaches(p, Config(0, env), Config(1, env));
    if params != [] {
      StepReaches(p, Config(1, env), Config(2, env));
      ReachesTrans(p, Config(0, env), Config(1, env), Config(2, env));
    }
  }
}
