/** Lowered loops do not end before their sources do. */
module LoweringDiverges {
  import opened Values
  import opened Ir
  import opened Stmts
  import opened Flat
  import opened Lowering
  import opened LoweringDomain
  import opened LoweringExprs
  import opened LoweringStmts
  import opened LoweringLabels
  import opened LoweringFunc

  /** The machine makes at least m steps from c. */
  ghost predicate Lasts(p: seq<Instr>, c: Config, m: nat) { Run(p, c, m).Some? }

  lemma {:induction false} RunShorter(p: seq<Instr>, c: Config, m: nat, k: nat)
    requires m <= k && Run(p, c, k).Some?
    ensures Run(p, c, m).Some?
    decreases m
  {
    if m > 0 {
      RunShorter(p, Step(p, c).value, m - 1, k - 1);
    }
  }

  lemma LastsFrom(p: seq<Instr>, c: Config, d: Config, m: nat)
    requires Reaches(p, c, d) && Lasts(p, d, m)
    ensures Lasts(p, c, m)
  {
    var k: nat :| Run(p, c, k) == Some(d);
    RunConcat(p, c, d, k, m);
    RunShorter(p, c, m, k + m);
  }

  // ---------------------------------------------------------------- statements

  /** A statement that its fuel is not enough for keeps the machine busy for as many steps. */
  lemma {:induction false} StmtLasts(st: Stmt, s: CState, p: seq<Instr>, n: nat, env: Env, fenv: Env, fuel: nat, sc: Scope)
    requires Lowerable(st, sc, n) && n <= s.vars && Ready(s, p, sc)
    requires Inside(CompileStmt(st, s), p) && Agree(n, env, fenv) && Exec(st, env, fuel).OutOfFuel?
    ensures Lasts(p, At(s, fenv), fuel)
    decreases fuel, st, 2
  {
    match st
    case If(_, _, _) => IfLasts(st, s, p, n, env, fenv, fuel, sc);
    case For(_, _, _, _) => ForLasts(st, s, p, n, env, fenv, fuel, sc);
    case Cond(clauses) => CondLasts(clauses, s, p, n, env, fenv, fuel, sc);
    case Switch(_, _) => SwitchLasts(st, s, p, n, env, fenv, fuel, sc);
    case Block(stmts) => BlockLasts(stmts, s, p, n, env, fenv, fuel, sc);
    case _ =>
  }

  lemma {:induction false} AddLasts(st: Stmt, s: CState, p: seq<Instr>, n: nat, env: Env, fenv: Env, fuel: nat, sc: Scope)
    requires Lowerable(st, sc, n) && n <= s.vars && Ready(s, p, sc)
    requires Inside(CompileAdd(st, s), p) && Agree(n, env, fenv) && Exec(st, env, fuel).OutOfFuel?
    ensures Lasts(p, At(s, fenv), fuel)
    decreases fuel, st, 3
  {
    if !st.ExprStmt? {
      StmtLasts(st, s, p, n, env, fenv, fuel, sc);
    }
  }

  lemma {:induction false} BlockLasts(stmts: seq<Stmt>, s: CState, p: seq<Instr>, n: nat, env: Env, fenv: Env, fuel: nat,
                                      sc: Scope)
    requires AllLowerable(stmts, sc, n) && n <= s.vars && Ready(s, p, sc)
    requires Inside(CompileBlock(stmts, s), p) && Agree(n, env, fenv) && ExecBlock(stmts, env, fuel).OutOfFuel?
    ensures Lasts(p, At(s, fenv), fuel)
    decreases fuel, stmts, 0
  {
    var s1 := CompileStmt(stmts[0], s);
    var r := Exec(stmts[0], env, fuel);
    InsideBack(s1, CompileBlock(stmts, s), p);
    if r.Done? {
      var env1 := StmtSim(stmts[0], s, p, n, env, fenv, fuel, sc);
      BlockLasts(stmts[1..], s1, p, n, r.env, env1, fuel, sc);
      LastsFrom(p, At(s, fenv), At(s1, env1), fuel);
    } else {
      StmtLasts(stmts[0], s, p, n, env, fenv, fuel, sc);
    }
  }

  // ---------------------------------------------------------------- If

  lemma {:induction false} IfLasts(st: Stmt, s: CState, p: seq<Instr>, n: nat, env: Env, fenv: Env, fuel: nat, sc: Scope)
    requires st.If? && Lowerable(st, sc, n) && n <= s.vars && Ready(s, p, sc)
    requires Inside(CompileIf(st, s), p) && Agree(n, env, fenv) && ExecIf(st, env, fuel).OutOfFuel?
    ensures Lasts(p, At(s, fenv), fuel)
    decreases fuel, st, 1
  {
    var x := CompileExpr(st.test, s);
    CompiledShape(st.test, s);
    InsideBack(x.1, CompileIf(st, s), p);
    var env1 := ValueSim(st.test, s, p, n, env, fenv);
    if x.0.Const? {
      AddLasts(if Truth(ConstValue(x.0)) then st.then_ else st.else_, x.1, p, n, env, env1, fuel, sc);
    } else {
      NegatesCompiled(st.test, x.0, env, env1);
      BranchLasts(st, x.0, x.1, p, n, env, env1, fuel, sc);
    }
    LastsFrom(p, At(s, fenv), At(x.1, env1), fuel);
  }

  lemma {:induction false} BranchLasts(st: Stmt, x: Expr, s: CState, p: seq<Instr>, n: nat, env: Env, fenv: Env,
                                       fuel: nat, sc: Scope)
    requires st.If? && Lowerable(st.then_, sc, n) && Lowerable(st.else_, sc, n)
    requires n <= s.vars && Ready(s, p, sc) && Negates(x, fenv, st.test, env)
    requires Inside(CompileBranches(st, x, s), p) && Agree(n, env, fenv) && ExecIf(st, env, fuel).OutOfFuel?
    ensures Lasts(p, At(s, fenv), fuel)
    decreases fuel, st, 0, 1
  {
    if IsConstStmt(st.else_) {
      NoElseLasts(st, x, s, p, n, env, fenv, fuel, sc);
    } else {
      ElseTooLasts(st, x, s, p, n, env, fenv, fuel, sc);
    }
  }

  lemma {:induction false} ElseTooLasts(st: Stmt, x: Expr, s: CState, p: seq<Instr>, n: nat, env: Env, fenv: Env,
                                        fuel: nat, sc: Scope)
    requires st.If? && !IsConstStmt(st.else_) && Lowerable(st.then_, sc, n) && Lowerable(st.else_, sc, n)
    requires n <= s.vars && Ready(s, p, sc) && Negates(x, fenv, st.test, env)
    requires Inside(CompileBranches(st, x, s), p) && Agree(n, env, fenv) && ExecIf(st, env, fuel).OutOfFuel?
    ensures Lasts(p, At(s, fenv), fuel)
    decreases fuel, st, 0, 0, 1
  {
    var (l, test) := (s.labels, NewUnary(NOT1, x));
    var s1 := s.(labels := l + 2);
    var j := EmitJump(s1, l, test);
    BothLast(st, test, l, s1, j, CompileAdd(st.then_, j), p, n, env, fenv, fuel, sc);
  }

  /** Both branches, from state s on; the first is between the states j and s3. */
  lemma {:induction false} BothLast(st: Stmt, test: Expr, l: nat, s: CState, j: CState, s3: CState, p: seq<Instr>,
                                    n: nat, env: Env, fenv: Env, fuel: nat, sc: Scope)
    requires st.If? && Lowerable(st.then_, sc, n) && Lowerable(st.else_, sc, n) && n <= s.vars && Ready(s, p, sc)
    requires Typed(test) && TestOk(test) && Eval(test, fenv).Val? && Truth(Eval(test, fenv)) == !Truth(Eval(st.test, env))
    requires j == EmitJump(s, l, test) && s3 == CompileAdd(st.then_, j) && Inside(CompileBoth(st, l, j), p)
    requires Agree(n, env, fenv) && ExecIf(st, env, fuel).OutOfFuel?
    ensures Lasts(p, At(s, fenv), fuel)
    decreases fuel, st, 0, 0, 0
  {
    var s6 := CompileAdd(st.else_, Emit(Emit(s3, Goto(l + 1)), LabelI(l)));
    assert CompileBoth(st, l, j) == Emit(s6, LabelI(l + 1));
    BranchesInside(s, s3, s6, l, p);
    if Truth(Eval(st.test, env)) {
      ThenLasts(st.then_, s, l, test, s3, Emit(s3, Goto(l + 1)), p, n, env, fenv, fuel, sc);
    } else {
      SkipLasts(st.else_, s, l, test, Emit(s3, Goto(l + 1)), s6, p, n, env, fenv, fuel, sc);
    }
  }

  lemma {:induction false} NoElseLasts(st: Stmt, x: Expr, s: CState, p: seq<Instr>, n: nat, env: Env, fenv: Env,
                                       fuel: nat, sc: Scope)
    requires st.If? && IsConstStmt(st.else_) && Lowerable(st.then_, sc, n) && n <= s.vars && Ready(s, p, sc)
    requires Inside(CompileBranches(st, x, s), p) && Agree(n, env, fenv) && ExecIf(st, env, fuel).OutOfFuel?
    requires Negates(x, fenv, st.test, env)
    ensures Lasts(p, At(s, fenv), fuel)
    decreases fuel, st, 0, 0
  {
    var s1 := s.(labels := s.labels + 1);
    var s3 := CompileAdd(st.then_, EmitJump(s1, s.labels, NewUnary(NOT1, x)));
    assert CompileBranches(st, x, s) == Emit(s3, LabelI(s.labels));
    assert Exec(st.else_, env, fuel) != OutOfFuel;
    ThenLasts(st.then_, s1, s.labels, NewUnary(NOT1, x), s3, s3, p, n, env, fenv, fuel, sc);
  }

  /** The first branch, up to state t; `mid` is the state before the label behind it. */
  lemma {:induction false} ThenLasts(st: Stmt, s: CState, l: nat, test: Expr, t: CState, mid: CState,
                                     p: seq<Instr>, n: nat, env: Env, fenv: Env, fuel: nat, sc: Scope)
    requires Lowerable(st, sc, n) && n <= s.vars && Ready(s, p, sc)
    requires Typed(test) && TestOk(test) && Eval(test, fenv).Val? && !Truth(Eval(test, fenv))
    requires t == CompileAdd(st, EmitJump(s, l, test)) && t.node <= mid.node && Inside(Emit(mid, LabelI(l)), p)
    requires Agree(n, env, fenv) && Exec(st, env, fuel).OutOfFuel?
    ensures Lasts(p, At(s, fenv), fuel)
    decreases fuel, st, 5
  {
    LabelFound(mid, l, p);
    InsideBack(mid, Emit(mid, LabelI(l)), p);
    InsideBack(t, mid, p);
    EnterLasts(st, s, l, test, |mid.node|, p, n, env, fenv, fuel, sc);
  }

  /** A jump that is not taken, and the statement behind it. */
  lemma {:induction false} EnterLasts(st: Stmt, s: CState, l: nat, test: Expr, pos: nat, p: seq<Instr>, n: nat,
                                      env: Env, fenv: Env, fuel: nat, sc: Scope)
    requires Lowerable(st, sc, n) && n <= s.vars && Ready(s, p, sc)
    requires Typed(test) && TestOk(test) && Eval(test, fenv).Val? && !Truth(Eval(test, fenv))
    requires Inside(CompileAdd(st, EmitJump(s, l, test)), p) && Find(p, l) == Some(pos)
    requires Agree(n, env, fenv) && Exec(st, env, fuel).OutOfFuel?
    ensures Lasts(p, At(s, fenv), fuel)
    decreases fuel, st, 4
  {
    var s1 := EmitJump(s, l, test);
    InsideBack(s1, CompileAdd(st, s1), p);
    EmitJumpSim(s, l, test, p, fenv, pos);
    AddLasts(st, s1, p, n, env, fenv, fuel, sc);
    LastsFrom(p, At(s, fenv), At(s1, fenv), fuel);
  }

  /** A jump that is taken, and the statement behind its label. */
  lemma {:induction false} SkipLasts(st: Stmt, s: CState, l: nat, test: Expr, mid: CState, end: CState,
                                     p: seq<Instr>, n: nat, env: Env, fenv: Env, fuel: nat, sc: Scope)
    requires Lowerable(st, sc, n) && n <= mid.vars && Ready(mid, p, sc) && Extends(EmitJump(s, l, test), mid)
    requires Typed(test) && TestOk(test) && Truth(Eval(test, fenv))
    requires end == CompileAdd(st, Emit(mid, LabelI(l))) && Inside(end, p)
    requires Agree(n, env, fenv) && Exec(st, env, fuel).OutOfFuel?
    ensures Lasts(p, At(s, fenv), fuel)
    decreases fuel, st, 4
  {
    var s5 := Emit(mid, LabelI(l));
    InsideBack(s5, end, p);
    InsideBack(mid, s5, p);
    InsideBack(EmitJump(s, l, test), mid, p);
    SkipSim(s, l, test, mid, p, fenv);
    AddLasts(st, s5, p, n, env, fenv, fuel, sc);
    LastsFrom(p, At(s, fenv), At(s5, fenv), fuel);
  }

  // ---------------------------------------------------------------- Cond

  lemma {:induction false} CondLasts(clauses: seq<Clause>, s: CState, p: seq<Instr>, n: nat, env: Env, fenv: Env,
                                     fuel: nat, sc: Scope)
    requires ClausesLowerable(clauses, sc, n) && n <= s.vars && Ready(s, p, sc)
    requires Inside(CompileCond(clauses, s), p) && Agree(n, env, fenv) && ExecCond(clauses, env, fuel).OutOfFuel?
    ensures Lasts(p, At(s, fenv), fuel)
    decreases fuel, clauses, 1
  {
    var s1 := s.(labels := s.labels + 1);
    ClausesLast(clauses, s.labels, s1, CompileClauses(clauses, s.labels, s1), p, n, env, fenv, fuel, sc);
  }

  /** The clauses from one on; `end` is the state at the end label. */
  lemma {:induction false} ClausesLast(clauses: seq<Clause>, lEnd: nat, s: CState, end: CState, p: seq<Instr>, n: nat,
                                       env: Env, fenv: Env, fuel: nat, sc: Scope)
    requires clauses != [] && ClausesLowerable(clauses, sc, n) && n <= s.vars && Ready(s, p, sc)
    requires end == CompileClauses(clauses, lEnd, s) && Inside(Emit(end, LabelI(lEnd)), p)
    requires Agree(n, env, fenv) && ExecCond(clauses, env, fuel).OutOfFuel?
    ensures Lasts(p, At(s, fenv), fuel)
    decreases fuel, clauses, 0
  {
    var c := clauses[0];
    if |clauses| == 1 {
      assert clauses[1..] == [];
      ClauseLasts(c, lEnd, s, end, p, n, env, fenv, fuel, sc);
    } else {
      var s0 := s.(labels := s.labels + 1);
      var s2 := Emit(CompileClause(c, s.labels, s0), Goto(lEnd));
      var s3 := Emit(s2, LabelI(s.labels));
      ClausesRest(clauses, lEnd, s);
      InsideBack(s3, Emit(end, LabelI(lEnd)), p);
      if Truth(Eval(c.test, env)) {
        ClauseLasts(c, s.labels, s0, s2, p, n, env, fenv, fuel, sc);
      } else {
        RestLasts(clauses[1..], c, lEnd, s.labels, s0, s2, end, p, n, env, fenv, fuel, sc);
      }
    }
  }

  /** One clause whose test is true; s2 is the state before the label behind it. */
  lemma {:induction false} ClauseLasts(cl: Clause, next: nat, s: CState, s2: CState, p: seq<Instr>, n: nat,
                                       env: Env, fenv: Env, fuel: nat, sc: Scope)
    requires ClauseLowerable(cl, sc, n) && n <= s.vars && Ready(s, p, sc)
    requires CompileClause(cl, next, s).node <= s2.node && Inside(Emit(s2, LabelI(next)), p)
    requires Agree(n, env, fenv) && Truth(Eval(cl.test, env)) && ExecBody(cl, env, fuel).OutOfFuel?
    ensures Lasts(p, At(s, fenv), fuel)
    decreases fuel, cl, 4
  {
    var s1 := ClauseTest(cl, next, s);
    InsideBack(CompileAdd(cl.body, s1), Emit(s2, LabelI(next)), p);
    InsideBack(s1, CompileAdd(cl.body, s1), p);
    var env1 := TestSim(cl, next, s, s2, p, n, env, fenv);
    AddLasts(cl.body, s1, p, n, env, env1, fuel, sc);
    LastsFrom(p, At(s, fenv), At(s1, env1), fuel);
  }

  /** The clauses behind one whose test is false. */
  lemma {:induction false} RestLasts(rest: seq<Clause>, cl: Clause, lEnd: nat, next: nat, s: CState, s2: CState,
                                     end: CState, p: seq<Instr>, n: nat, env: Env, fenv: Env, fuel: nat, sc: Scope)
    requires rest != [] && ClauseLowerable(cl, sc, n) && ClausesLowerable(rest, sc, n) && n <= s.vars && Ready(s, p, sc)
    requires ClauseTest(cl, next, s).node <= s2.node && Extends(s, s2) && Inside(Emit(s2, LabelI(next)), p)
    requires end == CompileClauses(rest, lEnd, Emit(s2, LabelI(next))) && Inside(Emit(end, LabelI(lEnd)), p)
    requires Agree(n, env, fenv) && Eval(cl.test, env).Val? && !Truth(Eval(cl.test, env))
    requires ExecCond(rest, env, fuel).OutOfFuel?
    ensures Lasts(p, At(s, fenv), fuel)
    decreases fuel, rest, 1
  {
    var s3 := Emit(s2, LabelI(next));
    InsideBack(ClauseTest(cl, next, s), s3, p);
    var env1 := TestSim(cl, next, s, s2, p, n, env, fenv);
    ClausesLast(rest, lEnd, s3, end, p, n, env, env1, fuel, sc);
    LastsFrom(p, At(s, fenv), At(s3, env1), fuel);
  }

  // ---------------------------------------------------------------- For

  lemma {:induction false} ForLasts(st: Stmt, s: CState, p: seq<Instr>, n: nat, env: Env, fenv: Env, fuel: nat, sc: Scope)
    requires st.For? && Lowerable(st, sc, n) && n <= s.vars && Ready(s, p, sc)
    requires Inside(CompileFor(st, s), p) && Agree(n, env, fenv) && ExecFor(st, env, fuel).OutOfFuel?
    ensures Lasts(p, At(s, fenv), fuel)
    decreases fuel, st, 1
  {
    var r := Exec(st.init, env, fuel);
    var s1 := CompileAdd(st.init, s);
    InsideBack(s1, CompileFor(st, s), p);
    if r.Done? {
      var env1 := AddSim(st.init, s, p, n, env, fenv, fuel, sc);
      LoopStartLasts(st, s1, p, n, r.env, env1, fuel, sc);
      LastsFrom(p, At(s, fenv), At(s1, env1), fuel);
    } else {
      AddLasts(st.init, s, p, n, env, fenv, fuel, sc);
    }
  }

  lemma {:induction false} LoopStartLasts(st: Stmt, s: CState, p: seq<Instr>, n: nat, env: Env, fenv: Env, fuel: nat,
                                          sc: Scope)
    requires st.For? && !st.test.Const? && Lowerable(st, sc, n) && n <= s.vars && Ready(s, p, sc)
    requires Inside(CompileLoop(st, s), p) && Agree(n, env, fenv) && Loop(st, env, fuel).OutOfFuel?
    ensures Lasts(p, At(s, fenv), fuel)
    decreases fuel, st, 0
  {
    var s4 := LoopBody(st, s);
    LoopInside(st, s, p);
    LoopLabels(st, s, p);
    LoopLasts(st, s, p, n, env, fenv, fuel, sc);
    assert LoopEntry(s).node[|s.node|] == Goto(s.labels + 1);
    StepReaches(p, At(s, fenv), At(s4, fenv));
    LastsFrom(p, At(s, fenv), At(s4, fenv), fuel);
  }

  /** What a turn does that its fuel is not enough for. */
  lemma TurnOut(st: Stmt, env: Env, fuel: nat)
    requires st.For? && fuel > 0 && Loop(st, env, fuel).OutOfFuel?
    ensures Truth(Eval(st.test, env))
    ensures var r := Exec(st.body, env, fuel - 1);
      && (r.Done? ==> (r.outcome == Normal || r.outcome == Continues) && LoopPost(st, r.env, fuel).OutOfFuel?)
      && (!r.Done? ==> r.OutOfFuel?)
  {
  }

  lemma PostOut(st: Stmt, env: Env, fuel: nat)
    requires st.For? && fuel > 0 && LoopPost(st, env, fuel).OutOfFuel?
    ensures var r := Exec(st.post, env, fuel - 1);
      && (r.Done? ==> (r.outcome == Normal || r.outcome == Continues) && Loop(st, r.env, fuel - 1).OutOfFuel?)
      && (!r.Done? ==> r.OutOfFuel?)
  {
  }

  /** The turns of a loop: each makes the machine leave the `continue` label at least once. */
  lemma {:induction false} LoopLasts(st: Stmt, s: CState, p: seq<Instr>, n: nat, env: Env, fenv: Env, fuel: nat, sc: Scope)
    requires st.For? && !st.test.Const? && Lowerable(st, sc, n) && n <= s.vars && Ready(s, p, sc)
    requires Inside(CompileLoop(st, s), p) && Agree(n, env, fenv) && Loop(st, env, fuel).OutOfFuel?
    ensures Lasts(p, At(LoopBody(st, s), fenv), fuel)
    decreases fuel, st.body, 2
  {
    if fuel > 0 {
      TurnOut(st, env, fuel);
      var env1 := TestEnters(st, s, p, n, env, fenv);
      TurnLasts(st, s, p, n, env, env1, fuel, sc);
      OneMore(LoopBody(st, s), s.labels + 1, p, fenv, At(LoopEntry(s), env1), fuel);
    }
  }

  lemma OneMore(s: CState, l: nat, p: seq<Instr>, env: Env, d: Config, m: nat)
    requires m > 0 && Inside(Emit(s, LabelI(l)), p)
    requires Reaches(p, At(Emit(s, LabelI(l)), env), d) && Lasts(p, d, m - 1)
    ensures Lasts(p, At(s, env), m)
  {
    LastsFrom(p, At(Emit(s, LabelI(l)), env), d, m - 1);
    assert Step(p, At(s, env)) == Some(At(Emit(s, LabelI(l)), env));
  }

  /** A true test, from behind the `continue` label to the body. */
  lemma TestEnters(st: Stmt, s: CState, p: seq<Instr>, n: nat, env: Env, fenv: Env) returns (env': Env)
    requires st.For? && GoodExpr(st.test) && TestOk(Skeleton(st.test)) && VarsBelow(st.test, n) && n <= s.vars
    requires Inside(CompileLoop(st, s), p) && Agree(n, env, fenv) && Truth(Eval(st.test, env))
    ensures Inside(Emit(LoopBody(st, s), LabelI(s.labels + 1)), p)
    ensures Agree(n, env, env')
    ensures Reaches(p, At(Emit(LoopBody(st, s), LabelI(s.labels + 1)), fenv), At(LoopEntry(s), env'))
  {
    var s1 := LoopGoto(s);
    var s5 := Emit(LoopBody(st, s), LabelI(s.labels + 1));
    LoopTop(st, s, p);
    LoopEnds(st, s, p);
    LoopNodes(st, s);
    env' := JumpIfSim(s.labels, st.test, s5, p, n, env, fenv, |s1.node|);
    EndStep(p, At(s5, fenv), s1, s.labels, env');
  }

  /** One turn, from the body on. */
  lemma {:induction false} TurnLasts(st: Stmt, s: CState, p: seq<Instr>, n: nat, env: Env, fenv: Env, fuel: nat, sc: Scope)
    requires st.For? && !st.test.Const? && Lowerable(st, sc, n) && n <= s.vars && Ready(s, p, sc)
    requires Inside(CompileLoop(st, s), p) && Agree(n, env, fenv) && fuel > 0 && Loop(st, env, fuel).OutOfFuel?
    ensures Lasts(p, At(LoopEntry(s), fenv), fuel - 1)
    decreases fuel, st.body, 1
  {
    var start := At(LoopEntry(s), fenv);
    var r := Exec(st.body, env, fuel - 1);
    TurnOut(st, env, fuel);
    if r.Done? {
      var env1 := RunBody(st, s, p, n, env, fenv, fuel - 1, sc);
      if r.outcome == Continues {
        ContinueOut(st, env, r.env, fuel);
        AgainLasts(st, s, p, n, r.env, env1, start, fuel - 1, sc);
      } else {
        PostLasts(st, s, CompileAdd(st.body, LoopEntry(s)), p, n, r.env, env1, fuel, sc);
        LastsFrom(p, start, At(CompileAdd(st.body, LoopEntry(s)), env1), fuel - 1);
      }
    } else {
      BodyLasts(st, s, p, n, env, fenv, fuel - 1, sc);
    }
  }

  /** A body that continues is followed by an empty `post`. */
  lemma ContinueOut(st: Stmt, before: Env, env: Env, fuel: nat)
    requires st.For? && ForOk(st.test, st.post, st.body) && !st.test.Const? && fuel > 0 && LoopPost(st, env, fuel).OutOfFuel?
    requires Exec(st.body, before, fuel - 1) == Done(Continues, env)
    ensures Loop(st, env, fuel - 1).OutOfFuel?
  {
    ExecContinues(st.body, before, fuel - 1);
    assert Exec(NO_STMT, env, fuel - 1) == Done(Normal, env);
  }

  /** Code that comes to the `continue` label runs the loop again. */
  lemma {:induction false} AgainLasts(st: Stmt, s: CState, p: seq<Instr>, n: nat, env: Env, fenv: Env, start: Config,
                                      fuel: nat, sc: Scope)
    requires st.For? && !st.test.Const? && Lowerable(st, sc, n) && n <= s.vars && Ready(s, p, sc)
    requires Inside(CompileLoop(st, s), p) && Agree(n, env, fenv) && Loop(st, env, fuel).OutOfFuel?
    requires Reaches(p, start, At(LoopBody(st, s), fenv))
    ensures Lasts(p, start, fuel)
    decreases fuel, st.body, 3
  {
    LoopLasts(st, s, p, n, env, fenv, fuel, sc);
    LastsFrom(p, start, At(LoopBody(st, s), fenv), fuel);
  }

  lemma {:induction false} BodyLasts(st: Stmt, s: CState, p: seq<Instr>, n: nat, env: Env, fenv: Env, fuel: nat, sc: Scope)
    requires st.For? && Lowerable(st.body, LoopScope(sc), n) && n <= s.vars && Ready(s, p, sc)
    requires Inside(CompileLoop(st, s), p) && Agree(n, env, fenv) && Exec(st.body, env, fuel).OutOfFuel?
    ensures Lasts(p, At(LoopEntry(s), fenv), fuel)
    decreases fuel, st.body, 4
  {
    LoopInside(st, s, p);
    LoopLabels(st, s, p);
    LoopReady(s, p, sc);
    AddLasts(st.body, LoopEntry(s), p, n, env, fenv, fuel, LoopScope(sc));
  }

  lemma {:induction false} PostLasts(st: Stmt, s: CState, s3: CState, p: seq<Instr>, n: nat, env: Env, fenv: Env, fuel: nat,
                                     sc: Scope)
    requires st.For? && s3 == CompileAdd(st.body, LoopEntry(s)) && !st.test.Const? && Lowerable(st, sc, n)
    requires n <= s.vars && Ready(s, p, sc) && Inside(CompileLoop(st, s), p) && Agree(n, env, fenv)
    requires fuel > 0 && LoopPost(st, env, fuel).OutOfFuel?
    ensures Lasts(p, At(s3, fenv), fuel - 1)
    decreases fuel, st.body, 0
  {
    PostOut(st, env, fuel);
    PostGoes(st, s, s3, p, n, env, Exec(st.post, env, fuel - 1), fenv, fuel - 1, sc);
  }

  lemma {:induction false} PostGoes(st: Stmt, s: CState, s3: CState, p: seq<Instr>, n: nat, env: Env, r: Result, fenv: Env,
                                    fuel: nat, sc: Scope)
    requires st.For? && s3 == CompileAdd(st.body, LoopEntry(s)) && !st.test.Const? && Lowerable(st, sc, n)
    requires n <= s.vars && Ready(s, p, sc) && Inside(CompileLoop(st, s), p) && Agree(n, env, fenv)
    requires r == Exec(st.post, env, fuel) && (r.Done? || r.OutOfFuel?)
    requires r.Done? ==> (r.outcome == Normal || r.outcome == Continues) && Loop(st, r.env, fuel).OutOfFuel?
    ensures Lasts(p, At(s3, fenv), fuel)
    decreases fuel, st, 0
  {
    if r.Done? {
      PostEnds(st, s, s3, p, n, env, r.env, fenv, fuel, sc);
    } else {
      PostRuns(st, s, s3, p, n, env, fenv, fuel, sc);
    }
  }

  /** A `post` that ends, and the turns behind it. */
  lemma {:induction false} PostEnds(st: Stmt, s: CState, s3: CState, p: seq<Instr>, n: nat, before: Env, env: Env, fenv: Env,
                                    fuel: nat, sc: Scope)
    requires st.For? && s3 == CompileAdd(st.body, LoopEntry(s)) && !st.test.Const? && Lowerable(st, sc, n)
    requires n <= s.vars && Ready(s, p, sc) && Inside(CompileLoop(st, s), p) && Agree(n, before, fenv)
    requires Loop(st, env, fuel).OutOfFuel?
    requires Exec(st.post, before, fuel) == Done(Normal, env) || Exec(st.post, before, fuel) == Done(Continues, env)
    ensures Lasts(p, At(s3, fenv), fuel)
    decreases fuel, st.body, 4
  {
    var env1 := RunPost(st, s, p, n, before, fenv, fuel, sc);
    AgainLasts(st, s, p, n, env, env1, At(s3, fenv), fuel, sc);
  }

  lemma {:induction false} PostRuns(st: Stmt, s: CState, s3: CState, p: seq<Instr>, n: nat, env: Env, fenv: Env, fuel: nat,
                                    sc: Scope)
    requires st.For? && s3 == CompileAdd(st.body, LoopEntry(s)) && Lowerable(st.post, LoopScope(sc), n)
    requires n <= s.vars && Ready(s, p, sc)
    requires Inside(CompileLoop(st, s), p) && Agree(n, env, fenv) && Exec(st.post, env, fuel).OutOfFuel?
    ensures Lasts(p, At(s3, fenv), fuel)
    decreases fuel, st.post, 4
  {
    LoopInside(st, s, p);
    LoopLabels(st, s, p);
    LoopReady(s, p, sc);
    LoopStacks(st, s);
    AddLasts(st.post, s3, p, n, env, fenv, fuel, LoopScope(sc));
  }

  // ---------------------------------------------------------------- Switch

  lemma {:induction false} SwitchLasts(st: Stmt, s: CState, p: seq<Instr>, n: nat, env: Env, fenv: Env, fuel: nat, sc: Scope)
    requires st.Switch? && Lowerable(st, sc, n) && n <= s.vars && Ready(s, p, sc)
    requires Inside(CompileSwitch(st, s), p) && Agree(n, env, fenv) && ExecSwitch(st, env, fuel).OutOfFuel?
    ensures Lasts(p, At(s, fenv), fuel)
    decreases fuel, st, 1
  {
    var v := ToVar(st.expr, s);
    var s1 := v.1.(labels := v.1.labels + 1);
    var ls := FirstCase(v.1.labels);
    var end := CompileCases(st.cases, v.0, ls, s1);
    assert CompileSwitch(st, s) == Emit(end, LabelI(ls.end));
    InsideBack(end, CompileSwitch(st, s), p);
    InsideBack(v.1, end, p);
    var env1 := ToVarSim(st.expr, s, p, n, env, fenv);
    CasesLast(st, v.0, ls, s1, end, p, n, env, env1, fuel, sc);
    LastsFrom(p, At(s, fenv), At(s1, env1), fuel);
  }

  lemma {:induction false} CasesLast(st: Stmt, v: Expr, ls: CaseLabels, s: CState, end: CState, p: seq<Instr>, n: nat,
                                     env: Env, fenv: Env, fuel: nat, sc: Scope)
    requires st.Switch? && Lowerable(st, sc, n) && n <= s.vars && Ready(s, p, sc) && v.kind == st.expr.kind
    requires CasesInside(st.cases, v, ls, s, end, p) && ls.default_ == None
    requires Agree(n, env, fenv) && ExecSwitch(st, env, fuel).OutOfFuel? && Holds(v, Eval(st.expr, env), s, fenv)
    ensures Lasts(p, At(s, fenv), fuel)
    decreases fuel, st, 0
  {
    var val := Eval(st.expr, env);
    var i := Select(st.cases, val, env).value;
    assert i == 0 ==> st.cases[i..] == st.cases;
    var env1 := DispatchSim(st.cases, v, val, ls, s, end, p, n, env, fenv, CaseScope(sc));
    BodiesLast(st.cases, i, v, ls, s, end, p, n, env, env1, fuel, sc);
    LastsFrom(p, At(s, fenv), At(BodyStart(st.cases, v, ls, s, i), env1), fuel);
  }

  /** The bodies from case i on. */
  lemma {:induction false} BodiesLast(cases: seq<Case>, i: nat, v: Expr, ls: CaseLabels, s: CState, end: CState,
                                      p: seq<Instr>, n: nat, env: Env, fenv: Env, fuel: nat, sc: Scope)
    requires i < |cases| && CasesLowerable(cases, v.kind, CaseScope(sc), n) && n <= s.vars && Ready(s, p, sc)
    requires CasesInside(cases, v, ls, s, end, p) && Agree(n, env, fenv) && ExecCases(cases[i..], env, fuel).OutOfFuel?
    ensures Lasts(p, At(BodyStart(cases, v, ls, s, i), fenv), fuel)
    decreases fuel, cases, 1
  {
    var last := |cases| == 1;
    var head := CaseHead(cases[0], last, v, ls, s);
    CaseInside(cases, v, ls, s, end, p);
    if i > 0 {
      var t := CaseBody(cases[0], false, head.0, head.1);
      NextInside(cases, v, ls, s, end, p);
      assert cases[i..] == cases[1..][i - 1..];
      assert BodyStart(cases, v, ls, s, i) == BodyStart(cases[1..], v, head.0, t, i - 1);
      BodiesLast(cases[1..], i - 1, v, head.0, t, end, p, n, env, fenv, fuel, sc);
    } else {
      assert cases[0..] == cases;
      FirstLasts(cases, v, head.0, head.1, ls, s, end, p, n, env, fenv, fuel, sc);
    }
  }

  /** The first body, at state s1, and the ones it falls through to. */
  lemma {:induction false} FirstLasts(cases: seq<Case>, v: Expr, ls1: CaseLabels, s1: CState, ls: CaseLabels, s: CState,
                                      end: CState, p: seq<Instr>, n: nat, env: Env, fenv: Env, fuel: nat, sc: Scope)
    requires cases != [] && CasesLowerable(cases, v.kind, CaseScope(sc), n) && n <= s.vars && Ready(s, p, sc)
    requires CasesInside(cases, v, ls, s, end, p) && (ls1, s1) == CaseHead(cases[0], |cases| == 1, v, ls, s)
    requires Agree(n, env, fenv) && ExecCases(cases, env, fuel).OutOfFuel?
    ensures Lasts(p, At(s1, fenv), fuel)
    decreases fuel, cases, 0
  {
    var c := cases[0];
    var last := |cases| == 1;
    var t := CaseBody(c, last, ls1, s1);
    var r := ExecCase(c, env, fuel);
    CaseInside(cases, v, ls, s, end, p);
    LabelFound(end, ls.end, p);
    if last {
      assert cases[1..] == [];
    } else {
      NextInside(cases, v, ls, s, end, p);
      NextFall(cases[1..], v, ls1, t, end, p);
    }
    if r.Done? {
      assert !last && r.outcome == FallsThrough;
      var env1 := BodyLeaves(c, ls1, s1, t, end, p, n, env, fenv, fuel, sc);
      FallLasts(cases[1..], v, ls1, t, At(s1, fenv), end, p, n, r.env, env1, fuel, sc);
    } else {
      CaseLasts(c, last, ls1, s1, p, n, env, fenv, fuel, sc);
    }
  }

  /** Entering the next body through its label. */
  lemma {:induction false} FallLasts(cases: seq<Case>, v: Expr, ls: CaseLabels, s: CState, start: Config, end: CState,
                                     p: seq<Instr>, n: nat, env: Env, fenv: Env, fuel: nat, sc: Scope)
    requires cases != [] && CasesLowerable(cases, v.kind, CaseScope(sc), n) && n <= s.vars && Ready(s, p, sc)
    requires CasesInside(cases, v, ls, s, end, p) && ls.thisFall.Some? && Find(p, ls.thisFall.value).Some?
    requires Agree(n, env, fenv) && ExecCases(cases, env, fuel).OutOfFuel?
    requires Reaches(p, start, Config(Find(p, ls.thisFall.value).value, fenv))
    ensures Lasts(p, start, fuel)
    decreases fuel, cases, 2
  {
    var next := CaseHead(cases[0], |cases| == 1, v, ls, s).1;
    var at := Config(Find(p, ls.thisFall.value).value, fenv);
    NextFall(cases, v, ls, s, end, p);
    assert cases[0..] == cases;
    BodiesLast(cases, 0, v, ls, s, end, p, n, env, fenv, fuel, sc);
    LastsPast(p, start, at, At(next, fenv), fuel);
  }

  lemma LastsPast(p: seq<Instr>, start: Config, at: Config, next: Config, fuel: nat)
    requires Reaches(p, start, at) && Step(p, at) == Some(next) && Lasts(p, next, fuel)
    ensures Lasts(p, start, fuel)
  {
    StepReaches(p, at, next);
    LastsFrom(p, at, next, fuel);
    LastsFrom(p, start, at, fuel);
  }

  lemma {:induction false} CaseLasts(c: Case, last: bool, ls: CaseLabels, s: CState, p: seq<Instr>, n: nat,
                                     env: Env, fenv: Env, fuel: nat, sc: Scope)
    requires ls.thisFall.Some? && Find(p, ls.end).Some? && Find(p, ls.thisFall.value).Some?
    requires Lowerable(c.body, CaseScope(sc), n) && n <= s.vars && Ready(s, p, sc)
    requires Inside(CaseBody(c, last, ls, s), p) && Agree(n, env, fenv) && ExecCase(c, env, fuel).OutOfFuel?
    ensures Lasts(p, At(s, fenv), fuel)
    decreases fuel, c, 4
  {
    var s1 := EnterCase(s, ls.end, ls.thisFall.value);
    assert CompileAdd(c.body, s1).node <= CaseBody(c, last, ls, s).node;
    InsideBack(CompileAdd(c.body, s1), CaseBody(c, last, ls, s), p);
    AddLasts(c.body, s1, p, n, env, fenv, fuel, CaseScope(sc));
  }

  // ---------------------------------------------------------------- functions

  lemma FuncLasts(params: seq<nat>, body: Stmt, vars: nat, n: nat, env: Env, fuel: nat)
    requires Lowerable(body, TOP_SCOPE, n) && n <= vars && Exec(body, env, fuel).OutOfFuel?
    ensures Lasts(CompileFunc(params, body, vars).node, Config(0, env), fuel)
  {
    var code := CompileFunc(params, body, vars).node;
    var s := FuncStart(params, vars);
    FuncLabels(params, body, vars);
    assert s.node <= FuncBody(params, body, vars).node <= code;
    StartSim(params, vars, code, env);
    AddLasts(body, s, code, n, env, env, fuel, TOP_SCOPE);
    LastsFrom(code, Config(0, env), At(s, env), fuel);
  }

  /** A function whose source does not fault stops on the machine if and only if its source ends, with whatever fuel. */
  lemma HaltsExact(params: seq<nat>, body: Stmt, vars: nat, n: nat, env: Env)
    requires Lowerable(body, TOP_SCOPE, n) && n <= vars && Faultless(body, env)
    ensures Stops(CompileFunc(params, body, vars).node, Config(0, env)) <==> Ends(body, env)
  {
    var code := CompileFunc(params, body, vars).node;
    if fuel: nat :| Exec(body, env, fuel).Done? {
      FuncStops(params, body, vars, n, env, fuel);
    } else {
      forall m: nat
        ensures Run(code, Config(0, env), m).Some?
      {
        assert Exec(body, env, m).OutOfFuel?;
        FuncLasts(params, body, vars, n, env, m);
      }
    }
  }

  lemma FuncStops(params: seq<nat>, body: Stmt, vars: nat, n: nat, env: Env, fuel: nat)
    requires Lowerable(body, TOP_SCOPE, n) && n <= vars && Exec(body, env, fuel).Done?
    ensures Stops(CompileFunc(params, body, vars).node, Config(0, env))
  {
    var env' := FuncSim(params, body, vars, n, env, fuel);
    StopsThere(CompileFunc(params, body, vars).node, Config(0, env), env');
  }

  lemma StopsThere(p: seq<Instr>, c: Config, env: Env)
    requires p != [] && p[|p| - 1] == Ret && Reaches(p, c, Config(|p| - 1, env))
    ensures Stops(p, c)
  {
    var end := Config(|p| - 1, env);
    var k: nat :| Run(p, c, k) == Some(end);
    RunConcat(p, c, end, k, 1);
    assert Run(p, c, k + 1).None?;
  }
}
