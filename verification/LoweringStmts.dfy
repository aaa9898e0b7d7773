/** Lowered statements do what their sources do. */
module LoweringStmts {
  import opened Values
  import opened Ir
  import opened Stmts
  import opened Flat
  import opened Lowering
  import opened LoweringDomain
  import opened LoweringExprs

  /** Where execution goes on after an outcome: behind the code, or at the innermost destination. */
  function Dest(o: Outcome, s: CState, t: CState, p: seq<Instr>): Option<nat> {
    match o
    case Normal => Some(|t.node|)
    case Breaks => FindTop(s.breaks, p)
    case Continues => FindTop(s.continues, p)
    case FallsThrough => FindTop(s.fallthroughs, p)
  }

  function FindTop(stack: seq<nat>, p: seq<Instr>): Option<nat> {
    match Top(stack)
    case None => None
    case Some(l) => Find(p, l)
  }

  /** The destinations that the scope promises are there. */
  ghost predicate Ready(s: CState, p: seq<Instr>, sc: Scope) {
    && (sc.breaks ==> FindTop(s.breaks, p).Some?)
    && (sc.continues ==> FindTop(s.continues, p).Some?)
    && (sc.fallsThrough ==> FindTop(s.fallthroughs, p).Some?)
  }

  /** From `start`, the machine reaches what the source result r says, on the first n variables. */
  ghost predicate Follows(p: seq<Instr>, start: Config, r: Result, s: CState, t: CState, n: nat, env': Env) {
    && r.Done? && Dest(r.outcome, s, t, p).Some?
    && Reaches(p, start, Config(Dest(r.outcome, s, t, p).value, env'))
    && Agree(n, r.env, env')
  }

  lemma FollowsFrom(p: seq<Instr>, start: Config, mid: Config, r: Result, s: CState, t: CState, n: nat, env': Env)
    requires Reaches(p, start, mid) && Follows(p, mid, r, s, t, n, env')
    ensures Follows(p, start, r, s, t, n, env')
  {
    ReachesTrans(p, start, mid, Config(Dest(r.outcome, s, t, p).value, env'));
  }

  lemma FollowsStacks(p: seq<Instr>, start: Config, r: Result, s1: CState, s: CState, t: CState, n: nat, env': Env)
    requires Follows(p, start, r, s1, t, n, env') && Extends(s, s1)
    ensures Follows(p, start, r, s, t, n, env')
  {
  }

  // ---------------------------------------------------------------- expressions and jumps

  /** ExprSim where the machine agrees with the source on the source variables only. */
  lemma ValueSim(e: Expr, s: CState, p: seq<Instr>, n: nat, env: Env, fenv: Env) returns (env': Env)
    requires GoodExpr(e) && VarsBelow(e, n) && n <= s.vars && Agree(n, env, fenv)
    requires Inside(CompileExpr(e, s).1, p) && Eval(e, env).Val?
    ensures Reaches(p, At(s, fenv), At(CompileExpr(e, s).1, env'))
    ensures Agree(n, env, env')
    ensures Eval(CompileExpr(e, s).0, env') == Eval(e, env)
  {
    VarsBelowMore(e, n, s.vars);
    EvalAgree(e, n, env, fenv);
    QuietRuns(e, fenv);
    env' := ExprSim(e, s, p, fenv);
  }

  lemma JumpIfSim(target: nat, test: Expr, s: CState, p: seq<Instr>, n: nat, env: Env, fenv: Env, pos: nat)
    returns (env': Env)
    requires GoodExpr(test) && TestOk(Skeleton(test)) && VarsBelow(test, n) && n <= s.vars
    requires Agree(n, env, fenv) && Eval(test, env).Val?
    requires Inside(CompileJumpIf(target, test, s), p) && Find(p, target) == Some(pos)
    ensures Agree(n, env, env')
    ensures Reaches(p, At(s, fenv),
      if Truth(Eval(test, env)) then Config(pos, env') else At(CompileJumpIf(target, test, s), env'))
  {
    var c := CompileExpr(test, s);
    env' := ValueSim(test, s, p, n, env, fenv);
    CompiledShape(test, s);
    TestOkErased(c.0);
    EmitJumpSim(c.1, target, c.0, p, env', pos);
    var dest := if Truth(Eval(test, env)) then Config(pos, env') else At(CompileJumpIf(target, test, s), env');
    ReachesTrans(p, At(s, fenv), At(c.1, env'), dest);
  }

  lemma NotMeaning(test: Expr, env: Env)
    requires Typed(test) && Lowers(test) && Eval(test, env).Val?
    ensures var t := NewUnary(NOT1, test);
      && GoodExpr(t) && Eval(t, env).Val? && Truth(Eval(t, env)) == !Truth(Eval(test, env))
      && Skeleton(t) == NewUnary(NOT1, Skeleton(test))
  {
  }

  // ---------------------------------------------------------------- statements

  lemma {:induction false} StmtSim(st: Stmt, s: CState, p: seq<Instr>, n: nat, env: Env, fenv: Env, fuel: nat, sc: Scope)
    returns (env': Env)
    requires Lowerable(st, sc, n) && n <= s.vars && Ready(s, p, sc)
    requires Inside(CompileStmt(st, s), p) && Agree(n, env, fenv) && Exec(st, env, fuel).Done?
    ensures Follows(p, At(s, fenv), Exec(st, env, fuel), s, CompileStmt(st, s), n, env')
    decreases fuel, st, 2
  {
    match st
    case ExprStmt(e) => env' := ValueSim(e, s, p, n, env, fenv);
    case Assign(op, k, id, src) => env' := AssignSim(op, k, id, src, s, p, n, env, fenv);
    case Inc(k, id) => env' := IncSim(s, k, id, p, n, env, fenv);
    case Dec(k, id) => env' := DecSim(s, k, id, p, n, env, fenv);
    case If(_, _, _) => env' := IfSim(st, s, p, n, env, fenv, fuel, sc);
    case For(_, _, _, _) => env' := ForSim(st, s, p, n, env, fenv, fuel, sc);
    case Cond(clauses) => env' := CondSim(clauses, s, p, n, env, fenv, fuel, sc);
    case Switch(_, _) => env' := SwitchSim(st, s, p, n, env, fenv, fuel, sc);
    case Block(stmts) => env' := BlockSim(stmts, s, p, n, env, fenv, fuel, sc);
    case Break => env' := fenv; GotoTopSim(s.breaks, s, p, fenv);
    case Continue => env' := fenv; GotoTopSim(s.continues, s, p, fenv);
    case Fallthrough => env' := fenv; GotoTopSim(s.fallthroughs, s, p, fenv);
  }

  lemma GotoTopSim(stack: seq<nat>, s: CState, p: seq<Instr>, env: Env)
    requires Inside(EmitGotoTop(stack, s), p) && FindTop(stack, p).Some?
    ensures Reaches(p, At(s, env), Config(FindTop(stack, p).value, env))
  {
    StepReaches(p, At(s, env), Config(FindTop(stack, p).value, env));
  }

  lemma AssignSim(op: AssignOp, k: Kind, id: nat, src: Expr, s: CState, p: seq<Instr>, n: nat, env: Env, fenv: Env)
    returns (env': Env)
    requires GoodExpr(src) && VarsBelow(src, n) && id < n && n <= s.vars && Agree(n, env, fenv)
    requires Inside(CompileAssign(op, k, id, src, s), p)
    requires AssignValue(op, Eval(Var(k, id), env), Eval(src, env)).Val?
    ensures var v := AssignValue(op, Eval(Var(k, id), env), Eval(src, env));
      && Reaches(p, At(s, fenv), At(CompileAssign(op, k, id, src, s), env'))
      && Agree(n, env[id := v.num], env')
  {
    var c := CompileExpr(src, s);
    var t := CompileAssign(op, k, id, src, s);
    var env1 := ValueSim(src, s, p, n, env, fenv);
    var v := AssignValue(op, Eval(Var(k, id), env), Eval(src, env));
    assert Eval(Var(k, id), env1) == Eval(Var(k, id), env);
    AgreeUpdate(n, env, env1, id, v.num);
    env' := env1[id := v.num];
    StoreStep(c.1, op, k, id, c.0, p, env1, v);
    ReachesTrans(p, At(s, fenv), At(c.1, env1), At(t, env'));
  }

  lemma StoreStep(s: CState, op: AssignOp, k: Kind, id: nat, src: Expr, p: seq<Instr>, env: Env, v: Value)
    requires Inside(Emit(s, Let(op, k, id, src)), p)
    requires v.Val? && v == AssignValue(op, Eval(Var(k, id), env), Eval(src, env))
    ensures Reaches(p, At(s, env), At(Emit(s, Let(op, k, id, src)), env[id := v.num]))
  {
    assert Step(p, At(s, env)) == StoreNext(At(s, env), id, v);
    StepReaches(p, At(s, env), At(Emit(s, Let(op, k, id, src)), env[id := v.num]));
  }

  lemma IncSim(s: CState, k: Kind, id: nat, p: seq<Instr>, n: nat, env: Env, fenv: Env) returns (env': Env)
    requires id < n && Agree(n, env, fenv) && Inside(Emit(s, IncI(k, id)), p)
    ensures var v := TupleStep(ADD, Eval(Var(k, id), env), Val(k, 1));
      && v.Val? && Agree(n, env[id := v.num], env')
      && Reaches(p, At(s, fenv), At(Emit(s, IncI(k, id)), env'))
  {
    assert Read(env, id) == Read(fenv, id);
    var v := TupleStep(ADD, Eval(Var(k, id), env), Val(k, 1));
    AgreeUpdate(n, env, fenv, id, v.num);
    env' := fenv[id := v.num];
    StepReaches(p, At(s, fenv), At(Emit(s, IncI(k, id)), env'));
  }

  lemma DecSim(s: CState, k: Kind, id: nat, p: seq<Instr>, n: nat, env: Env, fenv: Env) returns (env': Env)
    requires id < n && Agree(n, env, fenv) && Inside(Emit(s, DecI(k, id)), p)
    ensures var v := EvalBinaryOp(SUB, Eval(Var(k, id), env), Val(k, 1));
      && v.Val? && Agree(n, env[id := v.num], env')
      && Reaches(p, At(s, fenv), At(Emit(s, DecI(k, id)), env'))
  {
    assert Read(env, id) == Read(fenv, id);
    var v := EvalBinaryOp(SUB, Eval(Var(k, id), env), Val(k, 1));
    AgreeUpdate(n, env, fenv, id, v.num);
    env' := fenv[id := v.num];
    StepReaches(p, At(s, fenv), At(Emit(s, DecI(k, id)), env'));
  }

  /** compile_add(): an expression statement also leaves its expression in the code. */
  lemma {:induction false} AddSim(st: Stmt, s: CState, p: seq<Instr>, n: nat, env: Env, fenv: Env, fuel: nat, sc: Scope)
    returns (env': Env)
    requires Lowerable(st, sc, n) && n <= s.vars && Ready(s, p, sc)
    requires Inside(CompileAdd(st, s), p) && Agree(n, env, fenv) && Exec(st, env, fuel).Done?
    ensures Follows(p, At(s, fenv), Exec(st, env, fuel), s, CompileAdd(st, s), n, env')
    decreases fuel, st, 3
  {
    if st.ExprStmt? {
      var c := CompileExpr(st.e, s);
      env' := ValueSim(st.e, s, p, n, env, fenv);
      DiscardSim(c.1, c.0, p, env');
      ReachesTrans(p, At(s, fenv), At(c.1, env'), At(CompileAdd(st, s), env'));
    } else {
      env' := StmtSim(st, s, p, n, env, fenv, fuel, sc);
    }
  }

  lemma {:induction false} BlockSim(stmts: seq<Stmt>, s: CState, p: seq<Instr>, n: nat, env: Env, fenv: Env, fuel: nat,
                                    sc: Scope)
    returns (env': Env)
    requires AllLowerable(stmts, sc, n) && n <= s.vars && Ready(s, p, sc)
    requires Inside(CompileBlock(stmts, s), p) && Agree(n, env, fenv) && ExecBlock(stmts, env, fuel).Done?
    ensures Follows(p, At(s, fenv), ExecBlock(stmts, env, fuel), s, CompileBlock(stmts, s), n, env')
    decreases fuel, stmts, 0
  {
    env' := fenv;
    if stmts == [] {
      ReachesSelf(p, At(s, fenv));
    } else {
      var s1 := CompileStmt(stmts[0], s);
      var r := Exec(stmts[0], env, fuel);
      env' := StmtSim(stmts[0], s, p, n, env, fenv, fuel, sc);
      if r.Finished() {
        var env1 := env';
        env' := BlockSim(stmts[1..], s1, p, n, r.env, env1, fuel, sc);
        FollowsFrom(p, At(s, fenv), At(s1, env1), ExecBlock(stmts, env, fuel), s, CompileBlock(stmts, s), n, env');
      }
    }
  }

  /** Code that ends in a label goes on behind it. */
  lemma ThenLabel(p: seq<Instr>, start: Config, r: Result, s: CState, t: CState, l: nat, n: nat, env': Env)
    requires Follows(p, start, r, s, t, n, env') && Inside(Emit(t, LabelI(l)), p)
    ensures Follows(p, start, r, s, Emit(t, LabelI(l)), n, env')
  {
    if r.Finished() {
      StepReaches(p, At(t, env'), At(Emit(t, LabelI(l)), env'));
      ReachesTrans(p, start, At(t, env'), At(Emit(t, LabelI(l)), env'));
    }
  }

  /** Code that ends in a jump to a label goes on behind that label. */
  lemma ThenGoto(p: seq<Instr>, start: Config, r: Result, s: CState, t: CState, l: nat, end: CState, n: nat, env': Env)
    requires Follows(p, start, r, s, t, n, env') && Inside(Emit(t, Goto(l)), p)
    requires Inside(Emit(end, LabelI(l)), p)
    ensures Follows(p, start, r, s, Emit(end, LabelI(l)), n, env')
  {
    if r.Finished() {
      LabelFound(end, l, p);
      StepReaches(p, At(t, env'), At(end, env'));
      StepReaches(p, At(end, env'), At(Emit(end, LabelI(l)), env'));
      ReachesTrans(p, start, At(t, env'), At(end, env'));
      ReachesTrans(p, start, At(end, env'), At(Emit(end, LabelI(l)), env'));
    }
  }

  lemma LabelFound(t: CState, l: nat, p: seq<Instr>)
    requires Inside(Emit(t, LabelI(l)), p)
    ensures Find(p, l) == Some(|t.node|)
  {
    assert p[|t.node|] == LabelI(l);
    FindPlaced(p, |t.node|);
  }

  lemma {:induction false} IfSim(st: Stmt, s: CState, p: seq<Instr>, n: nat, env: Env, fenv: Env, fuel: nat, sc: Scope)
    returns (env': Env)
    requires st.If? && Lowerable(st, sc, n) && n <= s.vars && Ready(s, p, sc)
    requires Inside(CompileIf(st, s), p) && Agree(n, env, fenv) && ExecIf(st, env, fuel).Done?
    ensures Follows(p, At(s, fenv), ExecIf(st, env, fuel), s, CompileIf(st, s), n, env')
    decreases fuel, st, 1
  {
    var (x, s1) := CompileExpr(st.test, s);
    CompiledShape(st.test, s);
    assert CompileIf(st, s) == CompiledIf(st, x, s1);
    InsideBack(s1, CompileIf(st, s), p);
    var env1 := ValueSim(st.test, s, p, n, env, fenv);
    env' := TestedIf(st, x, s1, p, At(s, fenv), n, env, env1, fuel, sc);
    FollowsStacks(p, At(s, fenv), ExecIf(st, env, fuel), s1, s, CompileIf(st, s), n, env');
  }

  lemma {:induction false} TestedIf(st: Stmt, x: Expr, s: CState, p: seq<Instr>, start: Config, n: nat, env: Env,
                                    fenv: Env, fuel: nat, sc: Scope)
    returns (env': Env)
    requires st.If? && Lowerable(st, sc, n) && n <= s.vars && Ready(s, p, sc)
    requires Typed(x) && Erase(x) == Skeleton(st.test) && Eval(x, fenv) == Eval(st.test, env)
    requires Inside(CompiledIf(st, x, s), p) && Agree(n, env, fenv) && ExecIf(st, env, fuel).Done?
    requires Reaches(p, start, At(s, fenv))
    ensures Follows(p, start, ExecIf(st, env, fuel), s, CompiledIf(st, x, s), n, env')
    decreases fuel, st, 0, 3
  {
    env' := CompiledIfSim(st, x, s, p, n, env, fenv, fuel, sc);
    FollowsFrom(p, start, At(s, fenv), ExecIf(st, env, fuel), s, CompiledIf(st, x, s), n, env');
  }

  /** compile(If) from its compiled test on. */
  function CompiledIf(st: Stmt, x: Expr, s: CState): (t: CState)
    requires st.If?
    ensures Extends(s, t)
  {
    if x.Const? then CompileAdd(if Truth(ConstValue(x)) then st.then_ else st.else_, s) else CompileBranches(st, x, s)
  }

  lemma {:induction false} CompiledIfSim(st: Stmt, x: Expr, s: CState, p: seq<Instr>, n: nat, env: Env, fenv: Env,
                                         fuel: nat, sc: Scope)
    returns (env': Env)
    requires st.If? && Lowerable(st, sc, n) && n <= s.vars && Ready(s, p, sc)
    requires Typed(x) && Erase(x) == Skeleton(st.test) && Eval(x, fenv) == Eval(st.test, env)
    requires Inside(CompiledIf(st, x, s), p) && Agree(n, env, fenv) && ExecIf(st, env, fuel).Done?
    ensures Follows(p, At(s, fenv), ExecIf(st, env, fuel), s, CompiledIf(st, x, s), n, env')
    decreases fuel, st, 0, 2
  {
    if x.Const? {
      env' := AddSim(if Truth(ConstValue(x)) then st.then_ else st.else_, s, p, n, env, fenv, fuel, sc);
    } else {
      NegatesCompiled(st.test, x, env, fenv);
      env' := BranchSim(st, x, s, p, n, env, fenv, fuel, sc);
    }
  }

  /** The negated, compiled test of `if`. */
  ghost predicate Negates(x: Expr, fenv: Env, test: Expr, env: Env) {
    var t := NewUnary(NOT1, x);
    && Typed(t) && TestOk(t) && Eval(t, fenv).Val?
    && Truth(Eval(t, fenv)) == !Truth(Eval(test, env))
  }

  lemma NegatesCompiled(test: Expr, x: Expr, env: Env, fenv: Env)
    requires IfOk(test) && Typed(x) && Erase(x) == Skeleton(test) && !x.Const?
    requires Eval(x, fenv).Val? && Eval(x, fenv) == Eval(test, env)
    ensures Negates(x, fenv, test, env)
  {
    TestOkErased(NewUnary(NOT1, x));
  }

  lemma {:induction false} NoElseSim(st: Stmt, x: Expr, s: CState, s3: CState, p: seq<Instr>, n: nat, env: Env, fenv: Env,
                                     fuel: nat, sc: Scope)
    returns (env': Env)
    requires st.If? && IsConstStmt(st.else_) && Lowerable(st.then_, sc, n) && n <= s.vars && Ready(s, p, sc)
    requires s3 == CompileAdd(st.then_, EmitJump(s.(labels := s.labels + 1), s.labels, NewUnary(NOT1, x)))
    requires Inside(Emit(s3, LabelI(s.labels)), p) && Agree(n, env, fenv) && ExecIf(st, env, fuel).Done?
    requires Negates(x, fenv, st.test, env)
    ensures Follows(p, At(s, fenv), ExecIf(st, env, fuel), s, Emit(s3, LabelI(s.labels)), n, env')
    decreases fuel, st, 0, 0
  {
    var test := NewUnary(NOT1, x);
    if Truth(Eval(st.test, env)) {
      env' := GuardedSim(st.then_, test, s, s3, p, n, env, fenv, fuel, sc);
    } else {
      env' := fenv;
      GuardSkips(st.then_, test, s, s3, p, n, env, fenv);
    }
  }

  /** The same when the jump is taken. */
  lemma GuardSkips(st: Stmt, test: Expr, s: CState, end: CState, p: seq<Instr>, n: nat, env: Env, fenv: Env)
    requires end == CompileAdd(st, EmitJump(s.(labels := s.labels + 1), s.labels, test))
    requires Inside(Emit(end, LabelI(s.labels)), p) && Agree(n, env, fenv)
    requires Typed(test) && TestOk(test) && Truth(Eval(test, fenv))
    ensures Follows(p, At(s, fenv), Done(Normal, env), s, Emit(end, LabelI(s.labels)), n, fenv)
  {
    SkipSim(s.(labels := s.labels + 1), s.labels, test, end, p, fenv);
  }

  /** A statement behind a jump that is not taken, with the label of the jump at its end. */
  lemma {:induction false} GuardedSim(st: Stmt, test: Expr, s: CState, end: CState, p: seq<Instr>, n: nat, env: Env,
                                      fenv: Env, fuel: nat, sc: Scope)
    returns (env': Env)
    requires Lowerable(st, sc, n) && n <= s.vars && Ready(s, p, sc) && Agree(n, env, fenv)
    requires Typed(test) && TestOk(test) && Eval(test, fenv).Val? && !Truth(Eval(test, fenv))
    requires end == CompileAdd(st, EmitJump(s.(labels := s.labels + 1), s.labels, test))
    requires Inside(Emit(end, LabelI(s.labels)), p) && Exec(st, env, fuel).Done?
    ensures Follows(p, At(s, fenv), Exec(st, env, fuel), s, Emit(end, LabelI(s.labels)), n, env')
    decreases fuel, st, 5
  {
    LabelFound(end, s.labels, p);
    env' := EnterSim(st, s.(labels := s.labels + 1), s.labels, test, |end.node|, p, n, env, fenv, fuel, sc);
    ThenLabel(p, At(s, fenv), Exec(st, env, fuel), s, end, s.labels, n, env');
  }

  lemma {:induction false} BranchSim(st: Stmt, x: Expr, s: CState, p: seq<Instr>, n: nat, env: Env, fenv: Env,
                                     fuel: nat, sc: Scope)
    returns (env': Env)
    requires st.If? && Lowerable(st.then_, sc, n) && Lowerable(st.else_, sc, n)
    requires n <= s.vars && Ready(s, p, sc) && Negates(x, fenv, st.test, env)
    requires Inside(CompileBranches(st, x, s), p) && Agree(n, env, fenv) && ExecIf(st, env, fuel).Done?
    ensures Follows(p, At(s, fenv), ExecIf(st, env, fuel), s, CompileBranches(st, x, s), n, env')
    decreases fuel, st, 0, 1
  {
    if IsConstStmt(st.else_) {
      var s3 := CompileAdd(st.then_, EmitJump(s.(labels := s.labels + 1), s.labels, NewUnary(NOT1, x)));
      env' := NoElseSim(st, x, s, s3, p, n, env, fenv, fuel, sc);
    } else {
      env' := ElseToo(st, x, s, p, n, env, fenv, fuel, sc);
    }
  }

  lemma {:induction false} ElseToo(st: Stmt, x: Expr, s: CState, p: seq<Instr>, n: nat, env: Env, fenv: Env,
                                   fuel: nat, sc: Scope)
    returns (env': Env)
    requires st.If? && !IsConstStmt(st.else_) && Lowerable(st.then_, sc, n) && Lowerable(st.else_, sc, n)
    requires n <= s.vars && Ready(s, p, sc) && Negates(x, fenv, st.test, env)
    requires Inside(CompileBranches(st, x, s), p) && Agree(n, env, fenv) && ExecIf(st, env, fuel).Done?
    ensures Follows(p, At(s, fenv), ExecIf(st, env, fuel), s, CompileBranches(st, x, s), n, env')
    decreases fuel, st, 0, 0, 1
  {
    var (l, test) := (s.labels, NewUnary(NOT1, x));
    var s1 := s.(labels := l + 2);
    var j := EmitJump(s1, l, test);
    env' := BothSim(st, test, l, s1, j, CompileAdd(st.then_, j), p, n, env, fenv, fuel, sc);
    FollowsStacks(p, At(s1, fenv), ExecIf(st, env, fuel), s1, s, CompileBranches(st, x, s), n, env');
  }

  /** Both branches, from state s on; the first is between the states j and s3. */
  lemma {:induction false} BothSim(st: Stmt, test: Expr, l: nat, s: CState, j: CState, s3: CState, p: seq<Instr>,
                                   n: nat, env: Env, fenv: Env, fuel: nat, sc: Scope)
    returns (env': Env)
    requires st.If? && Lowerable(st.then_, sc, n) && Lowerable(st.else_, sc, n) && n <= s.vars && Ready(s, p, sc)
    requires Typed(test) && TestOk(test) && Eval(test, fenv).Val? && Truth(Eval(test, fenv)) == !Truth(Eval(st.test, env))
    requires j == EmitJump(s, l, test) && s3 == CompileAdd(st.then_, j) && Inside(CompileBoth(st, l, j), p)
    requires Agree(n, env, fenv) && ExecIf(st, env, fuel).Done?
    ensures Follows(p, At(s, fenv), ExecIf(st, env, fuel), s, CompileBoth(st, l, j), n, env')
    decreases fuel, st, 0, 0, 0
  {
    var s6 := CompileAdd(st.else_, Emit(Emit(s3, Goto(l + 1)), LabelI(l)));
    assert CompileBoth(st, l, j) == Emit(s6, LabelI(l + 1));
    BranchesInside(s, s3, s6, l, p);
    if Truth(Eval(st.test, env)) {
      env' := ThenSim(st.then_, test, l, s, s3, s6, p, n, env, fenv, fuel, sc);
    } else {
      env' := ElseSim(st.else_, test, l, s, Emit(s3, Goto(l + 1)), s6, p, n, env, fenv, fuel, sc);
    }
  }

  lemma BranchesInside(s1: CState, s3: CState, s6: CState, l: nat, p: seq<Instr>)
    requires Extends(s1, s3) && Extends(Emit(Emit(s3, Goto(l + 1)), LabelI(l)), s6) && Inside(Emit(s6, LabelI(l + 1)), p)
    ensures Inside(Emit(Emit(s3, Goto(l + 1)), LabelI(l)), p) && Inside(s6, p)
  {
    InsideBack(s6, Emit(s6, LabelI(l + 1)), p);
    InsideBack(Emit(Emit(s3, Goto(l + 1)), LabelI(l)), s6, p);
  }

  /** The first branch, between the states s and t; `end` is the state behind the second one. */
  lemma {:induction false} ThenSim(b: Stmt, test: Expr, l: nat, s: CState, t: CState, end: CState, p: seq<Instr>,
                                   n: nat, env: Env, fenv: Env, fuel: nat, sc: Scope)
    returns (env': Env)
    requires Lowerable(b, sc, n) && n <= s.vars && Ready(s, p, sc) && Agree(n, env, fenv) && Exec(b, env, fuel).Done?
    requires Typed(test) && TestOk(test) && Eval(test, fenv).Val? && !Truth(Eval(test, fenv))
    requires t == CompileAdd(b, EmitJump(s, l, test)) && Inside(Emit(Emit(t, Goto(l + 1)), LabelI(l)), p)
    requires Inside(Emit(end, LabelI(l + 1)), p)
    ensures Follows(p, At(s, fenv), Exec(b, env, fuel), s, Emit(end, LabelI(l + 1)), n, env')
    decreases fuel, b, 5
  {
    var t1 := Emit(t, Goto(l + 1));
    LabelFound(t1, l, p);
    InsideBack(t1, Emit(t1, LabelI(l)), p);
    InsideBack(t, t1, p);
    env' := EnterSim(b, s, l, test, |t1.node|, p, n, env, fenv, fuel, sc);
    ThenGoto(p, At(s, fenv), Exec(b, env, fuel), s, t, l + 1, end, n, env');
  }

  /** The second branch, between the states mid and end. */
  lemma {:induction false} ElseSim(b: Stmt, test: Expr, l: nat, s: CState, mid: CState, end: CState, p: seq<Instr>,
                                   n: nat, env: Env, fenv: Env, fuel: nat, sc: Scope)
    returns (env': Env)
    requires Lowerable(b, sc, n) && n <= mid.vars && Ready(mid, p, sc) && Extends(EmitJump(s, l, test), mid)
    requires Typed(test) && TestOk(test) && Truth(Eval(test, fenv))
    requires end == CompileAdd(b, Emit(mid, LabelI(l))) && Inside(end, p) && Inside(Emit(end, LabelI(l + 1)), p)
    requires Agree(n, env, fenv) && Exec(b, env, fuel).Done?
    ensures Follows(p, At(s, fenv), Exec(b, env, fuel), s, Emit(end, LabelI(l + 1)), n, env')
    decreases fuel, b, 5
  {
    env' := ElseBody(b, s, l, test, mid, p, n, env, fenv, fuel, sc);
    ThenLabel(p, At(s, fenv), Exec(b, env, fuel), s, end, l + 1, n, env');
  }

  /** A jump that is not taken, and the statement behind it. */
  lemma {:induction false} EnterSim(st: Stmt, s: CState, l: nat, test: Expr, pos: nat, p: seq<Instr>, n: nat,
                                    env: Env, fenv: Env, fuel: nat, sc: Scope)
    returns (env': Env)
    requires Lowerable(st, sc, n) && n <= s.vars && Ready(s, p, sc)
    requires Typed(test) && TestOk(test) && Eval(test, fenv).Val? && !Truth(Eval(test, fenv))
    requires Inside(CompileAdd(st, EmitJump(s, l, test)), p) && Find(p, l) == Some(pos)
    requires Agree(n, env, fenv) && Exec(st, env, fuel).Done?
    ensures Follows(p, At(s, fenv), Exec(st, env, fuel), s, CompileAdd(st, EmitJump(s, l, test)), n, env')
    decreases fuel, st, 4
  {
    var s1 := EmitJump(s, l, test);
    EmitJumpSim(s, l, test, p, fenv, pos);
    env' := AddSim(st, s1, p, n, env, fenv, fuel, sc);
    FollowsFrom(p, At(s, fenv), At(s1, fenv), Exec(st, env, fuel), s, CompileAdd(st, s1), n, env');
  }

  /** A jump to a label that is taken. */
  lemma SkipSim(s: CState, l: nat, test: Expr, mid: CState, p: seq<Instr>, env: Env)
    requires Inside(EmitJump(s, l, test), p) && Inside(Emit(mid, LabelI(l)), p)
    requires Typed(test) && TestOk(test) && Truth(Eval(test, env))
    ensures Reaches(p, At(s, env), At(Emit(mid, LabelI(l)), env))
  {
    LabelFound(mid, l, p);
    EmitJumpSim(s, l, test, p, env, |mid.node|);
    StepReaches(p, At(mid, env), At(Emit(mid, LabelI(l)), env));
    ReachesTrans(p, At(s, env), At(mid, env), At(Emit(mid, LabelI(l)), env));
  }

  /** A jump that is taken, and the statement behind its label. */
  lemma {:induction false} ElseBody(st: Stmt, s: CState, l: nat, test: Expr, mid: CState, p: seq<Instr>, n: nat,
                                    env: Env, fenv: Env, fuel: nat, sc: Scope)
    returns (env': Env)
    requires Lowerable(st, sc, n) && n <= mid.vars && Ready(mid, p, sc) && Extends(EmitJump(s, l, test), mid)
    requires Typed(test) && TestOk(test) && Truth(Eval(test, fenv))
    requires Inside(CompileAdd(st, Emit(mid, LabelI(l))), p)
    requires Agree(n, env, fenv) && Exec(st, env, fuel).Done?
    ensures Follows(p, At(s, fenv), Exec(st, env, fuel), s, CompileAdd(st, Emit(mid, LabelI(l))), n, env')
    decreases fuel, st, 4
  {
    var s5 := Emit(mid, LabelI(l));
    InsideBack(s5, CompileAdd(st, s5), p);
    InsideBack(mid, s5, p);
    InsideBack(EmitJump(s, l, test), mid, p);
    SkipSim(s, l, test, mid, p, fenv);
    env' := AddSim(st, s5, p, n, env, fenv, fuel, sc);
    FollowsFrom(p, At(s, fenv), At(s5, fenv), Exec(st, env, fuel), s, CompileAdd(st, s5), n, env');
  }

  // ---------------------------------------------------------------- Cond

  /** Creating labels changes nothing for the code behind. */
  lemma LabelStacks(p: seq<Instr>, start: Config, r: Result, s: CState, s1: CState, end: CState, n: nat, env: Env)
    requires Follows(p, start, r, s1, end, n, env) && s1 == s.(labels := s1.labels)
    ensures Follows(p, start, r, s, end, n, env)
  {
  }

  lemma {:induction false} CondSim(clauses: seq<Clause>, s: CState, p: seq<Instr>, n: nat, env: Env, fenv: Env,
                                   fuel: nat, sc: Scope)
    returns (env': Env)
    requires ClausesLowerable(clauses, sc, n) && n <= s.vars && Ready(s, p, sc)
    requires Inside(CompileCond(clauses, s), p) && Agree(n, env, fenv) && ExecCond(clauses, env, fuel).Done?
    ensures Follows(p, At(s, fenv), ExecCond(clauses, env, fuel), s, CompileCond(clauses, s), n, env')
    decreases fuel, clauses, 1
  {
    if clauses == [] {
      env' := fenv;
      ReachesSelf(p, At(s, fenv));
    } else {
      var s1 := s.(labels := s.labels + 1);
      var end := CompileClauses(clauses, s.labels, s1);
      env' := ClausesSim(clauses, s.labels, s1, end, p, n, env, fenv, fuel, sc);
      LabelStacks(p, At(s, fenv), ExecCond(clauses, env, fuel), s, s1, Emit(end, LabelI(s.labels)), n, env');
    }
  }

  /** The clauses from one on; `end` is the state at the end label. */
  lemma {:induction false} ClausesSim(clauses: seq<Clause>, lEnd: nat, s: CState, end: CState, p: seq<Instr>, n: nat,
                                      env: Env, fenv: Env, fuel: nat, sc: Scope)
    returns (env': Env)
    requires clauses != [] && ClausesLowerable(clauses, sc, n) && n <= s.vars && Ready(s, p, sc)
    requires end == CompileClauses(clauses, lEnd, s) && Inside(Emit(end, LabelI(lEnd)), p)
    requires Agree(n, env, fenv) && ExecCond(clauses, env, fuel).Done?
    ensures Follows(p, At(s, fenv), ExecCond(clauses, env, fuel), s, Emit(end, LabelI(lEnd)), n, env')
    decreases fuel, clauses, 0, 1
  {
    if |clauses| == 1 {
      env' := LastSim(clauses, lEnd, s, end, p, n, env, fenv, fuel, sc);
    } else {
      var s2 := Emit(CompileClause(clauses[0], s.labels, s.(labels := s.labels + 1)), Goto(lEnd));
      ClausesRest(clauses, lEnd, s);
      env' := FirstSim(clauses, lEnd, s, s2, end, p, n, env, fenv, fuel, sc);
    }
  }

  lemma ClausesRest(clauses: seq<Clause>, lEnd: nat, s: CState)
    requires |clauses| > 1
    ensures var s2 := Emit(CompileClause(clauses[0], s.labels, s.(labels := s.labels + 1)), Goto(lEnd));
      CompileClauses(clauses, lEnd, s) == CompileClauses(clauses[1..], lEnd, Emit(s2, LabelI(s.labels)))
  {
  }

  /** The first of several clauses; s2 is the state before the label behind it. */
  lemma {:induction false} FirstSim(clauses: seq<Clause>, lEnd: nat, s: CState, s2: CState, end: CState, p: seq<Instr>,
                                    n: nat, env: Env, fenv: Env, fuel: nat, sc: Scope)
    returns (env': Env)
    requires |clauses| > 1 && ClauseLowerable(clauses[0], sc, n) && ClausesLowerable(clauses[1..], sc, n)
    requires n <= s.vars && Ready(s, p, sc)
    requires s2 == Emit(CompileClause(clauses[0], s.labels, s.(labels := s.labels + 1)), Goto(lEnd))
    requires end == CompileClauses(clauses[1..], lEnd, Emit(s2, LabelI(s.labels)))
    requires Inside(Emit(end, LabelI(lEnd)), p) && Agree(n, env, fenv) && ExecCond(clauses, env, fuel).Done?
    ensures Follows(p, At(s, fenv), ExecCond(clauses, env, fuel), s, Emit(end, LabelI(lEnd)), n, env')
    decreases fuel, clauses, 0, 0
  {
    if Truth(Eval(clauses[0].test, env)) {
      env' := ClauseSim(clauses[0], false, s.labels, lEnd, s.(labels := s.labels + 1), s2, end, p, n, env, fenv, fuel, sc);
    } else {
      env' := RestSim(clauses, lEnd, s, s2, end, p, n, env, fenv, fuel, sc);
    }
  }

  lemma {:induction false} LastSim(clauses: seq<Clause>, lEnd: nat, s: CState, end: CState, p: seq<Instr>, n: nat,
                                   env: Env, fenv: Env, fuel: nat, sc: Scope)
    returns (env': Env)
    requires |clauses| == 1 && ClauseLowerable(clauses[0], sc, n) && n <= s.vars && Ready(s, p, sc)
    requires end == CompileClause(clauses[0], lEnd, s) && Inside(Emit(end, LabelI(lEnd)), p)
    requires Agree(n, env, fenv) && ExecCond(clauses, env, fuel).Done?
    ensures Follows(p, At(s, fenv), ExecCond(clauses, env, fuel), s, Emit(end, LabelI(lEnd)), n, env')
    decreases fuel, clauses, 0, 0
  {
    if Truth(Eval(clauses[0].test, env)) {
      env' := ClauseSim(clauses[0], true, lEnd, lEnd, s, end, end, p, n, env, fenv, fuel, sc);
    } else {
      env' := TestSim(clauses[0], lEnd, s, end, p, n, env, fenv);
      assert clauses[1..] == [];
    }
  }

  /** The clauses behind one whose test is false. */
  lemma {:induction false} RestSim(clauses: seq<Clause>, lEnd: nat, s: CState, s2: CState, end: CState, p: seq<Instr>,
                                   n: nat, env: Env, fenv: Env, fuel: nat, sc: Scope)
    returns (env': Env)
    requires |clauses| > 1 && ClauseLowerable(clauses[0], sc, n) && ClausesLowerable(clauses[1..], sc, n)
    requires n <= s.vars && Ready(s, p, sc)
    requires s2 == Emit(CompileClause(clauses[0], s.labels, s.(labels := s.labels + 1)), Goto(lEnd))
    requires end == CompileClauses(clauses[1..], lEnd, Emit(s2, LabelI(s.labels)))
    requires Inside(Emit(end, LabelI(lEnd)), p) && Agree(n, env, fenv)
    requires Eval(clauses[0].test, env).Val? && !Truth(Eval(clauses[0].test, env))
    requires ExecCond(clauses[1..], env, fuel).Done?
    ensures Follows(p, At(s, fenv), ExecCond(clauses[1..], env, fuel), s, Emit(end, LabelI(lEnd)), n, env')
    decreases fuel, clauses[1..], 1
  {
    var s0 := s.(labels := s.labels + 1);
    var s3 := Emit(s2, LabelI(s.labels));
    var env1 := TestSim(clauses[0], s.labels, s0, s2, p, n, env, fenv);
    env' := ClausesSim(clauses[1..], lEnd, s3, end, p, n, env, env1, fuel, sc);
    FollowsFrom(p, At(s, fenv), At(s3, env1), ExecCond(clauses[1..], env, fuel), s, Emit(end, LabelI(lEnd)), n, env');
  }

  /** One clause whose test is true; s2 is the state before the label behind it. */
  lemma {:induction false} ClauseSim(cl: Clause, last: bool, next: nat, lEnd: nat, s: CState, s2: CState, end: CState,
                                     p: seq<Instr>, n: nat, env: Env, fenv: Env, fuel: nat, sc: Scope)
    returns (env': Env)
    requires ClauseLowerable(cl, sc, n) && n <= s.vars && Ready(s, p, sc)
    requires var s1 := CompileClause(cl, next, s); s2 == if last then s1 else Emit(s1, Goto(lEnd))
    requires last ==> s2 == end && next == lEnd
    requires Inside(Emit(s2, LabelI(next)), p) && Inside(Emit(end, LabelI(lEnd)), p)
    requires Agree(n, env, fenv) && Truth(Eval(cl.test, env)) && ExecBody(cl, env, fuel).Done?
    ensures Follows(p, At(s, fenv), ExecBody(cl, env, fuel), s, Emit(end, LabelI(lEnd)), n, env')
    decreases fuel, cl, 5
  {
    var r := ExecBody(cl, env, fuel);
    var s1 := CompileClause(cl, next, s);
    var env1 := TestSim(cl, next, s, s2, p, n, env, fenv);
    env' := BodySim(cl, next, s, p, n, env, env1, fuel, sc);
    FollowsFrom(p, At(s, fenv), At(ClauseTest(cl, next, s), env1), r, s, s1, n, env');
    if last {
      ThenLabel(p, At(s, fenv), r, s, end, lEnd, n, env');
    } else {
      ThenGoto(p, At(s, fenv), r, s, s1, lEnd, end, n, env');
    }
  }

  function ClauseTest(cl: Clause, next: nat, s: CState): CState { CompileJumpIf(next, NewUnary(NOT1, cl.test), s) }

  /** The test of a clause goes to the body, or behind the label `next`. */
  lemma TestSim(cl: Clause, next: nat, s: CState, end: CState, p: seq<Instr>, n: nat, env: Env, fenv: Env)
    returns (env': Env)
    requires GoodExpr(cl.test) && TestOk(NewUnary(NOT1, Skeleton(cl.test))) && VarsBelow(cl.test, n) && n <= s.vars
    requires Inside(ClauseTest(cl, next, s), p) && Inside(Emit(end, LabelI(next)), p)
    requires Agree(n, env, fenv) && Eval(cl.test, env).Val?
    ensures Agree(n, env, env')
    ensures Reaches(p, At(s, fenv),
      if Truth(Eval(cl.test, env)) then At(ClauseTest(cl, next, s), env') else At(Emit(end, LabelI(next)), env'))
  {
    LabelFound(end, next, p);
    NotMeaning(cl.test, env);
    env' := JumpIfSim(next, NewUnary(NOT1, cl.test), s, p, n, env, fenv, |end.node|);
    if !Truth(Eval(cl.test, env)) {
      StepReaches(p, At(end, env'), At(Emit(end, LabelI(next)), env'));
      ReachesTrans(p, At(s, fenv), At(end, env'), At(Emit(end, LabelI(next)), env'));
    }
  }

  lemma {:induction false} BodySim(cl: Clause, next: nat, s: CState, p: seq<Instr>, n: nat, env: Env, fenv: Env,
                                   fuel: nat, sc: Scope)
    returns (env': Env)
    requires Lowerable(cl.body, sc, n) && n <= s.vars && Ready(s, p, sc)
    requires Inside(CompileClause(cl, next, s), p) && Agree(n, env, fenv) && ExecBody(cl, env, fuel).Done?
    ensures Follows(p, At(ClauseTest(cl, next, s), fenv), ExecBody(cl, env, fuel), s, CompileClause(cl, next, s), n, env')
    decreases fuel, cl, 4
  {
    env' := AddSim(cl.body, ClauseTest(cl, next, s), p, n, env, fenv, fuel, sc);
  }

  // ---------------------------------------------------------------- For

  lemma {:induction false} ForSim(st: Stmt, s: CState, p: seq<Instr>, n: nat, env: Env, fenv: Env, fuel: nat, sc: Scope)
    returns (env': Env)
    requires st.For? && Lowerable(st, sc, n) && n <= s.vars && Ready(s, p, sc)
    requires Inside(CompileFor(st, s), p) && Agree(n, env, fenv) && ExecFor(st, env, fuel).Done?
    ensures Follows(p, At(s, fenv), ExecFor(st, env, fuel), s, CompileFor(st, s), n, env')
    decreases fuel, st, 1
  {
    var r := Exec(st.init, env, fuel);
    var s1 := CompileAdd(st.init, s);
    env' := AddSim(st.init, s, p, n, env, fenv, fuel, sc);
    if r.Finished() {
      var env1 := env';
      if st.test.Const? {
        ReachesSelf(p, At(s1, env1));
      } else {
        env' := LoopStart(st, s1, p, n, r.env, env1, fuel, sc);
      }
      FollowsFrom(p, At(s, fenv), At(s1, env1), ExecFor(st, env, fuel), s, CompileFor(st, s), n, env');
    }
  }

  /** A loop enters at its `continue` label, where the test is. */
  lemma {:induction false} LoopStart(st: Stmt, s: CState, p: seq<Instr>, n: nat, env: Env, fenv: Env, fuel: nat, sc: Scope)
    returns (env': Env)
    requires st.For? && !st.test.Const? && Lowerable(st, sc, n) && n <= s.vars && Ready(s, p, sc)
    requires Inside(CompileLoop(st, s), p) && Agree(n, env, fenv) && Loop(st, env, fuel).Done?
    ensures Follows(p, At(s, fenv), Loop(st, env, fuel), s, CompileLoop(st, s), n, env')
    decreases fuel, st, 0
  {
    var s4 := LoopBody(st, s);
    LoopInside(st, s, p);
    LoopLabels(st, s, p);
    env' := LoopSim(st, s, p, n, env, fenv, fuel, sc);
    assert LoopEntry(s).node[|s.node|] == Goto(s.labels + 1);
    StepReaches(p, At(s, fenv), At(s4, fenv));
    FollowsFrom(p, At(s, fenv), At(s4, fenv), Loop(st, env, fuel), s, CompileLoop(st, s), n, env');
  }

  lemma InsideBack(s: CState, t: CState, p: seq<Instr>)
    requires s.node <= t.node && Inside(t, p)
    ensures Inside(s, p)
  {
  }

  lemma PrefixTrans(a: seq<Instr>, b: seq<Instr>, c: seq<Instr>)
    requires a <= b <= c
    ensures a <= c
  {
  }

  /** The states inside a loop lie inside the code. */
  lemma LoopInside(st: Stmt, s: CState, p: seq<Instr>)
    requires st.For? && Inside(CompileLoop(st, s), p)
    ensures Inside(LoopTest(st, s), p)
    ensures Inside(Emit(LoopBody(st, s), LabelI(s.labels + 1)), p)
    ensures Inside(LoopBody(st, s), p)
    ensures Inside(CompileAdd(st.body, LoopEntry(s)), p)
    ensures Inside(LoopEntry(s), p) && Inside(Emit(LoopGoto(s), LabelI(s.labels)), p)
  {
    var s3 := CompileAdd(st.body, LoopEntry(s));
    var s4 := LoopBody(st, s);
    var s5 := Emit(s4, LabelI(s.labels + 1));
    InsideBack(LoopTest(st, s), CompileLoop(st, s), p);
    assert LoopTest(st, s) == CompileJumpIf(s.labels, st.test, s5);
    InsideBack(s5, LoopTest(st, s), p);
    InsideBack(s4, s5, p);
    assert s4.node == CompileAdd(st.post, s3).node;
    InsideBack(s3, s4, p);
    InsideBack(LoopEntry(s), s3, p);
    assert LoopEntry(s).node == Emit(LoopGoto(s), LabelI(s.labels)).node;
  }

  /** Where the labels of a loop stand. */
  lemma LoopLabels(st: Stmt, s: CState, p: seq<Instr>)
    requires st.For? && Inside(CompileLoop(st, s), p)
    ensures Find(p, s.labels + 1) == Some(|LoopBody(st, s).node|)
    ensures Find(p, s.labels + 2) == Some(|LoopTest(st, s).node|)
  {
    LoopInside(st, s, p);
    LabelFound(LoopBody(st, s), s.labels + 1, p);
    LabelFound(LoopTest(st, s), s.labels + 2, p);
  }

  lemma LoopReady(s: CState, p: seq<Instr>, sc: Scope)
    requires Find(p, s.labels + 1).Some? && Find(p, s.labels + 2).Some? && Ready(s, p, sc)
    ensures Ready(LoopEntry(s), p, LoopScope(sc))
    ensures FindTop(LoopEntry(s).breaks, p) == Find(p, s.labels + 2)
    ensures FindTop(LoopEntry(s).continues, p) == Find(p, s.labels + 1)
  {
  }

  /** One turn of a loop, from its `continue` label on. */
  lemma {:induction false} LoopSim(st: Stmt, s: CState, p: seq<Instr>, n: nat, env: Env, fenv: Env, fuel: nat, sc: Scope)
    returns (env': Env)
    requires st.For? && !st.test.Const? && Lowerable(st, sc, n) && n <= s.vars && Ready(s, p, sc)
    requires Inside(CompileLoop(st, s), p) && Agree(n, env, fenv) && Loop(st, env, fuel).Done?
    ensures Follows(p, At(LoopBody(st, s), fenv), Loop(st, env, fuel), s, CompileLoop(st, s), n, env')
    decreases fuel, st.body, 4
  {
    var start := At(LoopBody(st, s), fenv);
    var end := CompileLoop(st, s);
    var env1 := LoopTestSim(st, s, p, n, env, fenv);
    if Truth(Eval(st.test, env)) {
      env' := LoopBodySim(st, s, p, n, env, env1, fuel, sc);
      FollowsFrom(p, start, At(LoopEntry(s), env1), Loop(st, env, fuel), s, end, n, env');
    } else {
      env' := env1;
    }
  }

  lemma LoopNodes(st: Stmt, s: CState)
    requires st.For?
    ensures |LoopEntry(s).node| == |LoopGoto(s).node| + 1
    ensures |CompileLoop(st, s).node| == |LoopTest(st, s).node| + 1
  {
  }

  /** The test goes to the body, or behind the loop. */
  lemma LoopTestSim(st: Stmt, s: CState, p: seq<Instr>, n: nat, env: Env, fenv: Env) returns (env': Env)
    requires st.For? && GoodExpr(st.test) && TestOk(Skeleton(st.test)) && VarsBelow(st.test, n)
    requires n <= LoopBody(st, s).vars
    requires Inside(CompileLoop(st, s), p) && Agree(n, env, fenv) && Eval(st.test, env).Val?
    ensures Agree(n, env, env')
    ensures Reaches(p, At(LoopBody(st, s), fenv),
      At(if Truth(Eval(st.test, env)) then LoopEntry(s) else CompileLoop(st, s), env'))
  {
    var s5 := Emit(LoopBody(st, s), LabelI(s.labels + 1));
    LoopTop(st, s, p);
    LoopEnds(st, s, p);
    env' := JumpIfSim(s.labels, st.test, s5, p, n, env, fenv, |LoopGoto(s).node|);
    var again := Truth(Eval(st.test, env));
    var end := At(if again then LoopEntry(s) else CompileLoop(st, s), env');
    LoopArrives(st, s, again, env');
    TestLands(p, LoopBody(st, s), s5, LoopGoto(s), LoopTest(st, s), s.labels, again, fenv, env', end);
  }

  lemma TestLands(p: seq<Instr>, s4: CState, s5: CState, s1: CState, s6: CState, l: nat, again: bool, fenv: Env, env: Env,
                  end: Config)
    requires s5 == Emit(s4, LabelI(l + 1)) && Inside(s5, p)
    requires Inside(Emit(s1, LabelI(l)), p) && Inside(Emit(s6, LabelI(l + 2)), p)
    requires Reaches(p, At(s5, fenv), if again then Config(|s1.node|, env) else At(s6, env))
    requires end == Config(1 + if again then |s1.node| else |s6.node|, env)
    ensures Reaches(p, At(s4, fenv), end)
  {
    var t := if again then s1 else s6;
    StepReaches(p, At(s4, fenv), At(s5, fenv));
    ReachesTrans(p, At(s4, fenv), At(s5, fenv), At(t, env));
    EndStep(p, At(s4, fenv), t, if again then l else l + 2, env);
  }

  lemma LoopArrives(st: Stmt, s: CState, again: bool, env: Env)
    requires st.For?
    ensures At(if again then LoopEntry(s) else CompileLoop(st, s), env)
      == Config(1 + if again then |LoopGoto(s).node| else |LoopTest(st, s).node|, env)
  {
    LoopNodes(st, s);
  }

  lemma LoopTop(st: Stmt, s: CState, p: seq<Instr>)
    requires st.For? && Inside(CompileLoop(st, s), p)
    ensures Inside(LoopTest(st, s), p) && Inside(Emit(LoopBody(st, s), LabelI(s.labels + 1)), p)
    ensures LoopTest(st, s) == CompileJumpIf(s.labels, st.test, Emit(LoopBody(st, s), LabelI(s.labels + 1)))
  {
    LoopInside(st, s, p);
  }

  lemma LoopEnds(st: Stmt, s: CState, p: seq<Instr>)
    requires st.For? && Inside(CompileLoop(st, s), p)
    ensures Inside(Emit(LoopTest(st, s), LabelI(s.labels + 2)), p)
    ensures Inside(Emit(LoopGoto(s), LabelI(s.labels)), p) && Find(p, s.labels) == Some(|LoopGoto(s).node|)
  {
    assert CompileLoop(st, s) == Emit(LoopTest(st, s), LabelI(s.labels + 2));
    LoopInside(st, s, p);
    LabelFound(LoopGoto(s), s.labels, p);
  }

  lemma {:induction false} LoopBodySim(st: Stmt, s: CState, p: seq<Instr>, n: nat, env: Env, fenv: Env, fuel: nat, sc: Scope)
    returns (env': Env)
    requires st.For? && !st.test.Const? && Lowerable(st, sc, n) && n <= s.vars && Ready(s, p, sc)
    requires Inside(CompileLoop(st, s), p) && Agree(n, env, fenv) && Loop(st, env, fuel).Done?
    requires Truth(Eval(st.test, env))
    ensures Follows(p, At(LoopEntry(s), fenv), Loop(st, env, fuel), s, CompileLoop(st, s), n, env')
    decreases fuel, st.body, 3
  {
    var start := At(LoopEntry(s), fenv);
    var r := Exec(st.body, env, fuel - 1);
    var env1 := RunBody(st, s, p, n, env, fenv, fuel - 1, sc);
    env' := LoopLeaves(st, s, p, n, env, r, env1, start, fuel, sc);
  }

  /** What the loop does when its body has ended with r. */
  function LoopAfter(st: Stmt, r: Result, fuel: nat): Result
    requires st.For? && fuel > 0 && r.Done?
  {
    if r.outcome == FallsThrough then r
    else if r.outcome == Breaks then Done(Normal, r.env)
    else LoopPost(st, r.env, fuel)
  }

  /** The places to which the body of a loop leaves. */
  ghost predicate BodyLeft(st: Stmt, s: CState, p: seq<Instr>, start: Config, r: Result, n: nat, fenv: Env)
    requires st.For? && r.Done?
  {
    && Agree(n, r.env, fenv)
    && (r.outcome == Breaks ==> Reaches(p, start, At(LoopTest(st, s), fenv)))
    && (r.outcome == Continues ==> Reaches(p, start, At(LoopBody(st, s), fenv)))
    && (r.outcome == Normal ==> Reaches(p, start, At(CompileAdd(st.body, LoopEntry(s)), fenv)))
    && (r.outcome == FallsThrough ==> Follows(p, start, r, s, CompileLoop(st, s), n, fenv))
  }

  lemma {:induction false} LoopLeaves(st: Stmt, s: CState, p: seq<Instr>, n: nat, before: Env, r: Result, fenv: Env,
                                      start: Config, fuel: nat, sc: Scope)
    returns (env': Env)
    requires st.For? && !st.test.Const? && Lowerable(st, sc, n) && n <= s.vars && Ready(s, p, sc)
    requires Inside(CompileLoop(st, s), p) && fuel > 0 && r == Exec(st.body, before, fuel - 1) && r.Done?
    requires BodyLeft(st, s, p, start, r, n, fenv) && LoopAfter(st, r, fuel).Done?
    ensures Follows(p, start, LoopAfter(st, r, fuel), s, CompileLoop(st, s), n, env')
    decreases fuel, st.body, 2
  {
    match r.outcome
    case Normal => env' := LoopGoesOn(st, s, p, n, r.env, fenv, start, fuel, sc);
    case Continues => env' := LoopContinue(st, s, p, n, before, r.env, fenv, start, fuel, sc);
    case Breaks =>
      env' := fenv;
      LoopBroken(st, s, p, start, r.env, n, env');
    case FallsThrough => env' := fenv;
  }

  lemma {:induction false} RunBody(st: Stmt, s: CState, p: seq<Instr>, n: nat, env: Env, fenv: Env, fuel: nat, sc: Scope)
    returns (env': Env)
    requires st.For? && !st.test.Const? && Lowerable(st, sc, n) && n <= s.vars && Ready(s, p, sc)
    requires Inside(CompileLoop(st, s), p) && Agree(n, env, fenv) && Exec(st.body, env, fuel).Done?
    ensures BodyLeft(st, s, p, At(LoopEntry(s), fenv), Exec(st.body, env, fuel), n, env')
    decreases fuel, st.body, 4
  {
    LoopInside(st, s, p);
    LoopLabels(st, s, p);
    LoopReady(s, p, sc);
    env' := AddSim(st.body, LoopEntry(s), p, n, env, fenv, fuel, LoopScope(sc));
    BodyLands(st, s, p, At(LoopEntry(s), fenv), Exec(st.body, env, fuel), n, env');
  }

  lemma BodyLands(st: Stmt, s: CState, p: seq<Instr>, start: Config, r: Result, n: nat, env: Env)
    requires st.For? && Inside(CompileLoop(st, s), p)
    requires Follows(p, start, r, LoopEntry(s), CompileAdd(st.body, LoopEntry(s)), n, env)
    ensures BodyLeft(st, s, p, start, r, n, env)
  {
    var s2 := LoopEntry(s);
    var s3 := CompileAdd(st.body, s2);
    LoopLabels(st, s, p);
    PartLeaves(p, start, r, s2, s3, s.labels, s3, LoopBody(st, s), LoopTest(st, s), s, CompileLoop(st, s), n, env);
  }

  lemma {:induction false} LoopGoesOn(st: Stmt, s: CState, p: seq<Instr>, n: nat, env: Env, fenv: Env, start: Config,
                                      fuel: nat, sc: Scope)
    returns (env': Env)
    requires st.For? && !st.test.Const? && Lowerable(st, sc, n) && n <= s.vars && Ready(s, p, sc)
    requires Inside(CompileLoop(st, s), p) && Agree(n, env, fenv) && fuel > 0 && LoopPost(st, env, fuel).Done?
    requires Reaches(p, start, At(CompileAdd(st.body, LoopEntry(s)), fenv))
    ensures Follows(p, start, LoopPost(st, env, fuel), s, CompileLoop(st, s), n, env')
    decreases fuel, st.body, 1
  {
    env' := LoopPostSim(st, s, p, n, env, fenv, fuel, sc);
    var mid := At(CompileAdd(st.body, LoopEntry(s)), fenv);
    FollowsFrom(p, start, mid, LoopPost(st, env, fuel), s, CompileLoop(st, s), n, env');
  }

  /** `continue` goes on with the test, where the source runs an empty `post` first. */
  lemma {:induction false} LoopContinue(st: Stmt, s: CState, p: seq<Instr>, n: nat, before: Env, env: Env, fenv: Env,
                                        start: Config, fuel: nat, sc: Scope)
    returns (env': Env)
    requires st.For? && !st.test.Const? && Lowerable(st, sc, n) && n <= s.vars && Ready(s, p, sc)
    requires Inside(CompileLoop(st, s), p) && Agree(n, env, fenv)
    requires fuel > 0 && Exec(st.body, before, fuel - 1) == Done(Continues, env) && LoopPost(st, env, fuel).Done?
    requires Reaches(p, start, At(LoopBody(st, s), fenv))
    ensures Follows(p, start, LoopPost(st, env, fuel), s, CompileLoop(st, s), n, env')
    decreases fuel, st.body, 0
  {
    ExecContinues(st.body, before, fuel - 1);
    assert Exec(NO_STMT, env, fuel - 1) == Done(Normal, env);
    env' := LoopAgain(st, s, p, n, env, fenv, start, fuel, sc);
  }

  /** A loop that is left by `break` ends normally. */
  lemma LoopBroken(st: Stmt, s: CState, p: seq<Instr>, start: Config, env: Env, n: nat, fenv: Env)
    requires st.For? && Inside(CompileLoop(st, s), p) && Reaches(p, start, At(LoopTest(st, s), fenv)) && Agree(n, env, fenv)
    ensures Follows(p, start, Done(Normal, env), s, CompileLoop(st, s), n, fenv)
  {
    LoopBreak(st, s, p, start, fenv);
  }

  lemma LoopBreak(st: Stmt, s: CState, p: seq<Instr>, start: Config, env: Env)
    requires st.For? && Inside(CompileLoop(st, s), p) && Reaches(p, start, At(LoopTest(st, s), env))
    ensures Reaches(p, start, At(CompileLoop(st, s), env))
  {
    StepReaches(p, At(LoopTest(st, s), env), At(CompileLoop(st, s), env));
    ReachesTrans(p, start, At(LoopTest(st, s), env), At(CompileLoop(st, s), env));
  }

  lemma {:induction false} LoopPostSim(st: Stmt, s: CState, p: seq<Instr>, n: nat, env: Env, fenv: Env, fuel: nat, sc: Scope)
    returns (env': Env)
    requires st.For? && !st.test.Const? && Lowerable(st, sc, n) && n <= s.vars && Ready(s, p, sc)
    requires Inside(CompileLoop(st, s), p) && Agree(n, env, fenv) && fuel > 0 && LoopPost(st, env, fuel).Done?
    ensures var start := At(CompileAdd(st.body, LoopEntry(s)), fenv);
      Follows(p, start, LoopPost(st, env, fuel), s, CompileLoop(st, s), n, env')
    decreases fuel, st.body, 0
  {
    var start := At(CompileAdd(st.body, LoopEntry(s)), fenv);
    var r := Exec(st.post, env, fuel - 1);
    var env1 := RunPost(st, s, p, n, env, fenv, fuel - 1, sc);
    env' := PostLeaves(st, s, p, n, r, env1, start, fuel, sc);
  }

  /** What the loop does when its post statement has ended with r. */
  function PostAfter(st: Stmt, r: Result, fuel: nat): Result
    requires st.For? && fuel > 0 && r.Done?
  {
    if r.outcome == FallsThrough then r
    else if r.outcome == Breaks then Done(Normal, r.env)
    else Loop(st, r.env, fuel - 1)
  }

  lemma {:induction false} PostLeaves(st: Stmt, s: CState, p: seq<Instr>, n: nat, r: Result, fenv: Env, start: Config,
                                      fuel: nat, sc: Scope)
    returns (env': Env)
    requires st.For? && !st.test.Const? && Lowerable(st, sc, n) && n <= s.vars && Ready(s, p, sc)
    requires Inside(CompileLoop(st, s), p) && fuel > 0 && r.Done?
    requires PostLeft(st, s, p, start, r, n, fenv) && PostAfter(st, r, fuel).Done?
    ensures Follows(p, start, PostAfter(st, r, fuel), s, CompileLoop(st, s), n, env')
    decreases fuel - 1, st.body, 6
  {
    env' := fenv;
    if r.outcome == Breaks {
      LoopBroken(st, s, p, start, r.env, n, env');
    } else if r.outcome != FallsThrough {
      env' := LoopAgain(st, s, p, n, r.env, fenv, start, fuel, sc);
    }
  }

  lemma {:induction false} RunPost(st: Stmt, s: CState, p: seq<Instr>, n: nat, env: Env, fenv: Env, fuel: nat, sc: Scope)
    returns (env': Env)
    requires st.For? && !st.test.Const? && Lowerable(st, sc, n) && n <= s.vars && Ready(s, p, sc)
    requires Inside(CompileLoop(st, s), p) && Agree(n, env, fenv) && Exec(st.post, env, fuel).Done?
    ensures PostLeft(st, s, p, At(CompileAdd(st.body, LoopEntry(s)), fenv), Exec(st.post, env, fuel), n, env')
    decreases fuel, st.post, 4
  {
    var s3 := CompileAdd(st.body, LoopEntry(s));
    LoopInside(st, s, p);
    LoopLabels(st, s, p);
    LoopReady(s, p, sc);
    LoopStacks(st, s);
    env' := AddSim(st.post, s3, p, n, env, fenv, fuel, LoopScope(sc));
    PostLands(st, s, s3, p, At(s3, fenv), Exec(st.post, env, fuel), n, env');
  }

  /** The places to which the post statement of a loop leaves. */
  ghost predicate PostLeft(st: Stmt, s: CState, p: seq<Instr>, start: Config, r: Result, n: nat, fenv: Env)
    requires st.For? && r.Done?
  {
    && Agree(n, r.env, fenv)
    && (r.outcome == Breaks ==> Reaches(p, start, At(LoopTest(st, s), fenv)))
    && (r.outcome == Normal || r.outcome == Continues ==> Reaches(p, start, At(LoopBody(st, s), fenv)))
    && (r.outcome == FallsThrough ==> Follows(p, start, r, s, CompileLoop(st, s), n, fenv))
  }

  lemma PostLands(st: Stmt, s: CState, s3: CState, p: seq<Instr>, start: Config, r: Result, n: nat, env: Env)
    requires st.For? && Inside(CompileLoop(st, s), p) && s3 == CompileAdd(st.body, LoopEntry(s))
    requires Follows(p, start, r, s3, CompileAdd(st.post, s3), n, env)
    ensures PostLeft(st, s, p, start, r, n, env)
  {
    LoopLabels(st, s, p);
    LoopStacks(st, s);
    PartLeaves(p, start, r, s3, CompileAdd(st.post, s3), s.labels, LoopBody(st, s), LoopBody(st, s), LoopTest(st, s), s,
               CompileLoop(st, s), n, env);
  }

  lemma LoopStacks(st: Stmt, s: CState)
    requires st.For?
    ensures var t := CompileAdd(st.body, LoopEntry(s));
      && Top(t.breaks) == Some(s.labels + 2) && Top(t.continues) == Some(s.labels + 1)
      && t.fallthroughs == s.fallthroughs && |CompileAdd(st.post, t).node| == |LoopBody(st, s).node|
  {
    var t := CompileAdd(st.body, LoopEntry(s));
    LoopTops(s, t);
    assert LoopBody(st, s) == ExitLoop(CompileAdd(st.post, t));
  }

  lemma LoopTops(s: CState, t: CState)
    requires Extends(LoopEntry(s), t)
    ensures Top(t.breaks) == Some(s.labels + 2) && Top(t.continues) == Some(s.labels + 1)
    ensures t.fallthroughs == s.fallthroughs
  {
  }

  /** Where a part of a loop goes, by outcome. It is compiled from s2 to s3; `next` is where it ends, `body` and
      `test` are the states before the labels of `continue` and `break`, and s and `end` those around the loop. */
  lemma PartLeaves(p: seq<Instr>, start: Config, r: Result, s2: CState, s3: CState, l: nat, next: CState, body: CState,
                   test: CState, s: CState, end: CState, n: nat, env: Env)
    requires Follows(p, start, r, s2, s3, n, env) && s2.fallthroughs == s.fallthroughs
    requires Top(s2.breaks) == Some(l + 2) && Top(s2.continues) == Some(l + 1) && |s3.node| == |next.node|
    requires Find(p, l + 1) == Some(|body.node|) && Find(p, l + 2) == Some(|test.node|)
    ensures r.outcome == Breaks ==> Reaches(p, start, At(test, env))
    ensures r.outcome == Continues ==> Reaches(p, start, At(body, env))
    ensures r.outcome == Normal ==> Reaches(p, start, At(next, env))
    ensures r.outcome == FallsThrough ==> Follows(p, start, r, s, end, n, env)
  {
  }

  /** Code that comes to the `continue` label runs the loop again. */
  lemma {:induction false} LoopAgain(st: Stmt, s: CState, p: seq<Instr>, n: nat, env: Env, fenv: Env, start: Config,
                                     fuel: nat, sc: Scope)
    returns (env': Env)
    requires st.For? && !st.test.Const? && Lowerable(st, sc, n) && n <= s.vars && Ready(s, p, sc)
    requires Inside(CompileLoop(st, s), p) && Agree(n, env, fenv) && fuel > 0 && Loop(st, env, fuel - 1).Done?
    requires Reaches(p, start, At(LoopBody(st, s), fenv))
    ensures Follows(p, start, Loop(st, env, fuel - 1), s, CompileLoop(st, s), n, env')
    decreases fuel - 1, st.body, 5
  {
    env' := LoopSim(st, s, p, n, env, fenv, fuel - 1, sc);
    FollowsFrom(p, start, At(LoopBody(st, s), fenv), Loop(st, env, fuel - 1), s, CompileLoop(st, s), n, env');
  }

  // ---------------------------------------------------------------- Switch: the tests

  /** The state in front of the body of case i. */
  function BodyStart(cases: seq<Case>, v: Expr, ls: CaseLabels, s: CState, i: nat): CState
    requires i < |cases|
  {
    var last := |cases| == 1;
    var (ls1, s1) := CaseHead(cases[0], last, v, ls, s);
    if i == 0 then s1 else BodyStart(cases[1..], v, ls1, CaseBody(cases[0], last, ls1, s1), i - 1)
  }

  /** The variable under test holds val. */
  ghost predicate Holds(v: Expr, val: Value, s: CState, env: Env) {
    v.Var? && v.id < s.vars && Eval(v, env) == val && val.Val?
  }

  /** An optional label is passed. */
  lemma PassLabel(s: CState, l: Option<nat>, p: seq<Instr>, env: Env)
    requires Inside(EmitOptLabel(s, l), p)
    ensures Reaches(p, At(s, env), At(EmitOptLabel(s, l), env))
  {
    if l.Some? {
      StepReaches(p, At(s, env), At(EmitOptLabel(s, l), env));
    } else {
      ReachesSelf(p, At(s, env));
    }
  }

  /** The test of a case goes to its body when the values are equal, and else to `next`. */
  lemma CaseTestSim(c: Case, v: Expr, val: Value, next: nat, s: CState, p: seq<Instr>, n: nat,
                    env: Env, fenv: Env, pos: nat)
    returns (env': Env)
    requires c.Case? && GoodExpr(c.expr) && c.expr.kind == v.kind && VarsBelow(c.expr, n) && n <= s.vars
    requires Holds(v, val, s, fenv) && Agree(n, env, fenv) && EvalBinaryOp(EQL, val, Eval(c.expr, env)).Val?
    requires Inside(CompileJumpIf(next, Binary(Bool, NEQ, v, c.expr), s), p) && Find(p, next) == Some(pos)
    ensures Agree(s.vars, fenv, env')
    ensures var t := CompileJumpIf(next, Binary(Bool, NEQ, v, c.expr), s);
      Reaches(p, At(s, fenv), if Eval(c.expr, env) == val then At(t, env') else Config(pos, env'))
  {
    var test := Binary(Bool, NEQ, v, c.expr);
    EvalAgree(c.expr, n, env, fenv);
    VarsBelowMore(c.expr, n, s.vars);
    assert TestOk(Skeleton(test));
    env' := JumpIfSim(next, test, s, p, s.vars, fenv, fenv, pos);
  }

  /** The body that is run when the first equal case is m, or none is. */
  function MatchIndex(cases: seq<Case>, m: nat): nat { if m == |cases| then DefaultIndex(cases) else m }

  /** What DispatchSim promises: the machine is at the selected body, or at the end of the tests. */
  ghost predicate Dispatched(p: seq<Instr>, start: Config, cases: seq<Case>, v: Expr, ls: CaseLabels, s: CState,
                             m: nat, env': Env)
    requires m <= |cases|
  {
    Arrived(p, start, cases, v, ls, s, MatchIndex(cases, m), env')
  }

  ghost predicate Arrived(p: seq<Instr>, start: Config, cases: seq<Case>, v: Expr, ls: CaseLabels, s: CState,
                          i: nat, env': Env)
  {
    if i < |cases| then Reaches(p, start, At(BodyStart(cases, v, ls, s, i), env'))
    else
      var l := if ls.default_.Some? then ls.default_.value else ls.end;
      Find(p, l).Some? && Reaches(p, start, Config(Find(p, l).value, env'))
  }

  ghost predicate CasesInside(cases: seq<Case>, v: Expr, ls: CaseLabels, s: CState, end: CState, p: seq<Instr>) {
    && end == CompileCases(cases, v, ls, s) && Inside(Emit(end, LabelI(ls.end)), p)
    && (ls.default_.Some? ==> Find(p, ls.default_.value).Some?)
  }

  /** The states around one case lie inside the code. */
  lemma CaseInside(cases: seq<Case>, v: Expr, ls: CaseLabels, s: CState, end: CState, p: seq<Instr>)
    requires cases != [] && CasesInside(cases, v, ls, s, end, p)
    ensures var last := |cases| == 1;
      var head := CaseHead(cases[0], last, v, ls, s);
      var t := CaseBody(cases[0], last, head.0, head.1);
      && Inside(HeadStart(last, ls, s), p) && Inside(head.1, p) && Inside(t, p)
      && (last ==> t == end)
      && (!last ==> Inside(Emit(t, LabelI(head.0.this_.value)), p))
      && (!last ==> end == CompileCases(cases[1..], v, head.0, t))
  {
    var last := |cases| == 1;
    var head := CaseHead(cases[0], last, v, ls, s);
    var t := CaseBody(cases[0], last, head.0, head.1);
    assert end == CompileCases(cases[1..], v, head.0, t);
    if last {
      assert cases[1..] == [];
      assert t == end;
    } else {
      var t1 := HeadStart(|cases[1..]| == 1, head.0, t);
      assert t1.node == Emit(t, LabelI(head.0.this_.value)).node;
      HeadExtends(cases[1..], v, head.0, t, end);
      InsideBack(t1, end, p);
    }
    InsideBack(t, end, p);
    InsideBack(head.1, t, p);
    HeadPrefix(cases[0], last, v, ls, s);
    InsideBack(HeadStart(last, ls, s), head.1, p);
  }

  lemma HeadPrefix(c: Case, last: bool, v: Expr, ls: CaseLabels, s: CState)
    ensures HeadStart(last, ls, s).node <= CaseHead(c, last, v, ls, s).1.node
  {
  }

  lemma HeadExtends(cases: seq<Case>, v: Expr, ls: CaseLabels, s: CState, end: CState)
    requires cases != [] && end == CompileCases(cases, v, ls, s)
    ensures HeadStart(|cases| == 1, ls, s).node <= end.node
  {
    var last := |cases| == 1;
    var head := CaseHead(cases[0], last, v, ls, s);
    var t := CaseBody(cases[0], last, head.0, head.1);
    HeadPrefix(cases[0], last, v, ls, s);
    assert end == CompileCases(cases[1..], v, head.0, t);
    PrefixTrans(HeadStart(last, ls, s).node, head.1.node, t.node);
    PrefixTrans(HeadStart(last, ls, s).node, t.node, end.node);
  }

  /** The labels that one case hands to the next are where they should be. */
  lemma NextInside(cases: seq<Case>, v: Expr, ls: CaseLabels, s: CState, end: CState, p: seq<Instr>)
    requires |cases| > 1 && CasesInside(cases, v, ls, s, end, p)
    ensures var head := CaseHead(cases[0], false, v, ls, s);
      var t := CaseBody(cases[0], false, head.0, head.1);
      && CasesInside(cases[1..], v, head.0, t, end, p)
      && Find(p, head.0.this_.value) == Some(|t.node|)
  {
    var head := CaseHead(cases[0], false, v, ls, s);
    var t := CaseBody(cases[0], false, head.0, head.1);
    CaseInside(cases, v, ls, s, end, p);
    LabelFound(t, head.0.this_.value, p);
    if cases[0].Default? {
      DefaultFound(cases[0], v, ls, s, p);
    }
  }

  /** The label in front of the body of a Default that is not the last case. */
  lemma DefaultFound(c: Case, v: Expr, ls: CaseLabels, s: CState, p: seq<Instr>)
    requires c.Default? && Inside(CaseHead(c, false, v, ls, s).1, p)
    ensures var head := CaseHead(c, false, v, ls, s);
      && head.0.default_.Some? && |head.1.node| > 0
      && Find(p, head.0.default_.value) == Some(|head.1.node| - 1)
      && forall env :: Step(p, Config(|head.1.node| - 1, env)) == Some(At(head.1, env))
  {
    var head := CaseHead(c, false, v, ls, s);
    assert head.1.node[|head.1.node| - 1] == LabelI(head.0.default_.value);
    assert p[|head.1.node| - 1] == LabelI(head.0.default_.value);
    FindPlaced(p, |head.1.node| - 1);
  }

  /** The tests of the cases from one on. */
  lemma {:induction false} DispatchSim(cases: seq<Case>, v: Expr, val: Value, ls: CaseLabels, s: CState, end: CState,
                                       p: seq<Instr>, n: nat, env: Env, fenv: Env, sc: Scope)
    returns (env': Env)
    requires cases != [] && CasesLowerable(cases, v.kind, sc, n) && n <= s.vars && DefaultCount(cases) <= 1
    requires CasesInside(cases, v, ls, s, end, p) && Holds(v, val, s, fenv) && Agree(n, env, fenv)
    requires FirstMatch(cases, val, env).Some?
    ensures Dispatched(p, At(s, fenv), cases, v, ls, s, FirstMatch(cases, val, env).value, env')
    ensures Agree(n, env, env')
    decreases cases, 1
  {
    CaseInside(cases, v, ls, s, end, p);
    LabelFound(end, ls.end, p);
    if |cases| == 1 {
      env' := LastDispatch(cases, v, val, ls, s, end, p, n, env, fenv, sc);
    } else {
      var head := CaseHead(cases[0], false, v, ls, s);
      NextInside(cases, v, ls, s, end, p);
      MatchStep(cases, val, env);
      var t := CaseBody(cases[0], false, head.0, head.1);
      if Hits(cases[0], val, env) {
        env' := HitDispatch(cases, v, val, ls, s, t, p, n, env, fenv, sc);
      } else {
        var m := FirstMatch(cases[1..], val, env).value;
        env' := MissDispatch(cases, cases[1..], v, val, ls, s, head.0, t, end, p, m, n, env, fenv, sc);
      }
    }
  }

  /** Whether the value under test is that of a case. */
  predicate Hits(c: Case, val: Value, env: Env) { c.Case? && Eval(c.expr, env) == val }

  lemma MatchStep(cases: seq<Case>, val: Value, env: Env)
    requires cases != [] && FirstMatch(cases, val, env).Some?
    ensures cases[0].Case? ==> EvalBinaryOp(EQL, val, Eval(cases[0].expr, env)).Val?
    ensures Hits(cases[0], val, env) ==> FirstMatch(cases, val, env) == Some(0)
    ensures !Hits(cases[0], val, env) ==>
      && FirstMatch(cases[1..], val, env).Some?
      && FirstMatch(cases, val, env) == Some(FirstMatch(cases[1..], val, env).value + 1)
  {
  }

  /** The first of several cases has the value. */
  lemma HitDispatch(cases: seq<Case>, v: Expr, val: Value, ls: CaseLabels, s: CState, t: CState, p: seq<Instr>, n: nat,
                    env: Env, fenv: Env, sc: Scope)
    returns (env': Env)
    requires |cases| > 1 && CaseLowerable(cases[0], v.kind, sc, n) && n <= s.vars && Hits(cases[0], val, env)
    requires Inside(CaseHead(cases[0], false, v, ls, s).1, p) && Find(p, s.labels) == Some(|t.node|)
    requires Holds(v, val, s, fenv) && Agree(n, env, fenv) && EvalBinaryOp(EQL, val, Eval(cases[0].expr, env)).Val?
    ensures Dispatched(p, At(s, fenv), cases, v, ls, s, 0, env') && Agree(n, env, env')
  {
    env' := FirstDispatch(cases[0], v, val, ls, s, t, p, n, env, fenv, sc);
    MatchHere(p, At(s, fenv), cases, v, ls, s, env');
  }

  lemma MatchHere(p: seq<Instr>, start: Config, cases: seq<Case>, v: Expr, ls: CaseLabels, s: CState, env': Env)
    requires |cases| > 1 && Reaches(p, start, At(CaseHead(cases[0], false, v, ls, s).1, env'))
    ensures Dispatched(p, start, cases, v, ls, s, 0, env')
  {
    assert BodyStart(cases, v, ls, s, 0) == CaseHead(cases[0], false, v, ls, s).1;
  }

  /** It has not: `rest` are the cases behind it, from state t with the labels ls1. */
  lemma {:induction false} MissDispatch(cases: seq<Case>, rest: seq<Case>, v: Expr, val: Value, ls: CaseLabels, s: CState,
                                        ls1: CaseLabels, t: CState, end: CState, p: seq<Instr>, m: nat, n: nat,
                                        env: Env, fenv: Env, sc: Scope)
    returns (env': Env)
    requires |cases| > 1 && rest == cases[1..] && CaseLowerable(cases[0], v.kind, sc, n)
    requires CasesLowerable(rest, v.kind, sc, n) && n <= s.vars <= t.vars
    requires DefaultCount(cases) <= 1 && DefaultCount(rest) <= 1
    requires ls1 == CaseHead(cases[0], false, v, ls, s).0 && Inside(CaseHead(cases[0], false, v, ls, s).1, p)
    requires t == CaseBody(cases[0], false, ls1, CaseHead(cases[0], false, v, ls, s).1)
    requires CasesInside(rest, v, ls1, t, end, p) && Find(p, s.labels) == Some(|t.node|)
    requires Holds(v, val, s, fenv) && Agree(n, env, fenv) && !Hits(cases[0], val, env)
    requires FirstMatch(rest, val, env) == Some(m)
    requires cases[0].Case? ==> EvalBinaryOp(EQL, val, Eval(cases[0].expr, env)).Val?
    ensures Dispatched(p, At(s, fenv), cases, v, ls, s, m + 1, env')
    ensures Agree(n, env, env')
    decreases cases, 0
  {
    var env1 := FirstDispatch(cases[0], v, val, ls, s, t, p, n, env, fenv, sc);
    env' := RestDispatch(rest, v, val, ls1, t, end, p, At(s, fenv), n, env, env1, sc);
    NextDispatch(cases, v, ls, s, ls1, t, p, At(s, fenv), m, env');
  }

  lemma {:induction false} RestDispatch(cases: seq<Case>, v: Expr, val: Value, ls: CaseLabels, s: CState, end: CState,
                                        p: seq<Instr>, start: Config, n: nat, env: Env, fenv: Env, sc: Scope)
    returns (env': Env)
    requires cases != [] && CasesLowerable(cases, v.kind, sc, n) && n <= s.vars && DefaultCount(cases) <= 1
    requires CasesInside(cases, v, ls, s, end, p) && Holds(v, val, s, fenv) && Agree(n, env, fenv)
    requires FirstMatch(cases, val, env).Some? && Reaches(p, start, At(s, fenv))
    ensures Dispatched(p, start, cases, v, ls, s, FirstMatch(cases, val, env).value, env')
    ensures Agree(n, env, env')
    decreases cases, 2
  {
    env' := DispatchSim(cases, v, val, ls, s, end, p, n, env, fenv, sc);
    DispatchFrom(p, start, At(s, fenv), cases, v, ls, s, FirstMatch(cases, val, env).value, env');
  }

  lemma NextDispatch(cases: seq<Case>, v: Expr, ls: CaseLabels, s: CState, ls1: CaseLabels, t: CState, p: seq<Instr>,
                     start: Config, m: nat, env': Env)
    requires |cases| > 1 && m < |cases| && DefaultCount(cases) <= 1
    requires ls1 == CaseHead(cases[0], false, v, ls, s).0
    requires t == CaseBody(cases[0], false, ls1, CaseHead(cases[0], false, v, ls, s).1)
    requires Inside(CaseHead(cases[0], false, v, ls, s).1, p)
    requires Dispatched(p, start, cases[1..], v, ls1, t, m, env')
    ensures Dispatched(p, start, cases, v, ls, s, m + 1, env')
  {
    if cases[0].Default? {
      DefaultDispatch(cases, v, ls, s, ls1, t, p, start, m, env');
    } else {
      CaseDispatch(cases, v, ls, s, ls1, t, p, start, m, env');
    }
  }

  lemma NextStart(cases: seq<Case>, v: Expr, ls: CaseLabels, s: CState, i: nat)
    requires i + 1 < |cases|
    ensures var head := CaseHead(cases[0], false, v, ls, s);
      BodyStart(cases, v, ls, s, i + 1)
        == BodyStart(cases[1..], v, head.0, CaseBody(cases[0], false, head.0, head.1), i)
  {
  }

  lemma CaseDispatch(cases: seq<Case>, v: Expr, ls: CaseLabels, s: CState, ls1: CaseLabels, t: CState, p: seq<Instr>,
                     start: Config, m: nat, env': Env)
    requires |cases| > 1 && cases[0].Case? && m < |cases|
    requires ls1 == CaseHead(cases[0], false, v, ls, s).0
    requires t == CaseBody(cases[0], false, ls1, CaseHead(cases[0], false, v, ls, s).1)
    requires Dispatched(p, start, cases[1..], v, ls1, t, m, env')
    ensures Dispatched(p, start, cases, v, ls, s, m + 1, env')
  {
    ArrivedNext(p, start, cases, cases[1..], v, ls, s, ls1, t, MatchIndex(cases[1..], m), env');
    IndexNext(cases, m);
  }

  lemma ArrivedNext(p: seq<Instr>, start: Config, cases: seq<Case>, rest: seq<Case>, v: Expr, ls: CaseLabels, s: CState,
                    ls1: CaseLabels, t: CState, i: nat, env': Env)
    requires |cases| > 1 && cases[0].Case? && rest == cases[1..]
    requires ls1 == CaseHead(cases[0], false, v, ls, s).0
    requires t == CaseBody(cases[0], false, ls1, CaseHead(cases[0], false, v, ls, s).1)
    requires Arrived(p, start, rest, v, ls1, t, i, env')
    ensures Arrived(p, start, cases, v, ls, s, i + 1, env')
  {
    SameLabels(cases[0], v, ls, s);
    if i < |rest| {
      NextStart(cases, v, ls, s, i);
    }
  }

  lemma IndexNext(cases: seq<Case>, m: nat)
    requires cases != [] && cases[0].Case? && m < |cases|
    ensures MatchIndex(cases, m + 1) == MatchIndex(cases[1..], m) + 1
  {
  }

  lemma SameLabels(c: Case, v: Expr, ls: CaseLabels, s: CState)
    requires c.Case?
    ensures var ls1 := CaseHead(c, false, v, ls, s).0; ls1.default_ == ls.default_ && ls1.end == ls.end
  {
  }

  /** What CaseHead jumps to when its case does not match. */
  function NextLabel(last: bool, ls: CaseLabels, s: CState): nat {
    if !last then s.labels else if ls.default_.Some? then ls.default_.value else ls.end
  }

  /** The code in front of a body that has a test. */
  lemma HeadSim(c: Case, last: bool, v: Expr, val: Value, ls: CaseLabels, s: CState, p: seq<Instr>, n: nat,
                env: Env, fenv: Env, pos: nat)
    returns (env': Env)
    requires c.Case? && GoodExpr(c.expr) && c.expr.kind == v.kind && VarsBelow(c.expr, n) && n <= s.vars
    requires Holds(v, val, s, fenv) && Agree(n, env, fenv) && EvalBinaryOp(EQL, val, Eval(c.expr, env)).Val?
    requires Inside(CaseHead(c, last, v, ls, s).1, p) && Find(p, NextLabel(last, ls, s)) == Some(pos)
    ensures Agree(s.vars, fenv, env')
    ensures Reaches(p, At(s, fenv),
      if Eval(c.expr, env) == val then At(CaseHead(c, last, v, ls, s).1, env') else Config(pos, env'))
  {
    var s0 := if last then s else s.(labels := s.labels + 2);
    var s1 := HeadStart(last, ls, s);
    var s2 := CompileJumpIf(NextLabel(last, ls, s), Binary(Bool, NEQ, v, c.expr), s1);
    var s3 := CaseHead(c, last, v, ls, s).1;
    assert s3 == EmitOptLabel(s2, ls.thisFall);
    InsideBack(s2, s3, p);
    InsideBack(s1, s2, p);
    PassLabel(s0, ls.this_, p, fenv);
    env' := CaseTestSim(c, v, val, NextLabel(last, ls, s), s1, p, n, env, fenv, pos);
    if Eval(c.expr, env) == val {
      PassLabel(s2, ls.thisFall, p, env');
      ReachesTrans(p, At(s, fenv), At(s1, fenv), At(s2, env'));
      ReachesTrans(p, At(s, fenv), At(s2, env'), At(s3, env'));
    } else {
      ReachesTrans(p, At(s, fenv), At(s1, fenv), Config(pos, env'));
    }
  }

  /** The last case: its test, or nothing when it is Default. */
  lemma LastDispatch(cases: seq<Case>, v: Expr, val: Value, ls: CaseLabels, s: CState, end: CState,
                     p: seq<Instr>, n: nat, env: Env, fenv: Env, sc: Scope)
    returns (env': Env)
    requires |cases| == 1 && CaseLowerable(cases[0], v.kind, sc, n) && n <= s.vars
    requires CasesInside(cases, v, ls, s, end, p) && Holds(v, val, s, fenv) && Agree(n, env, fenv)
    requires Inside(CaseHead(cases[0], true, v, ls, s).1, p) && Find(p, ls.end).Some?
    requires FirstMatch(cases, val, env).Some?
    ensures Dispatched(p, At(s, fenv), cases, v, ls, s, FirstMatch(cases, val, env).value, env')
    ensures Agree(n, env, env')
  {
    var c := cases[0];
    assert cases[1..] == [];
    var s3 := CaseHead(c, true, v, ls, s).1;
    if c.Case? {
      env' := HeadSim(c, true, v, val, ls, s, p, n, env, fenv, Find(p, NextLabel(true, ls, s)).value);
    } else {
      env' := fenv;
      var s1 := HeadStart(true, ls, s);
      assert s3 == EmitOptLabel(s1, ls.thisFall);
      InsideBack(s1, s3, p);
      PassLabel(s, ls.this_, p, fenv);
      PassLabel(s1, ls.thisFall, p, fenv);
      ReachesTrans(p, At(s, fenv), At(s1, fenv), At(s3, fenv));
    }
  }

  /** A case with others behind it goes to its body, or to the next one, whose state is t. */
  lemma FirstDispatch(c: Case, v: Expr, val: Value, ls: CaseLabels, s: CState, t: CState, p: seq<Instr>, n: nat,
                      env: Env, fenv: Env, sc: Scope)
    returns (env': Env)
    requires CaseLowerable(c, v.kind, sc, n) && n <= s.vars && Holds(v, val, s, fenv) && Agree(n, env, fenv)
    requires Inside(CaseHead(c, false, v, ls, s).1, p) && Find(p, s.labels) == Some(|t.node|)
    requires c.Case? ==> EvalBinaryOp(EQL, val, Eval(c.expr, env)).Val?
    ensures Agree(n, env, env') && Holds(v, val, s, env')
    ensures Reaches(p, At(s, fenv),
      if c.Case? && Eval(c.expr, env) == val then At(CaseHead(c, false, v, ls, s).1, env') else At(t, env'))
  {
    if c.Case? {
      env' := HeadSim(c, false, v, val, ls, s, p, n, env, fenv, |t.node|);
    } else {
      env' := fenv;
      var s1 := HeadStart(false, ls, s);
      var s2 := Emit(s1, Goto(s.labels));
      assert s2.node <= CaseHead(c, false, v, ls, s).1.node;
      InsideBack(s2, CaseHead(c, false, v, ls, s).1, p);
      PassLabel(s.(labels := s.labels + 2), ls.this_, p, fenv);
      StepReaches(p, At(s1, fenv), At(t, fenv));
      ReachesTrans(p, At(s, fenv), At(s1, fenv), At(t, fenv));
    }
  }

  lemma DispatchFrom(p: seq<Instr>, start: Config, mid: Config, cases: seq<Case>, v: Expr, ls: CaseLabels, s: CState,
                     m: nat, env': Env)
    requires m <= |cases| && Reaches(p, start, mid) && Dispatched(p, mid, cases, v, ls, s, m, env')
    ensures Dispatched(p, start, cases, v, ls, s, m, env')
  {
    var i := MatchIndex(cases, m);
    var dest := if i < |cases| then At(BodyStart(cases, v, ls, s, i), env')
                else Config(Find(p, if ls.default_.Some? then ls.default_.value else ls.end).value, env');
    ReachesTrans(p, start, mid, dest);
  }

  /** When no case matches, an earlier Default is entered through its label. */
  lemma DefaultDispatch(cases: seq<Case>, v: Expr, ls: CaseLabels, s: CState, ls1: CaseLabels, t: CState, p: seq<Instr>,
                        start: Config, m: nat, env': Env)
    requires |cases| > 1 && cases[0].Default? && m < |cases| && DefaultCount(cases[1..]) == 0
    requires ls1 == CaseHead(cases[0], false, v, ls, s).0
    requires t == CaseBody(cases[0], false, ls1, CaseHead(cases[0], false, v, ls, s).1)
    requires Inside(CaseHead(cases[0], false, v, ls, s).1, p)
    requires Dispatched(p, start, cases[1..], v, ls1, t, m, env')
    ensures Dispatched(p, start, cases, v, ls, s, m + 1, env')
  {
    if m + 1 < |cases| {
      NextStart(cases, v, ls, s, m);
    } else {
      NoDefault(cases[1..]);
      var head := CaseHead(cases[0], false, v, ls, s);
      assert ls1.default_ == head.0.default_;
      EnterDefault(cases[0], v, ls, s, p, start, env');
      assert DefaultIndex(cases) == 0 && BodyStart(cases, v, ls, s, 0) == head.1;
    }
  }

  lemma EnterDefault(c: Case, v: Expr, ls: CaseLabels, s: CState, p: seq<Instr>, start: Config, env: Env)
    requires c.Default? && Inside(CaseHead(c, false, v, ls, s).1, p)
    requires var l := CaseHead(c, false, v, ls, s).0.default_;
      l.Some? && Find(p, l.value).Some? && Reaches(p, start, Config(Find(p, l.value).value, env))
    ensures Reaches(p, start, At(CaseHead(c, false, v, ls, s).1, env))
  {
    DefaultFound(c, v, ls, s, p);
    var s1 := CaseHead(c, false, v, ls, s).1;
    var at := Config(|s1.node| - 1, env);
    StepReaches(p, at, At(s1, env));
    ReachesTrans(p, start, at, At(s1, env));
  }

  lemma {:induction false} NoDefault(cases: seq<Case>)
    requires DefaultCount(cases) == 0
    ensures DefaultIndex(cases) == |cases|
  {
    if cases != [] {
      NoDefault(cases[1..]);
    }
  }

  // ---------------------------------------------------------------- Switch: the bodies

  lemma EndStep(p: seq<Instr>, start: Config, end: CState, l: nat, env: Env)
    requires Inside(Emit(end, LabelI(l)), p) && Reaches(p, start, At(end, env))
    ensures Reaches(p, start, At(Emit(end, LabelI(l)), env))
  {
    StepReaches(p, At(end, env), At(Emit(end, LabelI(l)), env));
    ReachesTrans(p, start, At(end, env), At(Emit(end, LabelI(l)), env));
  }

  /** The label behind which `fallthrough` enters the next body. */
  lemma FallFound(c: Case, last: bool, v: Expr, ls: CaseLabels, s: CState, p: seq<Instr>)
    requires ls.thisFall.Some? && Inside(CaseHead(c, last, v, ls, s).1, p)
    ensures var t := CaseHead(c, last, v, ls, s).1;
      && |t.node| > 0 && Find(p, ls.thisFall.value) == Some(|t.node| - 1)
      && forall env :: Step(p, Config(|t.node| - 1, env)) == Some(At(t, env))
  {
    var t := CaseHead(c, last, v, ls, s).1;
    assert t.node[|t.node| - 1] == LabelI(ls.thisFall.value);
    assert p[|t.node| - 1] == LabelI(ls.thisFall.value);
    FindPlaced(p, |t.node| - 1);
  }

  /** The body of a case, in the scope that it compiles in. */
  lemma {:induction false} CaseBodySim(c: Case, ls: CaseLabels, s: CState, p: seq<Instr>, n: nat, env: Env, fenv: Env,
                                       fuel: nat, sc: Scope)
    returns (env': Env)
    requires ls.thisFall.Some? && Find(p, ls.end).Some? && Find(p, ls.thisFall.value).Some?
    requires Lowerable(c.body, CaseScope(sc), n) && n <= s.vars && Ready(s, p, sc)
    requires Inside(CaseBody(c, true, ls, s), p) && Agree(n, env, fenv) && ExecCase(c, env, fuel).Done?
    ensures var r := ExecCase(c, env, fuel);
      Follows(p, At(s, fenv), r, EnterCase(s, ls.end, ls.thisFall.value), CaseBody(c, true, ls, s), n, env')
    decreases fuel, c, 4
  {
    env' := AddSim(c.body, EnterCase(s, ls.end, ls.thisFall.value), p, n, env, fenv, fuel, CaseScope(sc));
  }

  /** Where a body goes on, by outcome. */
  lemma CaseDest(ls: CaseLabels, s: CState, t: CState, p: seq<Instr>)
    requires ls.thisFall.Some?
    ensures var s1 := EnterCase(s, ls.end, ls.thisFall.value);
      && Dest(Breaks, s1, t, p) == Find(p, ls.end)
      && Dest(FallsThrough, s1, t, p) == Find(p, ls.thisFall.value)
      && Dest(Continues, s1, t, p) == Dest(Continues, s, t, p)
  {
  }

  /** The bodies from case i on. */
  lemma {:induction false} BodiesSim(cases: seq<Case>, i: nat, v: Expr, ls: CaseLabels, s: CState, end: CState,
                                     p: seq<Instr>, n: nat, env: Env, fenv: Env, fuel: nat, sc: Scope)
    returns (env': Env)
    requires i < |cases| && CasesLowerable(cases, v.kind, CaseScope(sc), n) && n <= s.vars && Ready(s, p, sc)
    requires CasesInside(cases, v, ls, s, end, p) && Agree(n, env, fenv) && ExecCases(cases[i..], env, fuel).Done?
    ensures Follows(p, At(BodyStart(cases, v, ls, s, i), fenv), ExecCases(cases[i..], env, fuel), s,
                    Emit(end, LabelI(ls.end)), n, env')
    decreases fuel, cases, 2
  {
    CaseInside(cases, v, ls, s, end, p);
    if |cases| == 1 {
      var head := CaseHead(cases[0], true, v, ls, s);
      assert cases[i..] == cases;
      env' := LastBodySim(cases, head.0, head.1, end, p, n, env, fenv, fuel, sc);
      FollowsStacks(p, At(head.1, fenv), ExecCases(cases, env, fuel), head.1, s, Emit(end, LabelI(ls.end)), n, env');
    } else {
      var head := CaseHead(cases[0], false, v, ls, s);
      NextInside(cases, v, ls, s, end, p);
      env' := ManyBodies(cases, i, v, head.0, head.1, CaseBody(cases[0], false, head.0, head.1), end, p, n,
                         env, fenv, fuel, sc);
      FollowsStacks(p, At(BodyStart(cases, v, ls, s, i), fenv), ExecCases(cases[i..], env, fuel), head.1, s,
                    Emit(end, LabelI(ls.end)), n, env');
    }
  }

  /** Several cases; s is the state in front of the first body and t the one behind it. */
  lemma {:induction false} ManyBodies(cases: seq<Case>, i: nat, v: Expr, ls: CaseLabels, s: CState, t: CState,
                                      end: CState, p: seq<Instr>, n: nat, env: Env, fenv: Env, fuel: nat, sc: Scope)
    returns (env': Env)
    requires i < |cases| && |cases| > 1 && CasesLowerable(cases, v.kind, CaseScope(sc), n)
    requires n <= s.vars && Ready(s, p, sc) && Agree(n, env, fenv) && ExecCases(cases[i..], env, fuel).Done?
    requires ls.thisFall.Some? && t == CaseBody(cases[0], false, ls, s) && Inside(t, p)
    requires CasesInside(cases[1..], v, ls, t, end, p)
    ensures Follows(p, At(if i == 0 then s else BodyStart(cases[1..], v, ls, t, i - 1), fenv),
                    ExecCases(cases[i..], env, fuel), s, Emit(end, LabelI(ls.end)), n, env')
    decreases fuel, cases, 1, 1
  {
    if i > 0 {
      assert cases[i..] == cases[1..][i - 1..];
      env' := BodiesSim(cases[1..], i - 1, v, ls, t, end, p, n, env, fenv, fuel, sc);
      FollowsStacks(p, At(BodyStart(cases[1..], v, ls, t, i - 1), fenv), ExecCases(cases[i..], env, fuel), t, s,
                    Emit(end, LabelI(ls.end)), n, env');
    } else {
      assert cases[0..] == cases;
      assert ExecCases(cases, env, fuel) == AfterBody(ExecCase(cases[0], env, fuel), cases[1..], fuel);
      env' := FirstBodySim(cases, cases[0], cases[1..], v, ls, s, t, end, p, n, env, fenv, fuel, sc);
    }
  }

  lemma {:induction false} LastBodySim(cases: seq<Case>, ls: CaseLabels, s: CState, end: CState, p: seq<Instr>, n: nat,
                                       env: Env, fenv: Env, fuel: nat, sc: Scope)
    returns (env': Env)
    requires |cases| == 1 && Lowerable(cases[0].body, CaseScope(sc), n) && n <= s.vars && Ready(s, p, sc)
    requires ls.thisFall == Some(ls.end) && end == CaseBody(cases[0], true, ls, s)
    requires Inside(Emit(end, LabelI(ls.end)), p) && Agree(n, env, fenv) && ExecCases(cases, env, fuel).Done?
    ensures Follows(p, At(s, fenv), ExecCases(cases, env, fuel), s, Emit(end, LabelI(ls.end)), n, env')
    decreases fuel, cases, 0
  {
    assert cases[1..] == [];
    LabelFound(end, ls.end, p);
    InsideBack(end, Emit(end, LabelI(ls.end)), p);
    env' := CaseBodySim(cases[0], ls, s, p, n, env, fenv, fuel, sc);
    CaseDest(ls, s, end, p);
    if ExecCase(cases[0], env, fuel).outcome != Continues {
      EndStep(p, At(s, fenv), end, ls.end, env');
    }
  }

  /** A body with others behind it; s and t are the states before and behind it. */
  lemma {:induction false} FirstBodySim(cases: seq<Case>, c: Case, rest: seq<Case>, v: Expr, ls: CaseLabels, s: CState,
                                        t: CState, end: CState, p: seq<Instr>, n: nat, env: Env, fenv: Env, fuel: nat,
                                        sc: Scope)
    returns (env': Env)
    requires |cases| > 1 && c == cases[0] && rest == cases[1..]
    requires Lowerable(c.body, CaseScope(sc), n) && CasesLowerable(rest, v.kind, CaseScope(sc), n)
    requires n <= s.vars && Ready(s, p, sc) && Extends(s, t)
    requires ls.thisFall.Some? && t == CaseBody(c, false, ls, s) && Inside(t, p)
    requires CasesInside(rest, v, ls, t, end, p) && Agree(n, env, fenv)
    requires AfterBody(ExecCase(c, env, fuel), rest, fuel).Done?
    ensures Follows(p, At(s, fenv), AfterBody(ExecCase(c, env, fuel), rest, fuel), s, Emit(end, LabelI(ls.end)), n, env')
    decreases fuel, cases, 1, 0
  {
    var r := ExecCase(c, env, fuel);
    NextFall(rest, v, ls, t, end, p);
    env' := BodyLeaves(c, ls, s, t, end, p, n, env, fenv, fuel, sc);
    if r.outcome == FallsThrough {
      env' := FallSim(rest, v, ls, t, At(s, fenv), end, p, n, r.env, env', fuel, sc);
      FollowsStacks(p, At(s, fenv), ExecCases(rest, r.env, fuel), t, s, Emit(end, LabelI(ls.end)), n, env');
    } else {
      BodyDone(p, At(s, fenv), r, rest, fuel, s, Emit(end, LabelI(ls.end)), n, env');
    }
  }

  lemma BodyDone(p: seq<Instr>, start: Config, r: Result, rest: seq<Case>, fuel: nat, s: CState, t: CState, n: nat,
                 env': Env)
    requires r.Done? && r.outcome != FallsThrough && Agree(n, r.env, env')
    requires r.outcome == Continues ==> Follows(p, start, r, s, t, n, env')
    requires r.outcome == Normal || r.outcome == Breaks ==> Reaches(p, start, At(t, env'))
    ensures Follows(p, start, AfterBody(r, rest, fuel), s, t, n, env')
  {
  }

  /** What a switch does after a body. */
  function AfterBody(r: Result, rest: seq<Case>, fuel: nat): Result {
    if !r.Done? || r.outcome == Continues then r
    else if r.outcome == FallsThrough then ExecCases(rest, r.env, fuel)
    else Done(Normal, r.env)
  }

  lemma NextFall(cases: seq<Case>, v: Expr, ls: CaseLabels, s: CState, end: CState, p: seq<Instr>)
    requires cases != [] && CasesInside(cases, v, ls, s, end, p) && ls.thisFall.Some?
    ensures var next := CaseHead(cases[0], |cases| == 1, v, ls, s).1;
      && |next.node| > 0 && Find(p, ls.thisFall.value) == Some(|next.node| - 1)
      && forall env :: Step(p, Config(|next.node| - 1, env)) == Some(At(next, env))
  {
    CaseInside(cases, v, ls, s, end, p);
    FallFound(cases[0], |cases| == 1, v, ls, s, p);
  }

  /** A body goes to the label of the next one when it falls through; else it leaves the switch, or
      continues the loop around. */
  lemma {:induction false} BodyLeaves(c: Case, ls: CaseLabels, s: CState, t: CState, end: CState, p: seq<Instr>, n: nat,
                                      env: Env, fenv: Env, fuel: nat, sc: Scope)
    returns (env': Env)
    requires Lowerable(c.body, CaseScope(sc), n) && n <= s.vars && Ready(s, p, sc)
    requires ls.thisFall.Some? && Find(p, ls.thisFall.value).Some? && t == CaseBody(c, false, ls, s)
    requires Inside(t, p) && Inside(Emit(end, LabelI(ls.end)), p)
    requires Agree(n, env, fenv) && ExecCase(c, env, fuel).Done?
    ensures var r := ExecCase(c, env, fuel);
      && Agree(n, r.env, env')
      && (r.outcome == FallsThrough ==> Reaches(p, At(s, fenv), Config(Find(p, ls.thisFall.value).value, env')))
      && (r.outcome == Continues ==> Follows(p, At(s, fenv), r, s, Emit(end, LabelI(ls.end)), n, env'))
      && (r.outcome == Normal || r.outcome == Breaks ==> Reaches(p, At(s, fenv), At(Emit(end, LabelI(ls.end)), env')))
    decreases fuel, c, 5
  {
    var r := ExecCase(c, env, fuel);
    var t0 := CaseBody(c, true, ls, s);
    LabelFound(end, ls.end, p);
    InsideBack(t0, t, p);
    env' := CaseBodySim(c, ls, s, p, n, env, fenv, fuel, sc);
    CaseDest(ls, s, t0, p);
    if r.outcome == Normal {
      StepReaches(p, At(t0, env'), At(end, env'));
      ReachesTrans(p, At(s, fenv), At(t0, env'), At(end, env'));
      EndStep(p, At(s, fenv), end, ls.end, env');
    } else if r.outcome == Breaks {
      EndStep(p, At(s, fenv), end, ls.end, env');
    }
  }

  /** Entering the next body through its label. */
  lemma {:induction false} FallSim(cases: seq<Case>, v: Expr, ls: CaseLabels, s: CState, start: Config, end: CState,
                                   p: seq<Instr>, n: nat, env: Env, fenv: Env, fuel: nat, sc: Scope)
    returns (env': Env)
    requires cases != [] && CasesLowerable(cases, v.kind, CaseScope(sc), n) && n <= s.vars && Ready(s, p, sc)
    requires CasesInside(cases, v, ls, s, end, p) && Agree(n, env, fenv) && ExecCases(cases, env, fuel).Done?
    requires ls.thisFall.Some? && Find(p, ls.thisFall.value).Some?
    requires Reaches(p, start, Config(Find(p, ls.thisFall.value).value, fenv))
    ensures Follows(p, start, ExecCases(cases, env, fuel), s, Emit(end, LabelI(ls.end)), n, env')
    decreases fuel, cases, 3
  {
    var next := CaseHead(cases[0], |cases| == 1, v, ls, s).1;
    var at := Config(Find(p, ls.thisFall.value).value, fenv);
    assert cases[0..] == cases;
    NextFall(cases, v, ls, s, end, p);
    env' := BodiesSim(cases, 0, v, ls, s, end, p, n, env, fenv, fuel, sc);
    StepReaches(p, at, At(next, fenv));
    ReachesTrans(p, start, at, At(next, fenv));
    FollowsFrom(p, start, At(next, fenv), ExecCases(cases, env, fuel), s, Emit(end, LabelI(ls.end)), n, env');
  }

  // ---------------------------------------------------------------- Switch

  /** to_var() leaves the value of an expression in a variable. */
  lemma ToVarSim(e: Expr, s: CState, p: seq<Instr>, n: nat, env: Env, fenv: Env) returns (env': Env)
    requires GoodExpr(e) && VarsBelow(e, n) && n <= s.vars && Agree(n, env, fenv)
    requires Inside(ToVar(e, s).1, p) && Eval(e, env).Val?
    ensures Reaches(p, At(s, fenv), At(ToVar(e, s).1, env')) && Agree(n, env, env')
    ensures Holds(ToVar(e, s).0, Eval(e, env), ToVar(e, s).1, env') && ToVar(e, s).0.kind == e.kind
  {
    EvalAgree(e, n, env, fenv);
    if e.Var? {
      env' := fenv;
      ReachesSelf(p, At(s, fenv));
    } else {
      var s0 := s.(vars := s.vars + 1);
      var c := CompileExpr(e, s0);
      var t := ToVar(e, s).1;
      InsideBack(c.1, t, p);
      var env1 := ValueSim(e, s0, p, n, env, fenv);
      EvalTyped(e, env);
      LetSim(c.1, e.kind, s.vars, c.0, p, env1);
      env' := env1[s.vars := Eval(c.0, env1).num];
      ReachesTrans(p, At(s, fenv), At(c.1, env1), At(t, env'));
    }
  }

  lemma {:induction false} SwitchSim(st: Stmt, s: CState, p: seq<Instr>, n: nat, env: Env, fenv: Env, fuel: nat, sc: Scope)
    returns (env': Env)
    requires st.Switch? && Lowerable(st, sc, n) && n <= s.vars && Ready(s, p, sc)
    requires Inside(CompileSwitch(st, s), p) && Agree(n, env, fenv) && ExecSwitch(st, env, fuel).Done?
    ensures Follows(p, At(s, fenv), ExecSwitch(st, env, fuel), s, CompileSwitch(st, s), n, env')
    decreases fuel, st, 1
  {
    var v := ToVar(st.expr, s);
    var s1 := v.1.(labels := v.1.labels + 1);
    var ls := FirstCase(v.1.labels);
    var end := CompileCases(st.cases, v.0, ls, s1);
    assert CompileSwitch(st, s) == Emit(end, LabelI(ls.end));
    InsideBack(end, CompileSwitch(st, s), p);
    InsideBack(v.1, end, p);
    var env1 := ToVarSim(st.expr, s, p, n, env, fenv);
    env' := SwitchCases(st, v.0, ls, s1, end, p, At(s, fenv), n, env, env1, fuel, sc);
    FollowsStacks(p, At(s, fenv), ExecSwitch(st, env, fuel), s1, s, CompileSwitch(st, s), n, env');
  }

  lemma {:induction false} SwitchCases(st: Stmt, v: Expr, ls: CaseLabels, s: CState, end: CState, p: seq<Instr>,
                                       start: Config, n: nat, env: Env, fenv: Env, fuel: nat, sc: Scope)
    returns (env': Env)
    requires st.Switch? && Lowerable(st, sc, n) && n <= s.vars && Ready(s, p, sc) && v.kind == st.expr.kind
    requires CasesInside(st.cases, v, ls, s, end, p) && ls.default_ == None
    requires Agree(n, env, fenv) && ExecSwitch(st, env, fuel).Done? && Holds(v, Eval(st.expr, env), s, fenv)
    requires Reaches(p, start, At(s, fenv))
    ensures Follows(p, start, ExecSwitch(st, env, fuel), s, Emit(end, LabelI(ls.end)), n, env')
    decreases fuel, st, 0, 1
  {
    env' := CasesSim(st, v, ls, s, end, p, n, env, fenv, fuel, sc);
    FollowsFrom(p, start, At(s, fenv), ExecSwitch(st, env, fuel), s, Emit(end, LabelI(ls.end)), n, env');
  }

  /** The cases of a switch, once its value is in a variable. */
  lemma {:induction false} CasesSim(st: Stmt, v: Expr, ls: CaseLabels, s: CState, end: CState, p: seq<Instr>, n: nat,
                                    env: Env, fenv: Env, fuel: nat, sc: Scope)
    returns (env': Env)
    requires st.Switch? && Lowerable(st, sc, n) && n <= s.vars && Ready(s, p, sc) && v.kind == st.expr.kind
    requires CasesInside(st.cases, v, ls, s, end, p) && ls.default_ == None
    requires Agree(n, env, fenv) && ExecSwitch(st, env, fuel).Done? && Holds(v, Eval(st.expr, env), s, fenv)
    ensures Follows(p, At(s, fenv), ExecSwitch(st, env, fuel), s, Emit(end, LabelI(ls.end)), n, env')
    decreases fuel, st, 0, 0, 1
  {
    var val := Eval(st.expr, env);
    var i := Select(st.cases, val, env).value;
    LabelFound(end, ls.end, p);
    if st.cases == [] {
      env' := fenv;
      AtEnd(p, s, ls.end, env');
    } else {
      env' := DispatchSim(st.cases, v, val, ls, s, end, p, n, env, fenv, CaseScope(sc));
      env' := SelectedSim(st, i, v, ls, s, end, p, n, env, env', At(s, fenv), fuel, sc);
    }
  }

  lemma AtEnd(p: seq<Instr>, s: CState, l: nat, env: Env)
    requires Inside(Emit(s, LabelI(l)), p)
    ensures Reaches(p, At(s, env), At(Emit(s, LabelI(l)), env))
  {
    ReachesSelf(p, At(s, env));
    EndStep(p, At(s, env), s, l, env);
  }

  /** The machine is at the body of case i, or at the end when there is none. */
  lemma {:induction false} SelectedSim(st: Stmt, i: nat, v: Expr, ls: CaseLabels, s: CState, end: CState, p: seq<Instr>,
                                       n: nat, env: Env, fenv: Env, start: Config, fuel: nat, sc: Scope)
    returns (env': Env)
    requires st.Switch? && i <= |st.cases| && CasesLowerable(st.cases, v.kind, CaseScope(sc), n)
    requires n <= s.vars && Ready(s, p, sc) && CasesInside(st.cases, v, ls, s, end, p) && Agree(n, env, fenv)
    requires ExecCases(st.cases[i..], env, fuel).Done?
    requires if i < |st.cases| then Reaches(p, start, At(BodyStart(st.cases, v, ls, s, i), fenv))
             else Reaches(p, start, At(end, fenv))
    ensures Follows(p, start, ExecCases(st.cases[i..], env, fuel), s, Emit(end, LabelI(ls.end)), n, env')
    decreases fuel, st, 0, 0, 0
  {
    if i == |st.cases| {
      env' := fenv;
      EndStep(p, start, end, ls.end, env');
    } else {
      assert i == 0 ==> st.cases[i..] == st.cases;
      env' := BodiesSim(st.cases, i, v, ls, s, end, p, n, env, fenv, fuel, sc);
      FollowsFrom(p, start, At(BodyStart(st.cases, v, ls, s, i), fenv), ExecCases(st.cases[i..], env, fuel), s,
                  Emit(end, LabelI(ls.end)), n, env');
    }
  }
}
