/** Programs that optimize and lower well by what is written in their tests: no ordered comparison of signed operands
    where the jump is negated, and loops whose test no rewrite decides. */
module OptimizerPlain {
  import opened Values
  import opened Ir
  import opened Imm
  import opened Stmts
  import opened Nodes
  import opened Optimizing
  import opened OptimizerMeaning
  import opened OptimizerTuples
  import opened OptimizerStmts
  import opened OptimizerLowered
  import opened Lowering
  import opened LoweringDomain
  import opened LoweringFunc
  import opened OptimizerDomain
  import opened Flat

  // ---------------------------------------------------------------- tests without ordered comparisons of signed operands

  lemma {:induction false} PlainStripped(e: Expr)
    requires Typed(e) && Steady(e, false, true)
    ensures !SignedLess(StripNots(Skeleton(e)).0)
  {
    match e
    case Unary(_, _, x) => PlainStripped(x);
    case Binary(_, op, x, y) =>
      if Boolean2(op) {
        PlainStripped(x);
        SteadyWeaker(y, true, true, false, true);
        PlainStripped(y);
      } else {
        SteadyLowers(e, false, true);
      }
    case _ =>
  }

  /** No such test is optimized to one that its jump gets wrong. */
  lemma PlainTest(o: Opts, t: Expr, odd: bool)
    requires o.division && Typed(t) && Exact(t, false) && Steady(t, false, true)
    ensures !LessUnder(Optimize(o, t), odd)
  {
    OptimizeMeans(o, t, false, map[]);
    OptimizeSteady(o, t, false, false, true);
    PlainStripped(Optimize(o, t));
  }

  // ---------------------------------------------------------------- loop tests that no rewrite decides

  /** A variable with a constant that does not decide the comparison, or with another variable. */
  predicate Undecided(op: Op2, x: Expr, y: Expr) {
    && IsComparison(op) && x.Var?
    && ((y.Const? && (IsSigned(y.kind) || y.num != 0 || (op != LSS && op != GEQ))) || (y.Var? && y.id != x.id))
  }

  predicate Lasting(t: Expr) {
    match t
    case Var(_, _) => true
    case Const(_, _) => false
    case Unary(_, op, x) => op == NOT1 && Lasting(x)
    case Binary(_, op, x, y) => Undecided(op, x, y) || (Boolean2(op) && Lasting(x) && Lasting(y))
    case Tuple(_, _, _) => false
  }

  lemma UndecidedKept(o: Opts, op: Op2, x: Expr, y: Expr)
    requires Undecided(op, x, y) && x.kind == y.kind && VarsBelow(x, 0x20_0000) && VarsBelow(y, 0x20_0000)
    ensures var r := TryBinary(o, op, x, y); r.Some? ==> r.value.Binary? && IsComparison(r.value.op2)
  {
    if y.Var? {
      LocalExact(x.kind, x.id);
      LeavesEqualExact(x, y, o.division);
    }
  }

  lemma BooleanLasts(o: Opts, op: Op2, x: Expr, y: Expr)
    requires Boolean2(op) && !x.Const? && !y.Const?
    ensures TryBinary(o, op, x, y) == None
  {
  }

  lemma {:induction false} LastingKept(o: Opts, t: Expr)
    requires Typed(t) && Lasting(t) && VarsBelow(t, 0x20_0000)
    ensures !Optimize(o, t).Const?
    ensures t.Binary? && IsComparison(t.op2) ==> Optimize(o, t).Binary? && IsComparison(Optimize(o, t).op2)
  {
    match t
    case Unary(_, _, x) => LastingKept(o, x);
    case Binary(_, op, x, y) =>
      if IsComparison(op) {
        UndecidedKept(o, op, x, y);
      } else {
        LastingKept(o, x);
        LastingKept(o, y);
        BooleanLasts(o, op, Optimize(o, x), Optimize(o, y));
      }
    case _ =>
  }

  /** A loop test that is false, or a comparison that stays one, or a lasting test without ordered comparisons of signed
      operands. */
  predicate ForPlain(t: Expr) {
    if t.Const? then t.num == 0
    else Lasting(t) && ((t.Binary? && IsComparison(t.op2)) || Steady(t, false, true))
  }

  lemma ForTest(o: Opts, t: Expr)
    requires o.division && Typed(t) && Exact(t, false) && VarsBelow(t, 0x20_0000) && ForPlain(t)
    ensures if Optimize(o, t).Const? then Optimize(o, t) == t && t.num == 0 else !LessUnder(Optimize(o, t), true)
  {
    if !t.Const? {
      LastingKept(o, t);
      if Steady(t, false, true) {
        PlainTest(o, t, true);
      }
    }
  }

  // ---------------------------------------------------------------- programs

  /** No test of `if` and `cond` holds an ordered comparison of signed operands, those of loops are as above, and a loop
      that continues has no `post`. */
  predicate PlainTests(st: Stmt)
    decreases st, 1
  {
    match st
    case If(test, a, b) => Steady(test, false, true) && PlainTests(a) && PlainTests(b)
    case For(init, test, post, body) =>
      && PlainTests(init) && ForPlain(test) && PlainTests(post) && PlainTests(body)
      && (HasContinue(body) ==> post == NO_STMT)
    case Cond(clauses) => PlainClauses(clauses)
    case Switch(_, cases) => PlainCases(cases)
    case Block(stmts) => AllPlain(stmts)
    case _ => true
  }

  predicate AllPlain(ss: seq<Stmt>)
    decreases ss, 0
  {
    ss == [] || (PlainTests(ss[0]) && AllPlain(ss[1..]))
  }

  predicate PlainClauses(cs: seq<Clause>)
    decreases cs, 0
  {
    cs == [] || (PlainClause(cs[0]) && PlainClauses(cs[1..]))
  }

  predicate PlainClause(c: Clause)
    decreases c, 2
  {
    Steady(c.test, false, true) && PlainTests(c.body)
  }

  predicate PlainCases(cs: seq<Case>)
    decreases cs, 0
  {
    cs == [] || (PlainCase(cs[0]) && PlainCases(cs[1..]))
  }

  predicate PlainCase(c: Case)
    decreases c, 2
  {
    PlainTests(c.body)
  }

  /** The tests of such programs are safe from every optimization. */
  lemma {:induction false} PlainSafe(o: Opts, st: Stmt, ks: Kinds, n: nat)
    requires o.division && OkStmt(st, ks, n) && n <= 0x20_0000 && PlainTests(st)
    ensures TestsSafe(o, st)
    decreases st, 1
  {
    match st
    case If(test, a, b) =>
      PlainTest(o, test, false);
      PlainSafe(o, a, ks, n);
      PlainSafe(o, b, ks, n);
    case For(init, test, post, body) =>
      VarsInBelow(test, ks, n, 0x20_0000);
      ForTest(o, test);
      PlainSafe(o, init, ks, n);
      PlainSafe(o, post, ks, n);
      PlainSafe(o, body, ks, n);
    case Cond(clauses) => ClausesSafeToo(o, clauses, ks, n);
    case Switch(_, cases) => CasesSafeToo(o, cases, ks, n);
    case Block(stmts) => AllSafeToo(o, stmts, ks, n);
    case _ =>
  }

  lemma {:induction false} AllSafeToo(o: Opts, ss: seq<Stmt>, ks: Kinds, n: nat)
    requires o.division && AllOk(ss, ks, n) && n <= 0x20_0000 && AllPlain(ss)
    ensures AllSafe(o, ss)
    decreases ss, 0
  {
    if ss != [] {
      PlainSafe(o, ss[0], ks, n);
      AllSafeToo(o, ss[1..], ks, n);
    }
  }

  lemma {:induction false} ClausesSafeToo(o: Opts, cs: seq<Clause>, ks: Kinds, n: nat)
    requires o.division && OkClauses(cs, ks, n) && n <= 0x20_0000 && PlainClauses(cs)
    ensures ClausesSafe(o, cs)
    decreases cs, 0
  {
    if cs != [] {
      ClauseSafeToo(o, cs[0], ks, n);
      ClausesSafeToo(o, cs[1..], ks, n);
    }
  }

  lemma {:induction false} ClauseSafeToo(o: Opts, c: Clause, ks: Kinds, n: nat)
    requires o.division && OkClause(c, ks, n) && n <= 0x20_0000 && PlainClause(c)
    ensures ClauseSafe(o, c)
    decreases c, 2
  {
    PlainTest(o, c.test, false);
    PlainSafe(o, c.body, ks, n);
  }

  lemma {:induction false} CasesSafeToo(o: Opts, cs: seq<Case>, ks: Kinds, n: nat)
    requires o.division && OkCases(cs, ks, n) && n <= 0x20_0000 && PlainCases(cs)
    ensures CasesSafe(o, cs)
    decreases cs, 0
  {
    if cs != [] {
      CaseSafeToo(o, cs[0], ks, n);
      CasesSafeToo(o, cs[1..], ks, n);
    }
  }

  lemma {:induction false} CaseSafeToo(o: Opts, c: Case, ks: Kinds, n: nat)
    requires o.division && OkCase(c, ks, n) && n <= 0x20_0000 && PlainCase(c)
    ensures CaseSafe(o, c)
    decreases c, 2
  {
    PlainSafe(o, c.body, ks, n);
  }

  // ---------------------------------------------------------------- without the optimizer

  const NO_OPTS: Opts := Opts(false, false, true)

  lemma {:induction false} Untouched(e: Expr)
    ensures Optimize(NO_OPTS, e) == e
    decreases e
  {
    match e
    case Unary(_, _, x) => Untouched(x);
    case Binary(_, _, x, y) =>
      Untouched(x);
      Untouched(y);
    case _ =>
  }

  lemma ExprUntouched(e: Expr, ks: Kinds, n: nat)
    requires OkExpr(e, ks, n) && Steady(e, false, false)
    ensures GoodExpr(e) && VarsBelow(e, n)
  {
    Untouched(e);
    ExprLowerable(NO_OPTS, e, ks, n);
  }

  lemma TestUntouched(t: Expr, ks: Kinds, n: nat)
    requires OkExpr(t, ks, n) && TameTest(t)
    ensures GoodExpr(t) && VarsBelow(t, n) && (IfOk(t) <==> !LessUnder(t, false))
    ensures TestOk(NewUnary(NOT1, Skeleton(t))) <==> !LessUnder(t, false)
    ensures TestOk(Skeleton(t)) <==> !LessUnder(t, true)
  {
    Untouched(t);
    TestLowerable(NO_OPTS, t, ks, n);
  }

  lemma PlainUntouched(t: Expr, ks: Kinds, n: nat)
    requires OkExpr(t, ks, n) && TameTest(t) && Steady(t, false, true)
    ensures IfOk(t) && TestOk(NewUnary(NOT1, Skeleton(t))) && VarsBelow(t, n)
  {
    TestUntouched(t, ks, n);
    Untouched(t);
    PlainTest(NO_OPTS, t, false);
  }

  lemma ForUntouched(st: Stmt, ks: Kinds, n: nat)
    requires st.For? && OkExpr(st.test, ks, n) && n <= 0x20_0000 && TameTest(st.test) && ForPlain(st.test)
    requires HasContinue(st.body) ==> st.post == NO_STMT
    ensures ForOk(st.test, st.post, st.body) && VarsBelow(st.test, n)
  {
    TestUntouched(st.test, ks, n);
    Untouched(st.test);
    VarsInBelow(st.test, ks, n, 0x20_0000);
    ForTest(NO_OPTS, st.test);
  }

  /** Such programs are in the domain of the lowering theorems as they are. */
  lemma {:induction false} PlainLowers(st: Stmt, ks: Kinds, n: nat, sc: Scope)
    requires OkStmt(st, ks, n) && n <= 0x20_0000 && Tame(st, sc) && PlainTests(st)
    ensures Lowerable(st, sc, n)
    decreases st, 1
  {
    match st
    case ExprStmt(e) => ExprUntouched(e, ks, n);
    case Assign(_, _, _, src) => ExprUntouched(src, ks, n);
    case If(test, a, b) =>
      PlainUntouched(test, ks, n);
      PlainLowers(a, ks, n, sc);
      PlainLowers(b, ks, n, sc);
    case For(init, _, post, body) =>
      ForUntouched(st, ks, n);
      PlainLowers(init, ks, n, sc);
      PlainLowers(post, ks, n, LoopScope(sc));
      PlainLowers(body, ks, n, LoopScope(sc));
    case Cond(clauses) => ClausesLower(clauses, ks, n, sc);
    case Switch(expr, cases) =>
      ExprUntouched(expr, ks, n);
      CasesLower(cases, expr.kind, ks, n, CaseScope(sc));
    case Block(stmts) => AllLower(stmts, ks, n, sc);
    case _ =>
  }

  lemma {:induction false} AllLower(ss: seq<Stmt>, ks: Kinds, n: nat, sc: Scope)
    requires AllOk(ss, ks, n) && n <= 0x20_0000 && AllTame(ss, sc) && AllPlain(ss)
    ensures AllLowerable(ss, sc, n)
    decreases ss, 0
  {
    if ss != [] {
      PlainLowers(ss[0], ks, n, sc);
      AllLower(ss[1..], ks, n, sc);
    }
  }

  lemma {:induction false} ClausesLower(cs: seq<Clause>, ks: Kinds, n: nat, sc: Scope)
    requires OkClauses(cs, ks, n) && n <= 0x20_0000 && ClausesTame(cs, sc) && PlainClauses(cs)
    ensures ClausesLowerable(cs, sc, n)
    decreases cs, 0
  {
    if cs != [] {
      ClauseLowers(cs[0], ks, n, sc);
      ClausesLower(cs[1..], ks, n, sc);
    }
  }

  lemma {:induction false} ClauseLowers(c: Clause, ks: Kinds, n: nat, sc: Scope)
    requires OkClause(c, ks, n) && n <= 0x20_0000 && ClauseTame(c, sc) && PlainClause(c)
    ensures ClauseLowerable(c, sc, n)
    decreases c, 2
  {
    PlainUntouched(c.test, ks, n);
    PlainLowers(c.body, ks, n, sc);
  }

  lemma {:induction false} CasesLower(cs: seq<Case>, k: Kind, ks: Kinds, n: nat, sc: Scope)
    requires OkCases(cs, ks, n) && n <= 0x20_0000 && CasesTame(cs, k, sc) && PlainCases(cs)
    ensures CasesLowerable(cs, k, sc, n)
    decreases cs, 0
  {
    if cs != [] {
      CaseLowers(cs[0], k, ks, n, sc);
      CasesLower(cs[1..], k, ks, n, sc);
    }
  }

  lemma {:induction false} CaseLowers(c: Case, k: Kind, ks: Kinds, n: nat, sc: Scope)
    requires OkCase(c, ks, n) && n <= 0x20_0000 && CaseTame(c, k, sc) && PlainCase(c)
    ensures CaseLowerable(c, k, sc, n)
    decreases c, 2
  {
    if c.Case? {
      ExprUntouched(c.expr, ks, n);
    }
    PlainLowers(c.body, ks, n, sc);
  }

  // ---------------------------------------------------------------- the whole of compile(Func)

  /** What is lowered: with no flag set, the optimizer is not run. */
  function Configured(o: Opts, st: Stmt): Stmt { if o.fold || o.simplify then OptimizeStmt(o, st) else st }

  lemma ConfiguredLowers(o: Opts, body: Stmt, ks: Kinds, n: nat)
    requires o.division && OkStmt(body, ks, n) && n <= 0x20_0000 && Tame(body, TOP_SCOPE) && PlainTests(body)
    ensures Lowerable(Configured(o, body), TOP_SCOPE, n)
  {
    if o.fold || o.simplify {
      PlainSafe(o, body, ks, n);
      LowerableExact(o, body, ks, n, TOP_SCOPE);
    } else {
      PlainLowers(body, ks, n, TOP_SCOPE);
    }
  }

  lemma ConfiguredKeeps(o: Opts, body: Stmt, ks: Kinds, n: nat, env: Env, fuel: nat)
    requires o.division && OkStmt(body, ks, n) && n <= 0x20_0000 && !Exec(body, env, fuel).Fault?
    ensures Matches(Exec(body, env, fuel), Exec(Configured(o, body), env, fuel), ks, n)
  {
    StmtKeeps(o, body, ks, n, env, env, fuel);
  }

  /** compile(Func) on a tame program with plain tests, whatever the flags of the optimizer: a condition on the source
      alone. */
  lemma PlainSim(o: Opts, params: seq<nat>, body: Stmt, vars: nat, ks: Kinds, n: nat, env: Env, fuel: nat)
    returns (env': Env)
    requires o.division && OkStmt(body, ks, n) && n <= 0x20_0000 && n <= vars
    requires Tame(body, TOP_SCOPE) && PlainTests(body) && Exec(body, env, fuel).Done?
    ensures var code := CompileFunc(params, Configured(o, body), vars).node;
      && Exec(body, env, fuel).outcome == Normal
      && Reaches(code, Config(0, env), Config(|code| - 1, env')) && code[|code| - 1] == Ret
      && Alike(ks, n, Exec(body, env, fuel).env, env')
  {
    ConfiguredLowers(o, body, ks, n);
    ConfiguredKeeps(o, body, ks, n, env, fuel);
    env' := MatchSim(params, Configured(o, body), vars, ks, n, env, fuel, Exec(body, env, fuel));
  }

  /** And its code stops if and only if its body ends, when that does not fault. */
  lemma PlainHalts(o: Opts, params: seq<nat>, body: Stmt, vars: nat, ks: Kinds, n: nat, env: Env)
    requires o.division && OkStmt(body, ks, n) && n <= 0x20_0000 && n <= vars
    requires Tame(body, TOP_SCOPE) && PlainTests(body) && Faultless(body, env)
    ensures Stops(CompileFunc(params, Configured(o, body), vars).node, Config(0, env)) <==> Ends(body, env)
  {
    ConfiguredLowers(o, body, ks, n);
    forall fuel: nat ensures Matches(Exec(body, env, fuel), Exec(Configured(o, body), env, fuel), ks, n) {
      ConfiguredKeeps(o, body, ks, n, env, fuel);
    }
    MatchHalts(params, body, Configured(o, body), vars, ks, n, env);
  }
}
