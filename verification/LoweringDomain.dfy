/** The programs whose lowering is right, as conditions on the source alone. */
module LoweringDomain {
  import opened Values
  import opened Ir
  import opened Stmts
  import opened Lowering
  import opened LoweringAgain
  import opened Monoid

  // ---------------------------------------------------------------- the shape of compiled code

  /** Forgets which variables an expression reads. */
  function Erase(e: Expr): Expr {
    match e
    case Var(k, _) => Var(k, 0)
    case Const(_, _) => e
    case Unary(k, op, x) => Unary(k, op, Erase(x))
    case Binary(k, op, x, y) => Binary(k, op, Erase(x), Erase(y))
    case Tuple(k, op, args) => Tuple(k, op, EraseAll(args))
  }

  function EraseAll(es: seq<Expr>): seq<Expr> {
    if es == [] then [] else [Erase(es[0])] + EraseAll(es[1..])
  }

  /** The compiled form of an expression, up to the variables in it. */
  function Skeleton(e: Expr): Expr
    decreases e, 1
  {
    match e
    case Var(k, _) => Var(k, 0)
    case Const(_, _) => e
    case Unary(k, op, x) => Unary(k, op, Skeleton(x))
    case Binary(k, op, x, y) =>
      var (sx, sy) := (Skeleton(x), Skeleton(y));
      if op == LAND || op == LOR then BooleanSkeleton(op, sx, sy) else Binary(k, op, sx, sy)
    case Tuple(k, op, args) =>
      var leaves := SkeletonLeaves(args);
      if |leaves| == 0 then Const(k, IdentityN(k, op).num)
      else if |leaves| == 1 then leaves[0]
      else Tuple(k, op, leaves)
  }

  function BooleanSkeleton(op: Op2, sx: Expr, sy: Expr): Expr {
    if sx.Const? then (if Truth(ConstValue(sx)) == (op == LAND) then sy else sx)
    else if sy.Const? then (if Truth(ConstValue(sy)) == (op == LAND) then sx else sy)
    else if sy.Var? then Binary(Bool, op, sx, sy)
    else Var(Bool, 0)
  }

  function SkeletonLeaves(es: seq<Expr>): (r: seq<Expr>)
    ensures |r| == |es|
    decreases es, 0
  {
    if es == [] then []
    else
      var c := Skeleton(es[0]);
      [if IsLeaf(c) then c else Var(c.kind, 0)] + SkeletonLeaves(es[1..])
  }

  /** Whether compiling the expression emits code. */
  predicate Emits(e: Expr)
    decreases e, 1
  {
    match e
    case Var(_, _) => false
    case Const(_, _) => false
    case Unary(_, _, x) => Emits(x)
    case Binary(_, op, x, y) =>
      var (sx, sy) := (Skeleton(x), Skeleton(y));
      Emits(x) || Emits(y)
      || ((op == LAND || op == LOR) && !sx.Const?
          && (if sy.Const? then Truth(ConstValue(sy)) != (op == LAND) else !sy.Var?))
    case Tuple(_, _, args) => EmitsAny(args)
  }

  predicate EmitsAny(es: seq<Expr>)
    decreases es, 0
  {
    es != [] && (Emits(es[0]) || !IsLeaf(Skeleton(es[0])) || EmitsAny(es[1..]))
  }

  // ---------------------------------------------------------------- expressions that lower well

  /** Neither division nor shift, except by a constant that always works. */
  predicate NeverFaults(e: Expr)
    decreases e, 1
  {
    match e
    case Var(_, _) => true
    case Const(_, _) => true
    case Unary(_, _, x) => NeverFaults(x)
    case Binary(_, op, x, y) =>
      && NeverFaults(x) && NeverFaults(y)
      && (op == QUO || op == REM ==> y.Const? && y.num != 0 && y.num != -1)
      && (op == SHL || op == SHR ==> y.Const? && 0 <= y.num < 64)
    case Tuple(_, _, args) => NoneFaults(args)
  }

  predicate NoneFaults(es: seq<Expr>)
    decreases es, 0
  {
    es == [] || (NeverFaults(es[0]) && NoneFaults(es[1..]))
  }

  /** A signed < or <= whose jump negate_condjump() fails to negate. */
  predicate SignedLess(t: Expr) { t.Binary? && (t.op2 == LSS || t.op2 == LEQ) && IsSigned(t.x.kind) }

  /** simplify_land() negates the comparison on its left. */
  predicate LandOk(sx: Expr, sy: Expr) { sx.Const? || sy.Const? || sy.Var? || !SignedLess(sx) }

  /** compile(Unary) gives a new node the kind of its operand, which a cast has only by chance. */
  predicate CastOk(k: Kind, op: Op1, x: Expr) { op == CAST || op == BITCOPY ==> k == x.kind || Compiled(x) }

  /** Casts keep their kind, and the jumps that && needs are right. */
  predicate Shaped(e: Expr)
    decreases e, 1
  {
    match e
    case Var(_, _) => true
    case Const(_, _) => true
    case Unary(k, op, x) => Shaped(x) && CastOk(k, op, x)
    case Binary(_, op, x, y) => Shaped(x) && Shaped(y) && (op == LAND ==> LandOk(Skeleton(x), Skeleton(y)))
    case Tuple(_, _, args) => AllShaped(args)
  }

  predicate AllShaped(es: seq<Expr>)
    decreases es, 0
  {
    es == [] || (Shaped(es[0]) && AllShaped(es[1..]))
  }

  /** Code for the right operand of && and || runs even when the left one decides, so that code must not
      fail. */
  predicate Quiet(e: Expr)
    decreases e, 1
  {
    match e
    case Var(_, _) => true
    case Const(_, _) => true
    case Unary(_, _, x) => Quiet(x)
    case Binary(_, op, x, y) => Quiet(x) && Quiet(y) && (op == LAND || op == LOR ==> (Emits(y) ==> NeverFaults(y)))
    case Tuple(_, _, args) => AllQuiet(args)
  }

  predicate AllQuiet(es: seq<Expr>)
    decreases es, 0
  {
    es == [] || (Quiet(es[0]) && AllQuiet(es[1..]))
  }

  predicate Lowers(e: Expr) { Shaped(e) && Quiet(e) }

  /** A compiled test whose jump is right: compile(JumpIf) takes every Binary for a comparison. */
  predicate TestOk(t: Expr) {
    var (stripped, negate) := StripNots(t);
    var (x, op, y) := Comparands(stripped);
    ConstVerdict(x, op, y).Val? || (IsComparison(op) && !(negate && SignedLess(stripped)))
  }

  predicate GoodExpr(e: Expr) { Typed(e) && Lowers(e) }

  // ---------------------------------------------------------------- statements that lower well

  /** Whether a `continue` of the statement belongs to the loop around it. */
  predicate HasContinue(st: Stmt)
    decreases st, 1
  {
    match st
    case If(_, a, b) => HasContinue(a) || HasContinue(b)
    case For(init, _, _, _) => HasContinue(init)
    case Cond(clauses) => ClauseContinue(clauses)
    case Switch(_, cases) => CaseContinue(cases)
    case Block(stmts) => AnyContinue(stmts)
    case Continue => true
    case _ => false
  }

  predicate ClauseContinue(cs: seq<Clause>)
    decreases cs, 0
  {
    cs != [] && (BodyContinue(cs[0]) || ClauseContinue(cs[1..]))
  }

  predicate BodyContinue(c: Clause)
    decreases c, 2
  {
    HasContinue(c.body)
  }

  predicate CaseContinue(cs: seq<Case>)
    decreases cs, 0
  {
    cs != [] && (CaseBodyContinue(cs[0]) || CaseContinue(cs[1..]))
  }

  predicate CaseBodyContinue(c: Case)
    decreases c, 2
  {
    HasContinue(c.body)
  }

  predicate AnyContinue(ss: seq<Stmt>)
    decreases ss, 0
  {
    ss != [] && (HasContinue(ss[0]) || AnyContinue(ss[1..]))
  }

  predicate IfOk(test: Expr) {
    GoodExpr(test) && (Skeleton(test).Const? || TestOk(NewUnary(NOT1, Skeleton(test))))
  }

  /** A constant test lowers to `init` alone, which is right when the test is false. A `continue`
      skips `post`, which is right when there is none. */
  predicate ForOk(test: Expr, post: Stmt, body: Stmt) {
    && GoodExpr(test)
    && (if test.Const? then test.num == 0
        else TestOk(Skeleton(test)) && (HasContinue(body) ==> post == NO_STMT))
  }

  /** The destinations that the code around a statement provides. */
  datatype Scope = Scope(breaks: bool, continues: bool, fallsThrough: bool)

  /** Lowerable(st, sc, n): the statement lowers well in scope sc, and reads and writes only the
      variables below n. */
  predicate Lowerable(st: Stmt, sc: Scope, n: nat)
    decreases st, 1
  {
    match st
    case ExprStmt(e) => GoodExpr(e) && VarsBelow(e, n)
    case Assign(_, _, id, src) => id < n && GoodExpr(src) && VarsBelow(src, n)
    case Inc(_, id) => id < n
    case Dec(_, id) => id < n
    case If(test, then_, else_) =>
      IfOk(test) && VarsBelow(test, n) && Lowerable(then_, sc, n) && Lowerable(else_, sc, n)
    case For(init, test, post, body) =>
      && Lowerable(init, sc, n) && ForOk(test, post, body) && VarsBelow(test, n)
      && (test.Const? || (Lowerable(body, LoopScope(sc), n) && Lowerable(post, LoopScope(sc), n)))
    case Cond(clauses) => ClausesLowerable(clauses, sc, n)
    case Switch(expr, cases) =>
      && GoodExpr(expr) && VarsBelow(expr, n) && DefaultCount(cases) <= 1
      && CasesLowerable(cases, expr.kind, CaseScope(sc), n)
    case Block(stmts) => AllLowerable(stmts, sc, n)
    case Break => sc.breaks
    case Continue => sc.continues
    case Fallthrough => sc.fallsThrough
  }

  function LoopScope(sc: Scope): Scope { Scope(true, true, sc.fallsThrough) }

  function CaseScope(sc: Scope): Scope { Scope(true, sc.continues, true) }

  predicate AllLowerable(ss: seq<Stmt>, sc: Scope, n: nat)
    decreases ss, 0
  {
    ss == [] || (Lowerable(ss[0], sc, n) && AllLowerable(ss[1..], sc, n))
  }

  predicate ClausesLowerable(cs: seq<Clause>, sc: Scope, n: nat)
    decreases cs, 0
  {
    cs == [] || (ClauseLowerable(cs[0], sc, n) && ClausesLowerable(cs[1..], sc, n))
  }

  predicate ClauseLowerable(c: Clause, sc: Scope, n: nat)
    decreases c, 2
  {
    && GoodExpr(c.test) && TestOk(NewUnary(NOT1, Skeleton(c.test))) && VarsBelow(c.test, n)
    && Lowerable(c.body, sc, n)
  }

  predicate CasesLowerable(cs: seq<Case>, k: Kind, sc: Scope, n: nat)
    decreases cs, 0
  {
    cs == [] || (CaseLowerable(cs[0], k, sc, n) && CasesLowerable(cs[1..], k, sc, n))
  }

  predicate CaseLowerable(c: Case, k: Kind, sc: Scope, n: nat)
    decreases c, 2
  {
    && (c.Case? ==> GoodExpr(c.expr) && c.expr.kind == k && VarsBelow(c.expr, n))
    && Lowerable(c.body, sc, n)
  }

  // ---------------------------------------------------------------- facts about compiled expressions

  lemma {:induction false} NeverFaultsEval(e: Expr, env: Env)
    requires Typed(e) && NeverFaults(e)
    ensures CanonicalOf(e.kind, Eval(e, env))
    decreases e, 1
  {
    EvalTyped(e, env);
    match e
    case Var(_, _) =>
    case Const(_, _) =>
    case Unary(_, _, x) => NeverFaultsEval(x, env);
    case Binary(_, op, x, y) =>
      NeverFaultsEval(x, env);
      NeverFaultsEval(y, env);
      NeverFaultsOp(op, x, y, env);
    case Tuple(k, op, args) => NoneFaultsEval(args, k, op, IdentityN(k, op), env);
  }

  lemma NeverFaultsOp(op: Op2, x: Expr, y: Expr, env: Env)
    requires Typed(NewBinary(op, x, y)) && Eval(x, env).Val? && Eval(y, env).Val?
    requires Eval(x, env).kind == x.kind && Eval(y, env).kind == y.kind
    requires op == QUO || op == REM ==> y.Const? && y.num != 0 && y.num != -1
    requires op == SHL || op == SHR ==> y.Const? && 0 <= y.num < 64
    ensures EvalBinaryOp(op, Eval(x, env), Eval(y, env)).Val?
  {
  }

  lemma {:induction false} NoneFaultsEval(es: seq<Expr>, k: Kind, op: OpN, x: Value, env: Env)
    requires AllTyped(es, k) && NoneFaults(es) && x.Val? && x.kind == k
    ensures FoldFrom(op, x, EvalAll(es, env)).Val?
    ensures forall v <- EvalAll(es, env) :: v.Val?
    decreases es, 0
  {
    if es != [] {
      NeverFaultsEval(es[0], env);
      NoneFaultsEval(es[1..], k, op, TupleStep(op, x, Eval(es[0], env)), env);
    }
  }

  // ---------------------------------------------------------------- where the code of an expression runs

  /** Whether the code of && or || runs, once that of the operands has: what the operands evaluate to, where
      the code stores, tests or discards them. */
  predicate BooleanRuns(land: bool, sx: Expr, sy: Expr, x: Value, y: Value) {
    if sx.Const? then true
    else if sy.Const? then Truth(ConstValue(sy)) == land || x.Val?
    else sy.Var? || (x.Val? && (x == FromBool(land) ==> y.Val?))
  }

  /** Everything that the code of the expression computes has a value in this store: the arguments that are
      copied to variables, and the operands of && and ||, also of those that the source would skip. */
  predicate Runs(e: Expr, env: Env)
    decreases e, 1
  {
    match e
    case Var(_, _) => true
    case Const(_, _) => true
    case Unary(_, _, x) => Runs(x, env)
    case Binary(_, op, x, y) =>
      && Runs(x, env) && Runs(y, env)
      && (op == LAND || op == LOR ==>
            BooleanRuns(op == LAND, Skeleton(x), Skeleton(y), Eval(x, env), Eval(y, env)))
    case Tuple(_, _, args) => AllRun(args, env)
  }

  predicate AllRun(es: seq<Expr>, env: Env)
    decreases es, 0
  {
    es == [] || (Runs(es[0], env) && (IsLeaf(Skeleton(es[0])) || Eval(es[0], env).Val?) && AllRun(es[1..], env))
  }

  /** What emits no code always runs. */
  lemma {:induction false} SilentRuns(e: Expr, env: Env)
    requires !Emits(e)
    ensures Runs(e, env)
    decreases e, 1
  {
    match e
    case Var(_, _) =>
    case Const(_, _) =>
    case Unary(_, _, x) => SilentRuns(x, env);
    case Binary(_, _, x, y) => SilentRuns(x, env); SilentRuns(y, env);
    case Tuple(_, _, args) => AllSilentRun(args, env);
  }

  lemma {:induction false} AllSilentRun(es: seq<Expr>, env: Env)
    requires !EmitsAny(es)
    ensures AllRun(es, env)
    decreases es, 0
  {
    if es != [] {
      SilentRuns(es[0], env);
      AllSilentRun(es[1..], env);
    }
  }

  /** In the static domain, the code runs in every store in which the expression has a value. */
  lemma {:induction false} QuietRuns(e: Expr, env: Env)
    requires Typed(e) && Quiet(e) && Eval(e, env).Val?
    ensures Runs(e, env)
    decreases e, 1
  {
    match e
    case Var(_, _) =>
    case Const(_, _) =>
    case Unary(_, _, x) => QuietRuns(x, env);
    case Binary(_, op, x, y) =>
      QuietRuns(x, env);
      if op == LAND || op == LOR {
        if Emits(y) {
          NeverFaultsEval(y, env);
          QuietRuns(y, env);
        } else {
          SilentRuns(y, env);
        }
        BoolValues(x, env);
      } else {
        QuietRuns(y, env);
      }
    case Tuple(k, op, args) =>
      TupleOperandsValid(k, op, EvalAll(args, env));
      AllQuietRun(args, k, env);
  }

  lemma {:induction false} AllQuietRun(es: seq<Expr>, k: Kind, env: Env)
    requires AllTyped(es, k) && AllQuiet(es) && Invalid !in EvalAll(es, env)
    ensures AllRun(es, env)
    decreases es, 0
  {
    if es != [] {
      assert Eval(es[0], env) in EvalAll(es, env);
      QuietRuns(es[0], env);
      AllQuietRun(es[1..], k, env);
    }
  }

  /** Whether the code runs depends on the variables that the expression reads. */
  lemma {:induction false} RunsAgree(e: Expr, n: nat, e1: Env, e2: Env)
    requires VarsBelow(e, n) && Agree(n, e1, e2)
    ensures Runs(e, e1) == Runs(e, e2)
    decreases e, 1
  {
    match e
    case Var(_, _) =>
    case Const(_, _) =>
    case Unary(_, _, x) => RunsAgree(x, n, e1, e2);
    case Binary(_, _, x, y) =>
      RunsAgree(x, n, e1, e2);
      RunsAgree(y, n, e1, e2);
      EvalAgree(x, n, e1, e2);
      EvalAgree(y, n, e1, e2);
    case Tuple(_, _, args) => AllRunAgree(args, n, e1, e2);
  }

  lemma {:induction false} AllRunAgree(es: seq<Expr>, n: nat, e1: Env, e2: Env)
    requires AllBelow(es, n) && Agree(n, e1, e2)
    ensures AllRun(es, e1) == AllRun(es, e2)
    decreases es, 0
  {
    if es != [] {
      RunsAgree(es[0], n, e1, e2);
      EvalAgree(es[0], n, e1, e2);
      AllRunAgree(es[1..], n, e1, e2);
    }
  }

  lemma BoolValues(e: Expr, env: Env)
    requires Typed(e) && e.kind == Bool
    ensures Eval(e, env).Val? ==> Eval(e, env) == FromBool(true) || Eval(e, env) == FromBool(false)
  {
    EvalTyped(e, env);
    if Eval(e, env).Val? {
      CanonicalRange(Bool, Eval(e, env).num);
    }
  }

  // ---------------------------------------------------------------- the shape of what is compiled

  /** What compiling a typed expression keeps: type, kind, shape. */
  lemma {:induction false} CompiledShape(e: Expr, s: CState)
    requires Typed(e) && Shaped(e)
    ensures var r := CompileExpr(e, s).0; Typed(r) && r.kind == e.kind && Erase(r) == Skeleton(e)
    decreases e, 1
  {
    match e
    case Var(_, _) =>
    case Const(_, _) =>
    case Unary(_, _, x) =>
      CompiledShape(x, s);
      CompiledExact(x, s);
    case Binary(_, _, x, y) =>
      CompiledShape(x, s);
      CompiledShape(y, CompileExpr(x, s).1);
      BinaryShape(e, s);
    case Tuple(k, op, args) =>
      ArgsShape(k, args, s);
      IdentityCanonical(k, op);
  }

  lemma BinaryShape(e: Expr, s: CState)
    requires e.Binary? && Typed(e)
    requires var cx := CompileExpr(e.x, s); var cy := CompileExpr(e.y, cx.1);
      && Typed(cx.0) && cx.0.kind == e.x.kind && Erase(cx.0) == Skeleton(e.x)
      && Typed(cy.0) && cy.0.kind == e.y.kind && Erase(cy.0) == Skeleton(e.y)
    ensures var r := CompileExpr(e, s).0; Typed(r) && r.kind == e.kind && Erase(r) == Skeleton(e)
  {
    var cx := CompileExpr(e.x, s);
    var cy := CompileExpr(e.y, cx.1);
    var same := if cx.0 != e.x || cy.0 != e.y then NewBinary(e.op2, cx.0, cy.0) else e;
    assert same == Binary(e.kind, e.op2, cx.0, cy.0);
    if e.op2 == LAND || e.op2 == LOR {
      BooleanShape(e.op2, cx.0, cy.0, cy.1);
      assert CompileExpr(e, s) == SimplifyBoolean(e.op2 == LAND, cx.0, cy.0, same, cy.1);
      assert Skeleton(e) == BooleanSkeleton(e.op2, Skeleton(e.x), Skeleton(e.y));
    }
  }

  lemma BooleanShape(op: Op2, x: Expr, y: Expr, s: CState)
    requires op == LAND || op == LOR
    requires Typed(x) && Typed(y) && x.kind == Bool && y.kind == Bool
    ensures var r := SimplifyBoolean(op == LAND, x, y, Binary(Bool, op, x, y), s).0;
      Typed(r) && r.kind == Bool && Erase(r) == BooleanSkeleton(op, Erase(x), Erase(y))
  {
  }

  lemma {:induction false} ArgsShape(k: Kind, es: seq<Expr>, s: CState)
    requires AllTyped(es, k) && AllShaped(es)
    ensures var r := CompileArgs(es, s).0; AllTyped(r, k) && EraseAll(r) == SkeletonLeaves(es)
    decreases es, 0
  {
    if es != [] {
      CompiledShape(es[0], s);
      var c := CompileExpr(es[0], s);
      var leaf := ToVarConst(c.0, c.1);
      ArgsShape(k, es[1..], leaf.1);
      var rest := CompileArgs(es[1..], leaf.1).0;
      assert ([leaf.0] + rest)[1..] == rest;
    }
  }

  /** Compiling emits nothing unless Emits() says so. */
  lemma {:induction false} EmitsNothing(e: Expr, s: CState)
    requires Typed(e) && Shaped(e) && !Emits(e)
    ensures CompileExpr(e, s).1 == s
    decreases e, 1
  {
    match e
    case Var(_, _) =>
    case Const(_, _) =>
    case Unary(_, _, x) => EmitsNothing(x, s);
    case Binary(_, op, x, y) =>
      EmitsNothing(x, s);
      EmitsNothing(y, s);
      CompiledShape(x, s);
      CompiledShape(y, s);
    case Tuple(_, _, args) => ArgsEmitNothing(args, e.kind, s);
  }

  lemma {:induction false} ArgsEmitNothing(es: seq<Expr>, k: Kind, s: CState)
    requires AllTyped(es, k) && AllShaped(es) && !EmitsAny(es)
    ensures CompileArgs(es, s).1 == s
    decreases es, 0
  {
    if es != [] {
      EmitsNothing(es[0], s);
      CompiledShape(es[0], s);
      ArgsEmitNothing(es[1..], k, s);
    }
  }

  lemma {:induction false} StripErased(t: Expr)
    ensures var (u, negate) := StripNots(t); StripNots(Erase(t)) == (Erase(u), negate)
  {
    if t.Unary? && t.op1 == NOT1 {
      StripErased(t.x);
    }
  }

  /** Whether a jump is right depends on the shape of the test only. */
  lemma TestOkErased(t: Expr)
    ensures TestOk(Erase(t)) == TestOk(t)
  {
    StripErased(t);
  }

  lemma {:induction false} CompiledBelow(e: Expr, s: CState, n: nat)
    requires VarsBelow(e, n) && n <= s.vars
    ensures var r := CompileExpr(e, s); VarsBelow(r.0, r.1.vars)
    decreases e, 1
  {
    match e
    case Var(_, _) =>
    case Const(_, _) =>
    case Unary(_, _, x) => CompiledBelow(x, s, n);
    case Binary(_, _, x, y) =>
      CompiledBelow(x, s, n);
      var (cx, s1) := CompileExpr(x, s);
      CompiledBelow(y, s1, n);
      var (cy, s2) := CompileExpr(y, s1);
      VarsBelowMore(cx, s1.vars, s2.vars);
      VarsBelowMore(e, n, s2.vars);
    case Tuple(_, _, args) => ArgsBelow(args, s, n);
  }

  lemma {:induction false} ArgsBelow(es: seq<Expr>, s: CState, n: nat)
    requires AllBelow(es, n) && n <= s.vars
    ensures var r := CompileArgs(es, s); AllBelow(r.0, r.1.vars)
    decreases es, 0
  {
    if es != [] {
      CompiledBelow(es[0], s, n);
      var c := CompileExpr(es[0], s);
      var leaf := ToVarConst(c.0, c.1);
      ArgsBelow(es[1..], leaf.1, n);
      var rest := CompileArgs(es[1..], leaf.1);
      VarsBelowMore(leaf.0, leaf.1.vars, rest.1.vars);
      assert ([leaf.0] + rest.0)[1..] == rest.0;
    }
  }

  // ---------------------------------------------------------------- where `continue` comes from

  /** Only a statement with a `continue` of its own leaves through one. */
  lemma {:induction false} ExecContinues(st: Stmt, env: Env, fuel: nat)
    requires Exec(st, env, fuel).Done? && Exec(st, env, fuel).outcome == Continues
    ensures HasContinue(st)
    decreases fuel, st, 1
  {
    match st
    case If(test, a, b) => ExecContinues(if Truth(Eval(test, env)) then a else b, env, fuel);
    case For(init, _, _, _) =>
      if Exec(init, env, fuel).Finished() {
        LoopNeverContinues(st, Exec(init, env, fuel).env, fuel);
      } else {
        ExecContinues(init, env, fuel);
      }
    case Cond(clauses) => CondContinues(clauses, env, fuel);
    case Switch(expr, cases) =>
      var i := Select(cases, Eval(expr, env), env).value;
      CasesContinue(cases[i..], env, fuel);
      CaseContinueSuffix(cases, i);
    case Block(stmts) => BlockContinues(stmts, env, fuel);
    case _ =>
  }

  lemma {:induction false} LoopNeverContinues(st: Stmt, env: Env, fuel: nat)
    requires st.For?
    ensures Loop(st, env, fuel).Done? ==> Loop(st, env, fuel).outcome != Continues
    decreases fuel, st.body, 2
  {
    if fuel > 0 && Truth(Eval(st.test, env)) {
      var r := Exec(st.body, env, fuel - 1);
      if r.Done? {
        var q := Exec(st.post, r.env, fuel - 1);
        if q.Done? {
          LoopNeverContinues(st, q.env, fuel - 1);
        }
      }
    }
  }

  lemma {:induction false} CondContinues(clauses: seq<Clause>, env: Env, fuel: nat)
    requires ExecCond(clauses, env, fuel).Done? && ExecCond(clauses, env, fuel).outcome == Continues
    ensures ClauseContinue(clauses)
    decreases fuel, clauses, 0
  {
    if Truth(Eval(clauses[0].test, env)) {
      BodyContinues(clauses[0], env, fuel);
    } else {
      CondContinues(clauses[1..], env, fuel);
    }
  }

  lemma {:induction false} BodyContinues(c: Clause, env: Env, fuel: nat)
    requires ExecBody(c, env, fuel).Done? && ExecBody(c, env, fuel).outcome == Continues
    ensures BodyContinue(c)
    decreases fuel, c, 2
  {
    ExecContinues(c.body, env, fuel);
  }

  lemma {:induction false} CasesContinue(cases: seq<Case>, env: Env, fuel: nat)
    requires ExecCases(cases, env, fuel).Done? && ExecCases(cases, env, fuel).outcome == Continues
    ensures CaseContinue(cases)
    decreases fuel, cases, 0
  {
    var r := ExecCase(cases[0], env, fuel);
    if r.outcome == Continues {
      CaseContinues(cases[0], env, fuel);
    } else {
      CasesContinue(cases[1..], r.env, fuel);
    }
  }

  lemma {:induction false} CaseContinueSuffix(cases: seq<Case>, i: nat)
    requires i <= |cases| && CaseContinue(cases[i..])
    ensures CaseContinue(cases)
  {
    if i == 0 {
      assert cases[i..] == cases;
    } else {
      assert cases[i..] == cases[1..][i - 1..];
      CaseContinueSuffix(cases[1..], i - 1);
    }
  }

  lemma {:induction false} CaseContinues(c: Case, env: Env, fuel: nat)
    requires ExecCase(c, env, fuel).Done? && ExecCase(c, env, fuel).outcome == Continues
    ensures CaseBodyContinue(c)
    decreases fuel, c, 2
  {
    ExecContinues(c.body, env, fuel);
  }

  lemma {:induction false} BlockContinues(stmts: seq<Stmt>, env: Env, fuel: nat)
    requires ExecBlock(stmts, env, fuel).Done? && ExecBlock(stmts, env, fuel).outcome == Continues
    ensures AnyContinue(stmts)
    decreases fuel, stmts, 0
  {
    if Exec(stmts[0], env, fuel).Finished() {
      BlockContinues(stmts[1..], Exec(stmts[0], env, fuel).env, fuel);
    } else {
      ExecContinues(stmts[0], env, fuel);
    }
  }
}
