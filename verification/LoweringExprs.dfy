/** Compiled expressions compute what their sources compute. */
module LoweringExprs {
  import opened Values
  import opened Ir
  import opened Monoid
  import opened Stmts
  import opened Flat
  import opened Lowering
  import opened LoweringAgain
  import opened LoweringDomain

  /** p starts with everything emitted so far: intermediate states lie inside the final code. */
  ghost predicate Inside(t: CState, p: seq<Instr>) { t.node <= p && UniqueLabels(p) }

  function At(s: CState, env: Env): Config { Config(|s.node|, env) }

  // ---------------------------------------------------------------- conditional jumps

  /** The jump for an operator decides what the operator computes, negated or not, for all operands, exactly
      when the operator is a comparison and the jump not the negation of a signed < or <=. */
  lemma JumpOpExact(op: Op2, k: Kind, negate: bool)
    ensures (forall a, b :: Canonical(k, a) && Canonical(k, b) ==>
               Taken(JumpOp(op, k, negate), Val(k, a), Val(k, b))
                 == Some(negate != Truth(EvalBinaryOp(op, Val(k, a), Val(k, b)))))
            <==> IsComparison(op) && !(negate && IsSigned(k) && (op == LSS || op == LEQ))
  {
    if IsComparison(op) && !(negate && IsSigned(k) && (op == LSS || op == LEQ)) {
      forall a, b | Canonical(k, a) && Canonical(k, b)
        ensures Taken(JumpOp(op, k, negate), Val(k, a), Val(k, b))
          == Some(negate != Truth(EvalBinaryOp(op, Val(k, a), Val(k, b))))
      {
        JumpTaken(op, k, negate, a, b);
      }
    } else {
      CanonicalRange(k, 0);
      assert Canonical(k, 0);
      JumpWrong(op, k, negate, 0, 0);
    }
  }

  /** Otherwise it decides wrongly, or not at all, for any operands. */
  lemma JumpWrong(op: Op2, k: Kind, negate: bool, a: int, b: int)
    requires !(IsComparison(op) && !(negate && IsSigned(k) && (op == LSS || op == LEQ)))
    requires Canonical(k, a) && Canonical(k, b)
    ensures Taken(JumpOp(op, k, negate), Val(k, a), Val(k, b))
      == if IsComparison(op) then Some(negate == Truth(EvalBinaryOp(op, Val(k, a), Val(k, b)))) else None
  {
    if IsComparison(op) {
      assert JumpOp(op, k, negate) == JumpOp(op, k, false);
      JumpTaken(op, k, false, a, b);
    }
  }

  lemma JumpTaken(op: Op2, k: Kind, negate: bool, a: int, b: int)
    requires IsComparison(op) && Canonical(k, a) && Canonical(k, b)
    requires !(negate && IsSigned(k) && (op == LSS || op == LEQ))
    ensures Taken(JumpOp(op, k, negate), Val(k, a), Val(k, b)) == Some(negate != Compare(op, a, b))
  {
    var m := Modulus(k);
    var (ua, ub) := (Reduce(m, false, a), Reduce(m, false, b));
    assert ua == ub <==> a == b;
    DecidesExact(op, k, negate, ua, ub, Reduce(m, true, a), Reduce(m, true, b), a, b);
  }

  lemma DecidesExact(op: Op2, k: Kind, negate: bool, ua: int, ub: int, sa: int, sb: int, a: int, b: int)
    requires IsComparison(op) && !(negate && IsSigned(k) && (op == LSS || op == LEQ))
    requires (ua == ub <==> a == b) && if IsSigned(k) then (sa, sb) == (a, b) else (ua, ub) == (a, b)
    ensures Decides(JumpOp(op, k, negate), ua, ub, sa, sb) == Some(negate != Compare(op, a, b))
  {
  }

  lemma {:induction false} StripMeaning(test: Expr, env: Env)
    requires Typed(test) && Eval(test, env).Val?
    ensures var (u, negate) := StripNots(test);
      Typed(u) && Eval(u, env).Val? && Truth(Eval(test, env)) == (negate != Truth(Eval(u, env)))
  {
    if test.Unary? && test.op1 == NOT1 {
      StripMeaning(test.x, env);
    }
  }

  lemma ComparandsMeaning(u: Expr, env: Env)
    requires Typed(u) && Eval(u, env).Val?
    ensures var (x, op, y) := Comparands(u);
      && Typed(x) && Typed(y) && x.kind == y.kind
      && (IsComparison(op) ==>
            && Eval(x, env).Val? && Eval(y, env).Val?
            && Truth(Eval(u, env)) == Compare(op, Eval(x, env).num, Eval(y, env).num))
      && (ConstVerdict(x, op, y).Val? ==> Truth(ConstVerdict(x, op, y)) == Truth(Eval(u, env)))
  {
    CanonicalRange(u.kind, 0);
    EvalTyped(u, env);
  }

  /** The jump that compile(JumpIf) emits goes to its target when the test is true, and else falls
      through. */
  lemma EmitJumpSim(s: CState, target: nat, test: Expr, p: seq<Instr>, env: Env, pos: nat)
    requires Inside(EmitJump(s, target, test), p)
    requires Typed(test) && TestOk(test) && Eval(test, env).Val?
    requires Find(p, target) == Some(pos)
    ensures Reaches(p, At(s, env),
              if Truth(Eval(test, env)) then Config(pos, env) else At(EmitJump(s, target, test), env))
  {
    StripMeaning(test, env);
    var (u, negate) := StripNots(test);
    ComparandsMeaning(u, env);
    var (x, op, y) := Comparands(u);
    var v := ConstVerdict(x, op, y);
    var dest := if Truth(Eval(test, env)) then Config(pos, env) else At(EmitJump(s, target, test), env);
    if v.Val? && negate == Truth(v) {
      ReachesSelf(p, At(s, env));
    } else {
      if v.Invalid? {
        JumpStep(s, target, op, x, y, negate, p, env, pos);
      }
      assert Step(p, At(s, env)) == Some(dest);
      StepReaches(p, At(s, env), dest);
    }
  }

  lemma JumpStep(s: CState, target: nat, op: Op2, x: Expr, y: Expr, negate: bool, p: seq<Instr>, env: Env, pos: nat)
    requires Inside(Emit(s, Jump(JumpOp(op, x.kind, negate), target, x, y)), p) && Find(p, target) == Some(pos)
    requires Typed(x) && Typed(y) && x.kind == y.kind && Eval(x, env).Val? && Eval(y, env).Val?
    requires IsComparison(op) && !(negate && IsSigned(x.kind) && (op == LSS || op == LEQ))
    ensures Step(p, At(s, env)) == Some(
      Config(if negate != Compare(op, Eval(x, env).num, Eval(y, env).num) then pos else |s.node| + 1, env))
  {
    EvalTyped(x, env);
    EvalTyped(y, env);
    JumpTaken(op, x.kind, negate, Eval(x, env).num, Eval(y, env).num);
    assert p[|s.node|] == Jump(JumpOp(op, x.kind, negate), target, x, y);
  }

  /** A jump that is emitted goes the right way exactly when TestOk() holds of the test, in every store in
      which the test has a value. */
  lemma EmitJumpExact(s: CState, target: nat, test: Expr, p: seq<Instr>, env: Env, pos: nat)
    requires Inside(EmitJump(s, target, test), p) && Typed(test) && Eval(test, env).Val?
    requires Find(p, target) == Some(pos) && pos != |EmitJump(s, target, test).node|
    requires var (x, op, y) := Comparands(StripNots(test).0); ConstVerdict(x, op, y).Invalid?
    ensures var t := EmitJump(s, target, test);
      Step(p, At(s, env)) == Some(if Truth(Eval(test, env)) then Config(pos, env) else At(t, env)) <==> TestOk(test)
  {
    StripMeaning(test, env);
    var (u, negate) := StripNots(test);
    ComparandsMeaning(u, env);
    var (x, op, y) := Comparands(u);
    JumpExact(s, target, op, x, y, negate, p, env, pos, Truth(Eval(u, env)));
  }

  lemma JumpExact(s: CState, target: nat, op: Op2, x: Expr, y: Expr, negate: bool, p: seq<Instr>, env: Env, pos: nat,
                  truth: bool)
    requires Inside(Emit(s, Jump(JumpOp(op, x.kind, negate), target, x, y)), p)
    requires Find(p, target) == Some(pos) && pos != |s.node| + 1 && Typed(x) && Typed(y) && x.kind == y.kind
    requires IsComparison(op) ==>
      Eval(x, env).Val? && Eval(y, env).Val? && truth == Compare(op, Eval(x, env).num, Eval(y, env).num)
    ensures Step(p, At(s, env)) == Some(Config(if negate != truth then pos else |s.node| + 1, env))
      <==> IsComparison(op) && !(negate && IsSigned(x.kind) && (op == LSS || op == LEQ))
  {
    EvalTyped(x, env);
    EvalTyped(y, env);
    JumpDecides(op, x.kind, negate, Eval(x, env), Eval(y, env), truth);
    assert p[|s.node|] == Jump(JumpOp(op, x.kind, negate), target, x, y);
  }

  /** A jump decides what a comparison does, negated or not, exactly when it is the right jump. */
  lemma JumpDecides(op: Op2, k: Kind, negate: bool, x: Value, y: Value, truth: bool)
    requires IsComparison(op) ==>
      && x.Val? && y.Val? && x.kind == y.kind == k && Canonical(k, x.num) && Canonical(k, y.num)
      && truth == Compare(op, x.num, y.num)
    ensures Taken(JumpOp(op, k, negate), x, y) == Some(negate != truth)
      <==> IsComparison(op) && !(negate && IsSigned(k) && (op == LSS || op == LEQ))
  {
    if IsComparison(op) {
      if negate && IsSigned(k) && (op == LSS || op == LEQ) {
        JumpWrong(op, k, negate, x.num, y.num);
      } else {
        JumpTaken(op, k, negate, x.num, y.num);
      }
    }
  }

  // ---------------------------------------------------------------- storing to a fresh variable

  /** The machine stores a canonical value under a plain assignment, and a read gives it back. */
  lemma LetSim(s: CState, k: Kind, id: nat, src: Expr, p: seq<Instr>, env: Env)
    requires Inside(Emit(s, Let(ASSIGN, k, id, src)), p)
    requires CanonicalOf(k, Eval(src, env))
    ensures var env' := env[id := Eval(src, env).num];
      && Reaches(p, At(s, env), At(Emit(s, Let(ASSIGN, k, id, src)), env'))
      && Eval(Var(k, id), env') == Eval(src, env)
      && Agree(id, env, env')
  {
    var env' := env[id := Eval(src, env).num];
    StepReaches(p, At(s, env), At(Emit(s, Let(ASSIGN, k, id, src)), env'));
  }

  // ---------------------------------------------------------------- expressions

  /** Where the code of an expression runs, it ends behind it, with the same variables in scope, and the
      compiled expression then has the value of the source, or like it none. */
  lemma {:induction false} ExprSim(e: Expr, s: CState, p: seq<Instr>, env: Env) returns (env': Env)
    requires Typed(e) && Shaped(e) && VarsBelow(e, s.vars) && Inside(CompileExpr(e, s).1, p)
    requires Runs(e, env)
    ensures Reaches(p, At(s, env), At(CompileExpr(e, s).1, env'))
    ensures Agree(s.vars, env, env')
    ensures Eval(CompileExpr(e, s).0, env') == Eval(e, env)
    decreases e, 1
  {
    env' := env;
    ReachesSelf(p, At(s, env));
    match e
    case Var(_, _) =>
    case Const(_, _) =>
    case Unary(_, _, x) =>
      env' := ExprSim(x, s, p, env);
      CompiledShape(x, s);
      CompiledExact(x, s);
    case Binary(_, op, _, _) =>
      if op == LAND || op == LOR {
        env' := BooleanSim(e, s, p, env);
      } else {
        env' := BinarySim(e, s, p, env);
      }
    case Tuple(_, _, _) => env' := TupleSim(e, s, p, env);
  }

  /** A cast, or another unary operation, whose operand is computed: the compiled operation has the value of the
      source one exactly when it is no cast to another kind of an operand that compiling changes. */
  lemma CastExact(k: Kind, op: Op1, x: Expr, s: CState, p: seq<Instr>, env: Env) returns (env': Env)
    requires var e := Unary(k, op, x); Typed(e) && VarsBelow(e, s.vars) && Inside(CompileExpr(e, s).1, p)
    requires Shaped(x) && Runs(x, env) && Eval(x, env).Val?
    ensures Reaches(p, At(s, env), At(CompileExpr(Unary(k, op, x), s).1, env')) && Agree(s.vars, env, env')
    ensures Eval(CompileExpr(Unary(k, op, x), s).0, env') == Eval(Unary(k, op, x), env) <==> CastOk(k, op, x)
  {
    env' := ExprSim(x, s, p, env);
    CompiledShape(x, s);
    CompiledExact(x, s);
    EvalTyped(x, env);
  }

  /** Both operands of a binary operator, one after the other. */
  lemma {:induction false} OperandsSim(e: Expr, s: CState, p: seq<Instr>, env: Env) returns (env': Env)
    requires e.Binary? && Typed(e) && Shaped(e) && VarsBelow(e, s.vars) && Runs(e.x, env) && Runs(e.y, env)
    requires Inside(CompileExpr(e.y, CompileExpr(e.x, s).1).1, p)
    ensures var cx := CompileExpr(e.x, s); var cy := CompileExpr(e.y, cx.1);
      && Reaches(p, At(s, env), At(cy.1, env')) && Agree(s.vars, env, env')
      && VarsBelow(cx.0, cy.1.vars) && VarsBelow(cy.0, cy.1.vars)
      && Eval(cx.0, env') == Eval(e.x, env) && Eval(cy.0, env') == Eval(e.y, env)
    decreases e, 0, 0
  {
    var cx := CompileExpr(e.x, s);
    var cy := CompileExpr(e.y, cx.1);
    var env1 := ExprSim(e.x, s, p, env);
    CompiledBelow(e.x, s, s.vars);
    VarsBelowMore(e.y, s.vars, cx.1.vars);
    CompiledBelow(e.y, cx.1, cx.1.vars);
    EvalAgree(e.y, s.vars, env, env1);
    RunsAgree(e.y, s.vars, env, env1);
    env' := ExprSim(e.y, cx.1, p, env1);
    EvalAgree(cx.0, cx.1.vars, env1, env');
    VarsBelowMore(cx.0, cx.1.vars, cy.1.vars);
    ReachesTrans(p, At(s, env), At(cx.1, env1), At(cy.1, env'));
  }

  lemma {:induction false} BinarySim(e: Expr, s: CState, p: seq<Instr>, env: Env) returns (env': Env)
    requires Typed(e) && Shaped(e) && VarsBelow(e, s.vars) && Inside(CompileExpr(e, s).1, p)
    requires e.Binary? && e.op2 != LAND && e.op2 != LOR && Runs(e, env)
    ensures Reaches(p, At(s, env), At(CompileExpr(e, s).1, env'))
    ensures Agree(s.vars, env, env')
    ensures Eval(CompileExpr(e, s).0, env') == Eval(e, env)
    decreases e, 0, 1
  {
    env' := OperandsSim(e, s, p, env);
  }

  lemma {:induction false} TupleSim(e: Expr, s: CState, p: seq<Instr>, env: Env) returns (env': Env)
    requires Typed(e) && Shaped(e) && VarsBelow(e, s.vars) && Inside(CompileExpr(e, s).1, p)
    requires e.Tuple? && Runs(e, env)
    ensures Reaches(p, At(s, env), At(CompileExpr(e, s).1, env'))
    ensures Agree(s.vars, env, env')
    ensures Eval(CompileExpr(e, s).0, env') == Eval(e, env)
    decreases e, 0, 0
  {
    var vs := EvalAll(e.args, env);
    env' := ArgsSim(e.args, e.kind, s, p, env);
    var c := CompileArgs(e.args, s).0;
    if |c| == 1 {
      assert vs == [Eval(c[0], env')];
      EvalAllTyped(e.args, e.kind, env);
      SingleOperand(e.kind, e.opn, vs[0]);
    }
  }

  lemma {:induction false} ArgsSim(es: seq<Expr>, k: Kind, s: CState, p: seq<Instr>, env: Env)
    returns (env': Env)
    requires AllTyped(es, k) && AllShaped(es) && AllBelow(es, s.vars) && Inside(CompileArgs(es, s).1, p)
    requires AllRun(es, env)
    ensures Reaches(p, At(s, env), At(CompileArgs(es, s).1, env'))
    ensures Agree(s.vars, env, env')
    ensures EvalAll(CompileArgs(es, s).0, env') == EvalAll(es, env)
    decreases es, 0
  {
    env' := env;
    ReachesSelf(p, At(s, env));
    if es != [] {
      var c := CompileExpr(es[0], s);
      var leaf := ToVarConst(c.0, c.1);
      var rest := CompileArgs(es[1..], leaf.1);
      var env2 := ArgSim(es[0], s, p, env);
      AllBelowMore(es[1..], s.vars, leaf.1.vars);
      EvalAllAgree(es[1..], s.vars, env, env2);
      AllRunAgree(es[1..], s.vars, env, env2);
      env' := ArgsSim(es[1..], k, leaf.1, p, env2);
      EvalAgree(leaf.0, leaf.1.vars, env2, env');
      ReachesTrans(p, At(s, env), At(leaf.1, env2), At(rest.1, env'));
      assert ([leaf.0] + rest.0)[1..] == rest.0;
    }
  }

  /** One argument, which ends as a variable or a constant. */
  lemma {:induction false} ArgSim(e: Expr, s: CState, p: seq<Instr>, env: Env) returns (env': Env)
    requires Typed(e) && Shaped(e) && VarsBelow(e, s.vars) && Runs(e, env)
    requires IsLeaf(Skeleton(e)) || Eval(e, env).Val?
    requires var c := CompileExpr(e, s); Inside(ToVarConst(c.0, c.1).1, p)
    ensures var c := CompileExpr(e, s); var leaf := ToVarConst(c.0, c.1);
      && Reaches(p, At(s, env), At(leaf.1, env')) && Agree(s.vars, env, env')
      && VarsBelow(leaf.0, leaf.1.vars) && Eval(leaf.0, env') == Eval(e, env)
    decreases e, 2
  {
    var c := CompileExpr(e, s);
    var leaf := ToVarConst(c.0, c.1);
    env' := ExprSim(e, s, p, env);
    EvalTyped(e, env);
    CompiledShape(e, s);
    CompiledBelow(e, s, s.vars);
    if !IsLeaf(c.0) {
      var env1 := env';
      env' := env1[c.1.vars := Eval(c.0, env1).num];
      LetSim(c.1.(vars := c.1.vars + 1), c.0.kind, c.1.vars, c.0, p, env1);
      ReachesTrans(p, At(s, env), At(c.1, env1), At(leaf.1, env'));
    }
  }

  // ---------------------------------------------------------------- && and ||

  lemma {:induction false} BooleanSim(e: Expr, s: CState, p: seq<Instr>, env: Env) returns (env': Env)
    requires Typed(e) && Shaped(e) && VarsBelow(e, s.vars) && Inside(CompileExpr(e, s).1, p)
    requires e.Binary? && (e.op2 == LAND || e.op2 == LOR) && Runs(e, env)
    ensures Reaches(p, At(s, env), At(CompileExpr(e, s).1, env'))
    ensures Agree(s.vars, env, env')
    ensures Eval(CompileExpr(e, s).0, env') == Eval(e, env)
    decreases e, 0, 1
  {
    var cx := CompileExpr(e.x, s);
    var cy := CompileExpr(e.y, cx.1);
    var env2 := OperandsSim(e, s, p, env);
    CompiledShape(e.x, s);
    CompiledShape(e.y, cx.1);
    BooleanCode(e, s);
    var same := Binary(Bool, e.op2, cx.0, cy.0);
    var r := SimplifyBoolean(e.op2 == LAND, cx.0, cy.0, same, cy.1);
    env' := SimplifySim(e.op2 == LAND, cx.0, cy.0, same, cy.1, p, env2);
    ReachesTrans(p, At(s, env), At(cy.1, env2), At(r.1, env'));
  }

  lemma BooleanCode(e: Expr, s: CState)
    requires e.Binary? && (e.op2 == LAND || e.op2 == LOR) && Typed(e)
    ensures var cx := CompileExpr(e.x, s); var cy := CompileExpr(e.y, cx.1);
      CompileExpr(e, s) == SimplifyBoolean(e.op2 == LAND, cx.0, cy.0, Binary(Bool, e.op2, cx.0, cy.0), cy.1)
  {
    var cx := CompileExpr(e.x, s);
    var cy := CompileExpr(e.y, cx.1);
    var same := if cx.0 != e.x || cy.0 != e.y then NewBinary(e.op2, cx.0, cy.0) else e;
    assert same == Binary(Bool, e.op2, cx.0, cy.0);
  }

  /** && and || of two values, where the left one may decide. */
  function BooleanOf(land: bool, x: Value, y: Value): Value {
    if x == FromBool(!land) then x else EvalBinaryOp(if land then LAND else LOR, x, y)
  }

  lemma LandErased(x: Expr, y: Expr)
    requires LandOk(Erase(x), Erase(y)) && !x.Const? && !y.Const? && !y.Var?
    ensures !SignedLess(x)
  {
    if x.Binary? {
      assert Erase(x) == Binary(x.kind, x.op2, Erase(x.x), Erase(x.y));
      assert Erase(x.x).kind == x.x.kind;
    }
  }

  /** simplify_land() and simplify_lor() on operands that are already compiled. */
  lemma SimplifySim(land: bool, x: Expr, y: Expr, same: Expr, s: CState, p: seq<Instr>, env: Env)
    returns (env': Env)
    requires Typed(x) && Typed(y) && x.kind == Bool && y.kind == Bool
    requires VarsBelow(x, s.vars) && VarsBelow(y, s.vars)
    requires same == Binary(Bool, if land then LAND else LOR, x, y)
    requires land ==> LandOk(Erase(x), Erase(y))
    requires Inside(SimplifyBoolean(land, x, y, same, s).1, p)
    requires BooleanRuns(land, Erase(x), Erase(y), Eval(x, env), Eval(y, env))
    ensures Reaches(p, At(s, env), At(SimplifyBoolean(land, x, y, same, s).1, env'))
    ensures Agree(s.vars, env, env')
    ensures Eval(SimplifyBoolean(land, x, y, same, s).0, env') == BooleanOf(land, Eval(x, env), Eval(y, env))
  {
    BoolValues(x, env);
    BoolValues(y, env);
    env' := env;
    ReachesSelf(p, At(s, env));
    if x.Const? || (!y.Const? && y.Var?) {
    } else if y.Const? {
      if Truth(ConstValue(y)) != land {
        DiscardSim(s, x, p, env);
      }
    } else {
      if land {
        LandErased(x, y);
      }
      assert SimplifyBoolean(land, x, y, same, s) == StoreBoolean(land, x, y, s);
      env' := StoreSim(land, x, y, s, p, env);
    }
  }

  lemma DiscardSim(s: CState, x: Expr, p: seq<Instr>, env: Env)
    requires Eval(x, env).Val?
    ensures Reaches(p, At(s, env), At(s, env))
    ensures Inside(EmitExpr(s, x), p) ==> Reaches(p, At(s, env), At(EmitExpr(s, x), env))
  {
    ReachesSelf(p, At(s, env));
    if x != VOID_CONST && Inside(EmitExpr(s, x), p) {
      StepReaches(p, At(s, env), At(EmitExpr(s, x), env));
    }
  }

  /** The code that stores the result of && or || in a fresh variable. */
  lemma StoreSim(land: bool, x: Expr, y: Expr, s: CState, p: seq<Instr>, env: Env) returns (env': Env)
    requires Typed(x) && Typed(y) && x.kind == Bool && y.kind == Bool
    requires VarsBelow(x, s.vars) && VarsBelow(y, s.vars)
    requires !x.Const? && (land ==> !SignedLess(x))
    requires Inside(StoreBoolean(land, x, y, s).1, p)
    requires Eval(x, env).Val? && (Eval(x, env) == FromBool(land) ==> Eval(y, env).Val?)
    ensures Reaches(p, At(s, env), At(StoreBoolean(land, x, y, s).1, env'))
    ensures Agree(s.vars, env, env')
    ensures Eval(StoreBoolean(land, x, y, s).0, env') ==
      if Eval(x, env) == FromBool(!land) then Eval(x, env) else Eval(y, env)
  {
    var s2 := StoreLeft(land, x, s);
    var s3 := Emit(s2, Let(ASSIGN, Bool, s.vars, y));
    var s4 := Emit(s3, LabelI(s.labels));
    assert StoreBoolean(land, x, y, s) == (Var(Bool, s.vars), s4);
    BoolValues(x, env);
    EndFound(s3, s.labels, p);
    var env1 := LeftSim(land, x, s, p, env, |s3.node|);
    env' := env1;
    if Eval(x, env) == FromBool(land) {
      env' := RightStored(y, s.vars, s2, p, env, env1);
      ReachesTrans(p, At(s, env), At(s2, env1), At(s3, env'));
    }
    StepReaches(p, At(s3, env'), At(s4, env'));
    ReachesTrans(p, At(s, env), At(s3, env'), At(s4, env'));
  }

  lemma EndFound(s: CState, l: nat, p: seq<Instr>)
    requires Inside(Emit(s, LabelI(l)), p)
    ensures Inside(s, p) && Find(p, l) == Some(|s.node|)
  {
    assert p[|s.node|] == LabelI(l);
    FindPlaced(p, |s.node|);
  }

  /** Storing y, whose variables are the first n. */
  lemma RightStored(y: Expr, n: nat, s: CState, p: seq<Instr>, env: Env, fenv: Env) returns (env': Env)
    requires Typed(y) && y.kind == Bool && VarsBelow(y, n) && Agree(n, env, fenv) && Eval(y, env).Val?
    requires Inside(Emit(s, Let(ASSIGN, Bool, n, y)), p)
    ensures Reaches(p, At(s, fenv), At(Emit(s, Let(ASSIGN, Bool, n, y)), env'))
    ensures Agree(n, env, env') && Eval(Var(Bool, n), env') == Eval(y, env)
  {
    BoolValues(y, env);
    EvalTyped(y, env);
    EvalAgree(y, n, env, fenv);
    LetSim(s, Bool, n, y, p, fenv);
    env' := fenv[n := Eval(y, fenv).num];
  }

  /** The test of the jump is right, and true where x decides. */
  lemma LeftDecides(land: bool, x: Expr, decider: Expr, test: Expr, env: Env, env': Env)
    requires Typed(x) && x.kind == Bool && (land ==> !SignedLess(x)) && (decider == x || decider.Var?)
    requires decider.kind == Bool && (decider == x ==> Compares(x) && !x.Const?)
    requires Eval(x, env).Val? && Eval(x, env') == Eval(x, env) && Eval(decider, env') == Eval(x, env)
    requires Eval(x, env) == FromBool(true) || Eval(x, env) == FromBool(false)
    requires test == if land then NewUnary(NOT1, decider) else decider
    ensures Typed(test) && TestOk(test) && Eval(test, env').Val?
    ensures Truth(Eval(test, env')) <==> Eval(x, env) == FromBool(!land)
  {
    CanonicalRange(Bool, 0);
    CanonicalRange(Bool, 1);
  }

  /** Storing x and jumping: to the end, with the result in place, when x decides. */
  lemma LeftSim(land: bool, x: Expr, s: CState, p: seq<Instr>, env: Env, end: nat) returns (env': Env)
    requires Typed(x) && x.kind == Bool && VarsBelow(x, s.vars) && (land ==> !SignedLess(x))
    requires !x.Const?
    requires Inside(StoreLeft(land, x, s), p) && Find(p, s.labels) == Some(end)
    requires Eval(x, env).Val?
    ensures Agree(s.vars, env, env')
    ensures Reaches(p, At(s, env),
      if Eval(x, env) == FromBool(!land) then Config(end, env') else At(StoreLeft(land, x, s), env'))
    ensures Eval(x, env) == FromBool(!land) ==> Eval(Var(Bool, s.vars), env') == Eval(x, env)
  {
    BoolValues(x, env);
    EvalTyped(x, env);
    var s0 := s.(vars := s.vars + 1, labels := s.labels + 1);
    var dst := Var(Bool, s.vars);
    var first := if Compares(x) then Const(Bool, if land then 0 else 1) else x;
    var decider := if Compares(x) then x else dst;
    var test := if land then NewUnary(NOT1, decider) else decider;
    var s1 := Emit(s0, Let(ASSIGN, Bool, s.vars, first));
    CanonicalRange(Bool, 0);
    CanonicalRange(Bool, 1);
    LetSim(s0, Bool, s.vars, first, p, env);
    env' := env[s.vars := Eval(first, env).num];
    EvalAgree(x, s.vars, env, env');
    LeftDecides(land, x, decider, test, env, env');
    EmitJumpSim(s1, s.labels, test, p, env', end);
    var dest := if Eval(x, env) == FromBool(!land) then Config(end, env') else At(StoreLeft(land, x, s), env');
    ReachesTrans(p, At(s, env), At(s1, env'), dest);
  }
}
