/** The code of an expression runs to its end exactly where everything that it computes has a value. Code for
    the right operand of && and || stands in front of the test of the left one, so an operation in it fails
    also where the source would skip it. */
module LoweringStops {
  import opened Values
  import opened Ir
  import opened Stmts
  import opened Flat
  import opened Lowering
  import opened LoweringDomain
  import opened LoweringExprs

  /** From `start` the machine comes to a place between lo and hi where it cannot go on. */
  ghost predicate StopsAt(p: seq<Instr>, start: Config, c: Config, lo: nat, hi: nat) {
    Reaches(p, start, c) && lo <= c.pc < hi && Step(p, c) == None
  }

  lemma StopsLater(p: seq<Instr>, start: Config, mid: Config, c: Config, lo: nat, hi: nat, low: nat, high: nat)
    requires Reaches(p, start, mid) && StopsAt(p, mid, c, lo, hi) && low <= lo && hi <= high
    ensures StopsAt(p, start, c, low, high)
  {
    ReachesTrans(p, start, mid, c);
  }

  /** An instruction that cannot be executed. */
  lemma StopsHere(s: CState, t: CState, p: seq<Instr>, env: Env)
    requires |s.node| < |t.node| && Step(p, At(s, env)) == None
    ensures StopsAt(p, At(s, env), At(s, env), |s.node|, |t.node|)
  {
    ReachesSelf(p, At(s, env));
  }

  lemma {:induction false} ExprStops(e: Expr, s: CState, p: seq<Instr>, env: Env) returns (c: Config)
    requires Typed(e) && Shaped(e) && VarsBelow(e, s.vars) && Inside(CompileExpr(e, s).1, p)
    requires !Runs(e, env)
    ensures StopsAt(p, At(s, env), c, |s.node|, |CompileExpr(e, s).1.node|)
    decreases e, 1
  {
    match e
    case Unary(_, _, x) => c := ExprStops(x, s, p, env);
    case Binary(_, op, x, y) =>
      if Runs(x, env) && Runs(y, env) {
        c := BooleanStops(e, s, p, env);
      } else {
        c := OperandStops(e, s, p, env);
      }
    case Tuple(k, _, args) => c := ArgsStop(args, k, s, p, env);
  }

  lemma {:induction false} OperandStops(e: Expr, s: CState, p: seq<Instr>, env: Env) returns (c: Config)
    requires e.Binary? && Typed(e) && Shaped(e) && VarsBelow(e, s.vars) && Inside(CompileExpr(e, s).1, p)
    requires !Runs(e.x, env) || !Runs(e.y, env)
    ensures StopsAt(p, At(s, env), c, |s.node|, |CompileExpr(e, s).1.node|)
    decreases e, 0
  {
    var cx := CompileExpr(e.x, s);
    var cy := CompileExpr(e.y, cx.1);
    BinaryExtends(e, s);
    if !Runs(e.x, env) {
      c := ExprStops(e.x, s, p, env);
    } else {
      var env1 := ExprSim(e.x, s, p, env);
      RunsAgree(e.y, s.vars, env, env1);
      VarsBelowMore(e.y, s.vars, cx.1.vars);
      c := ExprStops(e.y, cx.1, p, env1);
      StopsLater(p, At(s, env), At(cx.1, env1), c, |cx.1.node|, |cy.1.node|, |s.node|, |CompileExpr(e, s).1.node|);
    }
  }

  /** The code of the operands comes first. */
  lemma BinaryExtends(e: Expr, s: CState)
    requires e.Binary?
    ensures var cx := CompileExpr(e.x, s); var cy := CompileExpr(e.y, cx.1);
      Extends(s, cx.1) && Extends(cx.1, cy.1) && cy.1.node <= CompileExpr(e, s).1.node
  {
  }

  lemma BooleanStops(e: Expr, s: CState, p: seq<Instr>, env: Env) returns (c: Config)
    requires e.Binary? && Typed(e) && Shaped(e) && VarsBelow(e, s.vars) && Inside(CompileExpr(e, s).1, p)
    requires Runs(e.x, env) && Runs(e.y, env) && !Runs(e, env)
    ensures StopsAt(p, At(s, env), c, |s.node|, |CompileExpr(e, s).1.node|)
  {
    var cx := CompileExpr(e.x, s);
    var cy := CompileExpr(e.y, cx.1);
    var land := e.op2 == LAND;
    BinaryExtends(e, s);
    BooleanCode(e, s);
    var env2 := OperandsSim(e, s, p, env);
    CompiledShape(e.x, s);
    CompiledShape(e.y, cx.1);
    c := SimplifyStops(land, cx.0, cy.0, Binary(Bool, e.op2, cx.0, cy.0), cy.1, p, env2);
    StopsLater(p, At(s, env), At(cy.1, env2), c, |cy.1.node|, |CompileExpr(e, s).1.node|, |s.node|,
               |CompileExpr(e, s).1.node|);
  }

  /** Discarding a left operand without a value, or storing and testing one, or storing a right one. */
  lemma SimplifyStops(land: bool, x: Expr, y: Expr, same: Expr, s: CState, p: seq<Instr>, env: Env)
    returns (c: Config)
    requires Typed(x) && Typed(y) && x.kind == Bool && y.kind == Bool
    requires VarsBelow(x, s.vars) && VarsBelow(y, s.vars) && (land ==> LandOk(Erase(x), Erase(y)))
    requires Inside(SimplifyBoolean(land, x, y, same, s).1, p)
    requires !BooleanRuns(land, Erase(x), Erase(y), Eval(x, env), Eval(y, env))
    ensures StopsAt(p, At(s, env), c, |s.node|, |SimplifyBoolean(land, x, y, same, s).1.node|)
  {
    c := At(s, env);
    if y.Const? {
      StopsHere(s, EmitExpr(s, x), p, env);
    } else {
      assert SimplifyBoolean(land, x, y, same, s) == StoreBoolean(land, x, y, s);
      if Eval(x, env).Invalid? {
        c := LeftStops(land, x, y, s, p, env);
      } else {
        if land {
          LandErased(x, y);
        }
        c := RightStops(land, x, y, s, p, env);
      }
    }
  }

  lemma LeftStops(land: bool, x: Expr, y: Expr, s: CState, p: seq<Instr>, env: Env) returns (c: Config)
    requires Typed(x) && x.kind == Bool && VarsBelow(x, s.vars) && !x.Const? && Eval(x, env).Invalid?
    requires Inside(StoreBoolean(land, x, y, s).1, p)
    ensures StopsAt(p, At(s, env), c, |s.node|, |StoreBoolean(land, x, y, s).1.node|)
  {
    var s0 := s.(vars := s.vars + 1, labels := s.labels + 1);
    var t := StoreBoolean(land, x, y, s).1;
    var first := if Compares(x) then Const(Bool, if land then 0 else 1) else x;
    var s1 := Emit(s0, Let(ASSIGN, Bool, s.vars, first));
    assert s1.node <= StoreLeft(land, x, s).node <= t.node;
    if Compares(x) {
      CanonicalRange(Bool, 0);
      CanonicalRange(Bool, 1);
      LetSim(s0, Bool, s.vars, first, p, env);
      var env1 := env[s.vars := first.num];
      EvalAgree(x, s.vars, env, env1);
      c := At(s1, env1);
      TestStops(s1, s.labels, if land then NewUnary(NOT1, x) else x, x, p, env1);
      StopsHere(s1, StoreLeft(land, x, s), p, env1);
      StopsLater(p, At(s, env), c, c, |s1.node|, |StoreLeft(land, x, s).node|, |s.node|, |t.node|);
    } else {
      c := At(s, env);
      StopsHere(s, t, p, env);
    }
  }

  /** The jump on a comparison without a value cannot be executed. */
  lemma TestStops(s: CState, target: nat, test: Expr, x: Expr, p: seq<Instr>, env: Env)
    requires Compares(x) && Typed(x) && Eval(x, env).Invalid? && (test == x || test == NewUnary(NOT1, x))
    requires Inside(EmitJump(s, target, test), p)
    ensures Step(p, At(s, env)) == None && |s.node| < |EmitJump(s, target, test).node|
  {
    assert StripNots(test).0 == x;
    EvalTyped(x.x, env);
    EvalTyped(x.y, env);
    assert EvalBinaryOp(x.op2, Eval(x.x, env), Eval(x.y, env)).Invalid?;
    assert Eval(x.x, env).Invalid? || Eval(x.y, env).Invalid?;
  }

  lemma RightStops(land: bool, x: Expr, y: Expr, s: CState, p: seq<Instr>, env: Env) returns (c: Config)
    requires Typed(x) && x.kind == Bool && VarsBelow(x, s.vars) && VarsBelow(y, s.vars)
    requires !x.Const? && (land ==> !SignedLess(x))
    requires Inside(StoreBoolean(land, x, y, s).1, p)
    requires Eval(x, env) == FromBool(land) && Eval(y, env).Invalid?
    ensures StopsAt(p, At(s, env), c, |s.node|, |StoreBoolean(land, x, y, s).1.node|)
  {
    var s2 := StoreLeft(land, x, s);
    var s3 := Emit(s2, Let(ASSIGN, Bool, s.vars, y));
    var t := StoreBoolean(land, x, y, s).1;
    assert p[|s3.node|] == LabelI(s.labels);
    FindPlaced(p, |s3.node|);
    var env1 := LeftSim(land, x, s, p, env, |s3.node|);
    EvalAgree(y, s.vars, env, env1);
    c := At(s2, env1);
    StopsHere(s2, t, p, env1);
    StopsLater(p, At(s, env), c, c, |s2.node|, |t.node|, |s.node|, |t.node|);
  }

  lemma {:induction false} ArgsStop(es: seq<Expr>, k: Kind, s: CState, p: seq<Instr>, env: Env) returns (c: Config)
    requires AllTyped(es, k) && AllShaped(es) && AllBelow(es, s.vars) && Inside(CompileArgs(es, s).1, p)
    requires !AllRun(es, env)
    ensures StopsAt(p, At(s, env), c, |s.node|, |CompileArgs(es, s).1.node|)
    decreases es, 0
  {
    var cx := CompileExpr(es[0], s);
    var leaf := ToVarConst(cx.0, cx.1);
    var rest := CompileArgs(es[1..], leaf.1);
    assert CompileArgs(es, s).1 == rest.1 && leaf.1.node <= rest.1.node;
    if !Runs(es[0], env) {
      c := ExprStops(es[0], s, p, env);
    } else if !IsLeaf(Skeleton(es[0])) && Eval(es[0], env).Invalid? {
      c := ArgStops(es[0], s, p, env);
    } else {
      var env2 := ArgSim(es[0], s, p, env);
      AllBelowMore(es[1..], s.vars, leaf.1.vars);
      AllRunAgree(es[1..], s.vars, env, env2);
      c := ArgsStop(es[1..], k, leaf.1, p, env2);
      StopsLater(p, At(s, env), At(leaf.1, env2), c, |leaf.1.node|, |rest.1.node|, |s.node|, |rest.1.node|);
    }
  }

  lemma CopyStops(x: Expr, s: CState, p: seq<Instr>, env: Env)
    requires !IsLeaf(x) && Eval(x, env).Invalid? && Inside(ToVarConst(x, s).1, p)
    ensures |s.node| < |ToVarConst(x, s).1.node| && Step(p, At(s, env)) == None
  {
    assert p[|s.node|] == Let(ASSIGN, x.kind, s.vars, x);
  }

  /** An argument that is copied to a variable, and has no value. */
  lemma ArgStops(e: Expr, s: CState, p: seq<Instr>, env: Env) returns (c: Config)
    requires Typed(e) && Shaped(e) && VarsBelow(e, s.vars) && Runs(e, env)
    requires !IsLeaf(Skeleton(e)) && Eval(e, env).Invalid?
    requires var x := CompileExpr(e, s); Inside(ToVarConst(x.0, x.1).1, p)
    ensures var x := CompileExpr(e, s); StopsAt(p, At(s, env), c, |s.node|, |ToVarConst(x.0, x.1).1.node|)
  {
    var x := CompileExpr(e, s);
    var t := ToVarConst(x.0, x.1).1;
    CompiledShape(e, s);
    var env1 := ExprSim(e, s, p, env);
    c := At(x.1, env1);
    CopyStops(x.0, x.1, p, env1);
    StopsHere(x.1, t, p, env1);
    StopsLater(p, At(s, env), c, c, |x.1.node|, |t.node|, |s.node|, |t.node|);
  }

  // ---------------------------------------------------------------- exactly where the code runs

  /** A machine stops at one place at most. */
  lemma {:induction false} OneEnd(p: seq<Instr>, a: Config, n: nat, c: Config, m: nat, d: Config)
    requires Run(p, a, n) == Some(c) && Run(p, a, m) == Some(d) && Step(p, c) == None && Step(p, d) == None
    ensures c == d
    decreases n
  {
    if n > 0 && m > 0 {
      OneEnd(p, Step(p, a).value, n - 1, c, m - 1, d);
    }
  }

  /** The code of an expression, run on its own, comes to its end exactly where Runs() holds. */
  lemma RunsExact(e: Expr, s: CState, env: Env)
    requires Typed(e) && Shaped(e) && VarsBelow(e, s.vars) && UniqueLabels(CompileExpr(e, s).1.node)
    ensures var t := CompileExpr(e, s).1;
      (exists env' :: Reaches(t.node, At(s, env), At(t, env'))) <==> Runs(e, env)
  {
    var t := CompileExpr(e, s).1;
    if Runs(e, env) {
      var env' := ExprSim(e, s, t.node, env);
    } else if exists env' :: Reaches(t.node, At(s, env), At(t, env')) {
      var env' :| Reaches(t.node, At(s, env), At(t, env'));
      var c := ExprStops(e, s, t.node, env);
      var n: nat :| Run(t.node, At(s, env), n) == Some(c);
      var m: nat :| Run(t.node, At(s, env), m) == Some(At(t, env'));
      OneEnd(t.node, At(s, env), n, c, m, At(t, env'));
    }
  }

  /** Where the left operand of && or || decides, the source skips the right one; its code comes to the end all
      the same exactly where the code of both operands runs. Code that never fails is enough for that. */
  lemma SkippedOperandExact(e: Expr, env: Env)
    requires Typed(e) && e.Binary? && (e.op2 == LAND || e.op2 == LOR) && Eval(e.x, env) == FromBool(e.op2 == LOR)
    ensures Eval(e, env) == Eval(e.x, env)
    ensures Runs(e, env) <==> Runs(e.x, env) && Runs(e.y, env)
    ensures Quiet(e.y) && (Emits(e.y) ==> NeverFaults(e.y)) ==> Runs(e.y, env)
  {
    if Quiet(e.y) && Emits(e.y) && NeverFaults(e.y) {
      NeverFaultsEval(e.y, env);
      QuietRuns(e.y, env);
    } else if !Emits(e.y) {
      SilentRuns(e.y, env);
    }
  }
}
