/** Programs that lower well as they are, and that the optimizer takes out of the domain of the lowering
    theorems. */
module OptimizerLimits {
  import opened Values
  import opened Ir
  import opened Imm
  import opened Stmts
  import opened Nodes
  import opened Optimizing
  import opened OptimizerStmts
  import opened OptimizerDomain
  import opened Lowering
  import opened LoweringDomain
  import opened LoweringFunc
  import opened LoweringLimits

  const ALL: Opts := Opts(true, true, true)

  /** if (!(v0 >= v1)) v2 = 1, on int8, lowers well; the optimizer makes it if (v0 < v1) v2 = 1, the program of
      SignedLessSkipsBranch, whose branch is skipped exactly when it should be taken. */
  lemma SignedTestFlips()
    ensures var test := Unary(Bool, NOT1, Binary(Bool, GEQ, Var(Int8, 0), Var(Int8, 1)));
      var st := If(test, Set(2, 1), NO_STMT);
      && Lowerable(st, TOP_SCOPE, 3) && Tame(st, TOP_SCOPE) && !TestsSafe(ALL, st)
      && OptimizeStmt(ALL, st) == If(Binary(Bool, LSS, Var(Int8, 0), Var(Int8, 1)), Set(2, 1), NO_STMT)
      && !Lowerable(OptimizeStmt(ALL, st), TOP_SCOPE, 3)
  {
    var x := Binary(Bool, GEQ, Var(Int8, 0), Var(Int8, 1));
    var st := If(Unary(Bool, NOT1, x), Set(2, 1), NO_STMT);
    NotLessLowers(x);
    NotLessFlips(x);
    LessMisjumps(OptimizeStmt(ALL, st).test);
  }

  lemma SetLowers(id: nat, n: nat, sc: Scope)
    requires id < n
    ensures Lowerable(Set(id, 1), sc, n) && Lowerable(NO_STMT, sc, n) && Tame(Set(id, 1), sc) && Tame(NO_STMT, sc)
  {
    SmallWord(1);
    CanonicalRange(Void, 0);
  }

  lemma NotLessLowers(x: Expr)
    requires x == Binary(Bool, GEQ, Var(Int8, 0), Var(Int8, 1))
    ensures var st := If(Unary(Bool, NOT1, x), Set(2, 1), NO_STMT); Lowerable(st, TOP_SCOPE, 3) && Tame(st, TOP_SCOPE)
  {
    SetLowers(2, 3, TOP_SCOPE);
    NotLessTest(x);
  }

  lemma NotLessTest(x: Expr)
    requires x == Binary(Bool, GEQ, Var(Int8, 0), Var(Int8, 1))
    ensures var t := Unary(Bool, NOT1, x); IfOk(t) && VarsBelow(t, 3) && TameTest(t)
  {
    var t := Unary(Bool, NOT1, x);
    assert Skeleton(x) == Binary(Bool, GEQ, Var(Int8, 0), Var(Int8, 0));
    assert StripNots(NewUnary(NOT1, Skeleton(t))) == (Skeleton(x), false);
    assert GoodExpr(x);
    assert BoolTest(x) && Steady(x, false, false);
  }

  lemma NotLessFlips(x: Expr)
    requires x == Binary(Bool, GEQ, Var(Int8, 0), Var(Int8, 1))
    ensures OptimizeStmt(ALL, If(Unary(Bool, NOT1, x), Set(2, 1), NO_STMT))
      == If(Binary(Bool, LSS, Var(Int8, 0), Var(Int8, 1)), Set(2, 1), NO_STMT)
  {
    NotLess(x);
    SetStays();
  }

  lemma SetStays()
    ensures OptimizeStmt(ALL, Set(2, 1)) == Set(2, 1) && OptimizeStmt(ALL, NO_STMT) == NO_STMT
  {
  }

  lemma NotLess(x: Expr)
    requires x == Binary(Bool, GEQ, Var(Int8, 0), Var(Int8, 1))
    ensures Optimize(ALL, Unary(Bool, NOT1, x)) == Binary(Bool, LSS, Var(Int8, 0), Var(Int8, 1))
  {
    DifferentVars(GEQ);
  }

  lemma LessMisjumps(less: Expr)
    requires less == Binary(Bool, LSS, Var(Int8, 0), Var(Int8, 1))
    ensures LessUnder(less, false) && !Lowerable(If(less, Set(2, 1), NO_STMT), TOP_SCOPE, 3)
  {
    assert Skeleton(less) == Binary(Bool, LSS, Var(Int8, 0), Var(Int8, 0));
    assert StripNots(NewUnary(NOT1, Skeleton(less))) == (Skeleton(less), true);
    assert !IfOk(less);
  }

  lemma DifferentVars(op: Op2)
    requires IsComparison(op)
    ensures Optimize(ALL, Binary(Bool, op, Var(Int8, 0), Var(Int8, 1))) == Binary(Bool, op, Var(Int8, 0), Var(Int8, 1))
  {
    var (x, y) := (Var(Int8, 0), Var(Int8, 1));
    LocalExact(Int8, 0);
    LocalExact(Int8, 1);
    LeavesEqualExact(x, y, true);
    assert TypeCode(x) == TypeCode(y);
    assert TryBinary(ALL, op, x, y) == Rewrite(ALL, op, x, y) == None;
  }

  /** for (; v0 == v0; ) { v0 = 1; break; } lowers well; the optimizer folds its test to true, and then lowering
      drops the loop. */
  lemma LoopTestFolds()
    ensures var test := Binary(Bool, EQL, Word(0), Word(0));
      var st := For(NO_STMT, test, NO_STMT, Block([Set(0, 1), Break]));
      && Lowerable(st, TOP_SCOPE, 1) && Tame(st, TOP_SCOPE) && !TestsSafe(ALL, st)
      && Optimize(ALL, test) == Const(Bool, 1) && !Lowerable(OptimizeStmt(ALL, st), TOP_SCOPE, 1)
      && forall s :: CompileAdd(OptimizeStmt(ALL, st), s) == CompileAdd(NO_STMT, s)
  {
    var test := Binary(Bool, EQL, Word(0), Word(0));
    var st := For(NO_STMT, test, NO_STMT, Block([Set(0, 1), Break]));
    SelfTestFolds(test);
    LoopLowers(test);
    assert OptimizeStmt(ALL, NO_STMT) == NO_STMT;
    ConstantTestExact(Bool, 1);
  }

  lemma SelfTestFolds(test: Expr)
    requires test == Binary(Bool, EQL, Word(0), Word(0))
    ensures Optimize(ALL, test) == Const(Bool, 1)
  {
    LocalExact(Uint8, 0);
    LeavesEqualExact(Word(0), Word(0), true);
    assert TryBinary(ALL, EQL, Word(0), Word(0)) == Rewrite(ALL, EQL, Word(0), Word(0)) == Some(BoolConst(true));
  }

  lemma LoopLowers(test: Expr)
    requires test == Binary(Bool, EQL, Word(0), Word(0))
    ensures var st := For(NO_STMT, test, NO_STMT, Block([Set(0, 1), Break]));
      Lowerable(st, TOP_SCOPE, 1) && Tame(st, TOP_SCOPE)
  {
    BodyLowers([Set(0, 1), Break], LoopScope(TOP_SCOPE));
    LoopTest(test, Block([Set(0, 1), Break]));
    LoopOfParts(test, Block([Set(0, 1), Break]), TOP_SCOPE, 1);
  }

  lemma LoopOfParts(test: Expr, body: Stmt, sc: Scope, n: nat)
    requires ForOk(test, NO_STMT, body) && VarsBelow(test, n) && TameTest(test)
    requires Lowerable(body, LoopScope(sc), n) && Tame(body, LoopScope(sc))
    ensures Lowerable(For(NO_STMT, test, NO_STMT, body), sc, n) && Tame(For(NO_STMT, test, NO_STMT, body), sc)
  {
  }

  lemma BodyLowers(body: seq<Stmt>, sc: Scope)
    requires body == [Set(0, 1), Break] && sc.breaks
    ensures Lowerable(Block(body), sc, 1) && Tame(Block(body), sc)
  {
    SetLowers(0, 1, sc);
    assert body[1..] == [Break] && [Break][1..] == [];
    assert AllLowerable([Break], sc, 1) && AllTame([Break], sc);
  }

  lemma LoopTest(test: Expr, body: Stmt)
    requires test == Binary(Bool, EQL, Word(0), Word(0))
    ensures ForOk(test, NO_STMT, body) && VarsBelow(test, 1) && TameTest(test)
  {
    assert Skeleton(test) == Binary(Bool, EQL, Word(0), Word(0));
    assert StripNots(Skeleton(test)) == (Skeleton(test), false);
  }
}
