/** Programs outside the domain of the lowering theorems, on which the lowered code goes wrong. */
module LoweringLimits {
  import opened Bits
  import opened Values
  import opened Ir
  import opened Stmts
  import opened Flat
  import opened Lowering

  /** Three source variables. */
  const START: CState := CState([], [], [], [], 0, 3, 0)

  function Word(id: nat): Expr { Var(Uint8, id) }

  function Set(id: nat, n: int): Stmt { Assign(ASSIGN, Uint8, id, Const(Uint8, n)) }

  function SetI(id: nat, n: int): Instr { Let(ASSIGN, Uint8, id, Const(Uint8, n)) }

  lemma SmallWord(n: int)
    requires 0 <= n < 128
    ensures Wrap(Uint8, n) == n && Wrap(Int8, n) == n && Wrap(Bool, n % 2) == n % 2
    ensures Modulus(Uint8) == Modulus(Int8) == 256
  {
    assert Pow2(8) == 256 && Pow2(1) == 2;
  }

  lemma {:induction false} FindLast(p: seq<Instr>, i: nat, l: nat)
    requires i < |p| && p[i] == LabelI(l) && forall j :: i < j < |p| ==> p[j] != LabelI(l)
    ensures Find(p, l) == Some(i)
  {
    if i < |p| - 1 {
      FindLast(p[..|p| - 1], i, l);
    }
  }

  /** A machine that comes back to where it was never stops. */
  lemma {:induction false} CycleNeverStops(p: seq<Instr>, c: Config, k: nat, n: nat)
    requires k > 0 && Run(p, c, k) == Some(c)
    ensures Run(p, c, n).Some?
    decreases n
  {
    if n >= k {
      CycleNeverStops(p, c, k, n - k);
      RunConcat(p, c, c, k, n - k);
    } else if Run(p, c, n).None? {
      StoppedRun(p, c, n, k - n);
    }
  }

  lemma {:induction false} StoppedRun(p: seq<Instr>, c: Config, n: nat, m: nat)
    requires Run(p, c, n).None?
    ensures Run(p, c, n + m).None?
    decreases n
  {
    if Step(p, c).Some? {
      StoppedRun(p, Step(p, c).value, n - 1, m);
    }
  }

  /** if (v0 < v1) v2 = 1, on int8: negate_condjump() leaves JL as it is, so the branch is skipped
      exactly when it should be taken. */
  lemma SignedLessSkipsBranch()
    ensures var st := If(Binary(Bool, LSS, Var(Int8, 0), Var(Int8, 1)), Set(2, 1), NO_STMT);
      var env: Env := map[0 := 0, 1 := 1, 2 := 0];
      var p := CompileAdd(st, START).node;
      && Exec(st, env, 0) == Done(Normal, env[2 := 1])
      && Reaches(p, Config(0, env), Config(|p|, env))
  {
    var test := Binary(Bool, LSS, Var(Int8, 0), Var(Int8, 1));
    var st := If(test, Set(2, 1), NO_STMT);
    var env: Env := map[0 := 0, 1 := 1, 2 := 0];
    var p := [Jump(JL, 0, Var(Int8, 0), Var(Int8, 1)), SetI(2, 1), LabelI(0)];
    SignedLessCode(test);
    SignedLessExec(test, env);
    SignedLessRun(p, env);
  }

  lemma SignedLessExec(test: Expr, env: Env)
    requires test == Binary(Bool, LSS, Var(Int8, 0), Var(Int8, 1)) && Read(env, 0) == 0 && Read(env, 1) == 1
    ensures Exec(If(test, Set(2, 1), NO_STMT), env, 0) == Done(Normal, env[2 := 1])
  {
    SmallWord(0);
    SmallWord(1);
    assert Eval(test, env) == FromBool(true);
    assert Exec(Set(2, 1), env, 0) == Done(Normal, env[2 := 1]);
  }

  lemma SignedLessCode(test: Expr)
    requires test == Binary(Bool, LSS, Var(Int8, 0), Var(Int8, 1))
    ensures CompileAdd(If(test, Set(2, 1), NO_STMT), START).node
      == [Jump(JL, 0, Var(Int8, 0), Var(Int8, 1)), SetI(2, 1), LabelI(0)]
  {
    var st := If(test, Set(2, 1), NO_STMT);
    assert CompileExpr(test, START) == (test, START);
    IfBranches(st, START);
    BranchesOne(st, test, START);
    LessJump(test, START.(labels := 1));
  }

  lemma LessJump(test: Expr, s: CState)
    requires test == Binary(Bool, LSS, Var(Int8, 0), Var(Int8, 1))
    ensures EmitJump(s, 0, NewUnary(NOT1, test)) == Emit(s, Jump(JL, 0, Var(Int8, 0), Var(Int8, 1)))
  {
    assert StripNots(NewUnary(NOT1, test)) == (test, true);
  }

  lemma IfBranches(st: Stmt, s: CState)
    requires st.If? && CompileExpr(st.test, s) == (st.test, s) && !st.test.Const?
    ensures CompileAdd(st, s) == CompileBranches(st, st.test, s)
  {
    assert CompileStmt(st, s) == CompileIf(st, s);
  }

  lemma BranchesOne(st: Stmt, x: Expr, s: CState)
    requires st.If? && IsConstStmt(st.else_)
    ensures CompileBranches(st, x, s) == Emit(
      CompileAdd(st.then_, EmitJump(s.(labels := s.labels + 1), s.labels, NewUnary(NOT1, x))), LabelI(s.labels))
  {
  }

  lemma SignedLessRun(p: seq<Instr>, env: Env)
    requires p == [Jump(JL, 0, Var(Int8, 0), Var(Int8, 1)), SetI(2, 1), LabelI(0)]
    requires Read(env, 0) == 0 && Read(env, 1) == 1
    ensures Reaches(p, Config(0, env), Config(3, env))
  {
    SmallWord(0);
    SmallWord(1);
    FindLast(p, 2, 0);
    StepReaches(p, Config(0, env), Config(2, env));
    StepReaches(p, Config(2, env), Config(3, env));
    ReachesTrans(p, Config(0, env), Config(2, env), Config(3, env));
  }

  const IS_ZERO: Expr := Binary(Bool, EQL, Word(0), Const(Uint8, 0))

  /** for (; v0 == 0; v0 = 1) continue; */
  const CONTINUE_LOOP: Stmt := For(NO_STMT, IS_ZERO, Set(0, 1), Continue)

  const CONTINUE_CODE: seq<Instr> :=
    [Goto(1), LabelI(0), Goto(1), SetI(0, 1), LabelI(1), Jump(JE, 0, Word(0), Const(Uint8, 0)), LabelI(2)]

  /** `continue` goes behind `post`: a loop whose `post` ends it runs forever. */
  lemma ContinueSkipsPost(n: nat)
    ensures var env: Env := map[0 := 0];
      && CompileAdd(CONTINUE_LOOP, START).node == CONTINUE_CODE
      && Exec(CONTINUE_LOOP, env, 1) == Done(Normal, env[0 := 1])
      && Run(CONTINUE_CODE, Config(4, env), n).Some? && Step(CONTINUE_CODE, Config(0, env)) == Some(Config(4, env))
  {
    var p := CONTINUE_CODE;
    var env: Env := map[0 := 0];
    ContinueCode(CONTINUE_LOOP);
    ContinueRun(env);
    ContinueForever(p, env, n);
  }

  lemma ContinueForever(p: seq<Instr>, env: Env, n: nat)
    requires p == CONTINUE_CODE && Read(env, 0) == 0
    ensures Run(p, Config(4, env), n).Some? && Step(p, Config(0, env)) == Some(Config(4, env))
  {
    FindLast(p, 4, 1);
    FindLast(p, 1, 0);
    ContinueCycle(p, env);
    CycleNeverStops(p, Config(4, env), 4, n);
  }

  lemma ContinueCycle(p: seq<Instr>, env: Env)
    requires p == CONTINUE_CODE && Find(p, 1) == Some(4) && Find(p, 0) == Some(1) && Read(env, 0) == 0
    ensures Run(p, Config(4, env), 4) == Some(Config(4, env))
  {
    SmallWord(0);
    assert Step(p, Config(4, env)) == Some(Config(5, env));
    assert Step(p, Config(5, env)) == Some(Config(1, env));
    assert Step(p, Config(1, env)) == Some(Config(2, env));
    assert Step(p, Config(2, env)) == Some(Config(4, env));
    assert Run(p, Config(2, env), 1) == Some(Config(4, env));
    assert Run(p, Config(1, env), 2) == Some(Config(4, env));
    assert Run(p, Config(5, env), 3) == Some(Config(4, env));
  }

  lemma ForLoop(st: Stmt, s: CState)
    requires st.For? && !st.test.Const?
    ensures CompileAdd(st, s) == CompileFor(st, s) == CompileLoop(st, CompileAdd(st.init, s))
  {
    assert CompileAdd(st, s) == CompileStmt(st, s);
  }

  lemma ContinueBody(st: Stmt, s: CState)
    requires st.For? && st.body == Continue && st.post == Set(0, 1) && s.labels == 0
    ensures LoopBody(st, s).node == s.node + [Goto(1), LabelI(0), Goto(1), SetI(0, 1)]
  {
    var s0 := LoopEntry(s);
    assert s0.node == s.node + [Goto(1), LabelI(0)] && Top(s0.continues) == Some(1);
    var s1 := CompileAdd(st.body, s0);
    assert s1 == Emit(s0, Goto(1));
    assert CompileAdd(st.post, s1) == Emit(s1, SetI(0, 1));
  }

  lemma ContinueCode(st: Stmt)
    requires st.For? && st.init == NO_STMT && st.test == IS_ZERO && st.post == Set(0, 1) && st.body == Continue
    ensures CompileAdd(st, START).node == CONTINUE_CODE
  {
    ForLoop(st, START);
    assert CompileAdd(NO_STMT, START) == START;
    ContinueNodes(st, START);
  }

  lemma ContinueNodes(st: Stmt, s: CState)
    requires st.For? && st.test == IS_ZERO && st.body == Continue && st.post == Set(0, 1) && s.labels == 0
    ensures CompileLoop(st, s).node == s.node + [Goto(1), LabelI(0), Goto(1), SetI(0, 1), LabelI(1),
                                                 Jump(JE, 0, Word(0), Const(Uint8, 0)), LabelI(2)]
  {
    ContinueBody(st, s);
    var t := Emit(LoopBody(st, s), LabelI(1));
    ZeroTest(t);
    assert LoopTest(st, s) == Emit(t, Jump(JE, 0, Word(0), Const(Uint8, 0)));
  }

  lemma ZeroTest(s: CState)
    ensures CompileJumpIf(0, IS_ZERO, s) == Emit(s, Jump(JE, 0, Word(0), Const(Uint8, 0)))
  {
    assert CompileExpr(Word(0), s) == (Word(0), s);
    assert CompileExpr(Const(Uint8, 0), s) == (Const(Uint8, 0), s);
    assert CompileExpr(IS_ZERO, s) == (IS_ZERO, s);
    assert StripNots(IS_ZERO) == (IS_ZERO, false);
  }

  lemma ContinueRun(env: Env)
    requires env == map[0 := 0]
    ensures Exec(CONTINUE_LOOP, env, 1) == Done(Normal, env[0 := 1])
  {
    var st := CONTINUE_LOOP;
    SmallWord(0);
    SmallWord(1);
    var env1 := env[0 := 1];
    assert Eval(IS_ZERO, env) == FromBool(true);
    assert Eval(IS_ZERO, env1) == FromBool(false);
    assert Exec(NO_STMT, env, 1) == Done(Normal, env);
    assert Exec(Set(0, 1), env, 0) == Done(Normal, env1);
    assert Loop(st, env1, 0) == Done(Normal, env1);
    assert LoopPost(st, env, 1) == Done(Normal, env1);
  }

  /** A loop with a constant test lowers to `init` alone. That is what the loop does, for all its other parts
      and from every store, exactly when the constant is false. */
  lemma ConstantTestExact(k: Kind, n: int)
    ensures forall init, post, body, s :: CompileAdd(For(init, Const(k, n), post, body), s) == CompileAdd(init, s)
    ensures (forall init, post, body, env: Env, fuel: nat ::
               SameRun(For(init, Const(k, n), post, body), init, env, fuel)) <==> n == 0
  {
    forall init, post, body, s ensures CompileAdd(For(init, Const(k, n), post, body), s) == CompileAdd(init, s) {
      ConstantCode(For(init, Const(k, n), post, body), s);
    }
    if n == 0 {
      forall init, post, body, env: Env, fuel: nat ensures SameRun(For(init, Const(k, n), post, body), init, env, fuel) {
        FalseTest(For(init, Const(k, n), post, body), env, fuel);
      }
    } else {
      var env: Env := map[0 := 0];
      TrueTest(k, n);
      assert env[0] != 1 && Done(Normal, env) != Done(Normal, map[0 := 1]);
      assert !SameRun(For(NO_STMT, Const(k, n), NO_STMT, Block([Set(0, 1), Break])), NO_STMT, env, 1);
    }
  }

  ghost predicate SameRun(st: Stmt, r: Stmt, env: Env, fuel: nat) {
    Exec(st, env, fuel).Done? ==> Exec(st, env, fuel) == Exec(r, env, fuel)
  }

  lemma FalseTest(st: Stmt, env: Env, fuel: nat)
    requires st.For? && st.test.Const? && st.test.num == 0
    ensures Exec(st, env, fuel) == Exec(st.init, env, fuel)
  {
    var r := Exec(st.init, env, fuel);
    if r.Finished() {
      assert Loop(st, r.env, fuel) == Done(Normal, r.env);
    }
    assert Exec(st, env, fuel) == ExecFor(st, env, fuel);
  }

  lemma ConstantCode(st: Stmt, s: CState)
    requires st.For? && st.test.Const?
    ensures CompileAdd(st, s) == CompileAdd(st.init, s)
  {
    assert CompileAdd(st, s) == CompileStmt(st, s);
    assert CompileStmt(st, s) == CompileFor(st, s);
  }

  /** for (; true; ) { v0 = 1; break; } lowers to nothing, from every state, although it sets v0. */
  lemma TrueLoopIsDropped(s: CState)
    ensures var st := For(NO_STMT, Const(Bool, 1), NO_STMT, Block([Set(0, 1), Break]));
      CompileAdd(st, s) == CompileAdd(NO_STMT, s) && Exec(st, map[0 := 0], 1) == Done(Normal, map[0 := 1])
  {
    ConstantTestExact(Bool, 1);
    TrueTest(Bool, 1);
  }

  lemma TrueTest(k: Kind, n: int)
    requires n != 0
    ensures Exec(NO_STMT, map[0 := 0], 1) == Done(Normal, map[0 := 0])
    ensures Exec(For(NO_STMT, Const(k, n), NO_STMT, Block([Set(0, 1), Break])), map[0 := 0], 1)
      == Done(Normal, map[0 := 1])
  {
    var body := [Set(0, 1), Break];
    var st := For(NO_STMT, Const(k, n), NO_STMT, Block(body));
    var env: Env := map[0 := 0];
    SmallWord(1);
    assert Exec(NO_STMT, env, 1) == Done(Normal, env);
    SetThenBreak(env);
    assert Exec(st.body, env, 0) == Done(Breaks, env[0 := 1]);
    assert env[0 := 1] == map[0 := 1];
    LeftAtOnce(st, env, env[0 := 1]);
  }

  /** A loop whose body leaves it in its first turn. */
  lemma LeftAtOnce(st: Stmt, env: Env, env': Env)
    requires st.For? && Exec(st.init, env, 1) == Done(Normal, env)
    requires Eval(st.test, env).Val? && Truth(Eval(st.test, env)) && Exec(st.body, env, 0) == Done(Breaks, env')
    ensures Exec(st, env, 1) == Done(Normal, env')
  {
    assert Loop(st, env, 1) == Done(Normal, env');
  }

  lemma SetThenBreak(env: Env)
    ensures ExecBlock([Set(0, 1), Break], env, 0) == Done(Breaks, env[0 := 1])
  {
    var body := [Set(0, 1), Break];
    SmallWord(1);
    assert Exec(body[0], env, 0) == Done(Normal, env[0 := 1]);
    assert body[1..] == [Break];
    assert ExecBlock([Break], env[0 := 1], 0) == Done(Breaks, env[0 := 1]);
  }

  /** v0 != 0 && 1 / v0 + v1 == v2, on uint8: the quotient is computed in front of the test of v0, so
      the code divides by zero although the source gives false. */
  lemma HoistedDivisionFaults()
    ensures var sum := Tuple(Uint8, ADD, [Binary(Uint8, QUO, Const(Uint8, 1), Word(0)), Word(1)]);
      var e := Binary(Bool, LAND, Binary(Bool, NEQ, Word(0), Const(Uint8, 0)), Binary(Bool, EQL, sum, Word(2)));
      var env: Env := map[0 := 0];
      var p := CompileExpr(e, START).1.node;
      Eval(e, env) == FromBool(false) && p != [] && Step(p, Config(0, env)) == None
  {
    var quo := Binary(Uint8, QUO, Const(Uint8, 1), Word(0));
    var args := [quo, Word(1)];
    var x := Binary(Bool, NEQ, Word(0), Const(Uint8, 0));
    var y := Binary(Bool, EQL, Tuple(Uint8, ADD, args), Word(2));
    var e := Binary(Bool, LAND, x, y);
    var env: Env := map[0 := 0];
    HoistedFirst(quo, args, x, y, e);
    HoistedRun(CompileExpr(e, START).1.node, quo, x, y, e, env);
  }

  /** The source stops at the test of v0, the code at the quotient. */
  lemma HoistedRun(p: seq<Instr>, quo: Expr, x: Expr, y: Expr, e: Expr, env: Env)
    requires quo == Binary(Uint8, QUO, Const(Uint8, 1), Word(0)) && p != [] && p[0] == Let(ASSIGN, Uint8, 3, quo)
    requires x == Binary(Bool, NEQ, Word(0), Const(Uint8, 0)) && e == Binary(Bool, LAND, x, y) && env == map[0 := 0]
    ensures Eval(e, env) == FromBool(false) && Step(p, Config(0, env)) == None
  {
    SmallWord(0);
    assert Eval(x, env) == FromBool(false);
    assert Eval(quo, env).Invalid?;
  }

  /** The quotient is copied to a fresh variable by the first instruction. */
  lemma HoistedFirst(quo: Expr, args: seq<Expr>, x: Expr, y: Expr, e: Expr)
    requires quo == Binary(Uint8, QUO, Const(Uint8, 1), Word(0)) && |args| > 0 && args[0] == quo
    requires x == Binary(Bool, NEQ, Word(0), Const(Uint8, 0)) && y == Binary(Bool, EQL, Tuple(Uint8, ADD, args), Word(2))
    requires e == Binary(Bool, LAND, x, y)
    ensures var p := CompileExpr(e, START).1.node; p != [] && p[0] == Let(ASSIGN, Uint8, 3, quo)
  {
    assert CompileExpr(x, START) == (x, START);
    FirstArg(quo, args, START);
    assert ToVarConst(quo, START).1.node == [Let(ASSIGN, Uint8, 3, quo)];
    OperandExtends(y, START);
    SecondExtends(e, START);
  }

  lemma OperandExtends(y: Expr, s: CState)
    requires y.Binary? && y.x.Tuple? && y.op2 == EQL
    ensures CompileArgs(y.x.args, s).1.node <= CompileExpr(y, s).1.node
  {
    assert CompileExpr(y.x, s).1 == CompileArgs(y.x.args, s).1;
  }

  lemma SecondExtends(e: Expr, s: CState)
    requires e.Binary? && CompileExpr(e.x, s) == (e.x, s)
    ensures CompileExpr(e.y, s).1.node <= CompileExpr(e, s).1.node
  {
  }

  /** The cast to uint8 of a tuple of one int8: the tuple compiles to its operand, and the cast forgets its kind. */
  lemma CastForgetsKind(s: CState)
    ensures var e := Unary(Uint8, CAST, Tuple(Int8, ADD, [Var(Int8, 0)]));
      && CompileExpr(e, s) == (Unary(Int8, CAST, Var(Int8, 0)), s)
      && Eval(e, map[0 := -1]) == Val(Uint8, 255)
      && Eval(CompileExpr(e, s).0, map[0 := -1]) == Val(Int8, -1)
  {
    var args := [Var(Int8, 0)];
    var env: Env := map[0 := -1];
    assert args[1..] == [];
    assert CompileArgs([], s) == ([], s) && ToVarConst(args[0], s) == (args[0], s);
    assert CompileArgs(args, s) == ([args[0]] + [], s);
    assert CompileExpr(Tuple(Int8, ADD, args), s) == (Var(Int8, 0), s);
    MinusOneOf8();
    var v := Val(Int8, -1);
    assert EvalAll(args, env) == [v] && [v][1..] == [];
    assert FoldFrom(ADD, Val(Int8, 0), [v]) == FoldFrom(ADD, v, []);
  }

  lemma MinusOneOf8()
    ensures Wrap(Int8, -1) == -1 && Wrap(Uint8, -1) == 255
  {
    SmallWord(0);
  }

  lemma FirstArg(x: Expr, args: seq<Expr>, s: CState)
    requires |args| > 0 && args[0] == x && x.Binary? && x.op2 == QUO && IsLeaf(x.x) && IsLeaf(x.y)
    ensures ToVarConst(x, s).1.node <= CompileArgs(args, s).1.node
  {
    assert CompileExpr(x, s) == (x, s);
  }

  /** if (v0 == v1 && v2) v0 = 1: && with a variable on the right is left alone, and compile(JumpIf)
      finds no jump for it. */
  lemma VariableOperandHasNoJump()
    ensures var test := Binary(Bool, LAND, Binary(Bool, EQL, Word(0), Word(1)), Var(Bool, 2));
      var p := CompileAdd(If(test, Set(0, 1), NO_STMT), START).node;
      forall env :: p != [] && Step(p, Config(0, env)) == None
  {
    var x := Binary(Bool, EQL, Word(0), Word(1));
    var test := Binary(Bool, LAND, x, Var(Bool, 2));
    var st := If(test, Set(0, 1), NO_STMT);
    assert CompileExpr(x, START) == (x, START);
    assert CompileExpr(test, START) == (test, START);
    assert StripNots(NewUnary(NOT1, test)) == (test, true);
    assert CompileAdd(st, START).node == [Jump(BAD_ST3, 0, x, Var(Bool, 2)), SetI(0, 1), LabelI(0)];
  }
}
