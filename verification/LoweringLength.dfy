/** How many instructions lowering emits for each statement, as a function of the source alone, and what these look like:
    nothing is left out, nothing is emitted twice, and no test is left that is decided when compiling. */
module LoweringLength {
  import opened Values
  import opened Ir
  import opened Stmts
  import opened Flat
  import opened Lowering
  import opened LoweringAgain
  import opened LoweringDomain
  import opened LoweringErrors
  import opened LoweringFunc
  import opened LoweringLabels

  // ---------------------------------------------------------------- forms

  /** What decides about the code for an expression: constants, variables, negations and operators. */
  datatype Form = Fixed(c: Expr) | Variable | Not(x: Form) | Op(op: Op2, x: Form, y: Form) | Other

  function FormOf(e: Expr): Form {
    match e
    case Var(_, _) => Variable
    case Const(_, _) => Fixed(e)
    case Unary(_, op, x) => if op == NOT1 then Not(FormOf(x)) else Other
    case Binary(_, op, x, y) => Op(op, FormOf(x), FormOf(y))
    case Tuple(_, _, _) => Other
  }

  predicate IsFalse(f: Form) { f.Fixed? && f.c.Const? && f.c.num == 0 }

  predicate IsTrue(f: Form) { f.Fixed? && f.c.Const? && f.c.num != 0 }

  /** The form of a compiled expression. A constant operand of && and || decides, or leaves the other operand; otherwise the
      result is stored in a variable, unless the right operand is one. */
  function CompiledForm(e: Expr): Form {
    match e
    case Var(_, _) => Variable
    case Const(_, _) => Fixed(e)
    case Unary(_, op, x) => if op == NOT1 then Not(CompiledForm(x)) else Other
    case Binary(_, op, x, y) =>
      if op == LAND || op == LOR then BooleanForm(op, CompiledForm(x), CompiledForm(y))
      else Op(op, CompiledForm(x), CompiledForm(y))
    case Tuple(k, op, args) =>
      if |args| == 0 then Fixed(Const(k, IdentityN(k, op).num))
      else if |args| == 1 then (if CompiledForm(args[0]).Fixed? then CompiledForm(args[0]) else Variable)
      else Other
  }

  function BooleanForm(op: Op2, x: Form, y: Form): Form {
    if x.Fixed? then (if IsTrue(x) == (op == LAND) then y else x)
    else if y.Fixed? then (if IsTrue(y) == (op == LAND) then x else y)
    else if y.Variable? then Op(op, x, y)
    else Variable
  }

  lemma {:induction false} FormExact(e: Expr, s: CState)
    ensures FormOf(CompileExpr(e, s).0) == CompiledForm(e)
    decreases e
  {
    match e
    case Var(_, _) =>
    case Const(_, _) =>
    case Unary(_, _, x) => FormExact(x, s);
    case Binary(_, op, x, y) =>
      var (cx, s1) := CompileExpr(x, s);
      var (cy, s2) := CompileExpr(y, s1);
      FormExact(x, s);
      FormExact(y, s1);
      BooleanFormExact(op, cx, cy, if cx != x || cy != y then NewBinary(op, cx, cy) else e, s2);
    case Tuple(_, _, args) =>
      if |args| == 1 {
        FormExact(args[0], s);
        OnlyArg(args, s);
      }
  }

  lemma BooleanFormExact(op: Op2, x: Expr, y: Expr, same: Expr, s: CState)
    requires same.Binary? && same.op2 == op && same.x == x && same.y == y
    ensures op == LAND || op == LOR ==>
      FormOf(SimplifyBoolean(op == LAND, x, y, same, s).0) == BooleanForm(op, FormOf(x), FormOf(y))
  {
  }

  // ---------------------------------------------------------------- jumps

  /** A test without its leading negations, and whether their number is odd. */
  function Stripped(f: Form): (Form, bool) {
    match f
    case Not(x) => var (t, negate) := Stripped(x); (t, !negate)
    case _ => (f, false)
  }

  /** What a comparison of constants, or a constant test, gives when compiling. */
  function Verdict(f: Form): Value {
    match f
    case Fixed(c) => if c.Const? then FromBool(c.num != 0) else Invalid
    case Op(op, x, y) =>
      if x.Fixed? && y.Fixed? && x.c.Const? && y.c.Const? then EvalBinaryOp(op, ConstValue(x.c), ConstValue(y.c))
      else Invalid
    case _ => Invalid
  }

  /** A jump on a test that is never true when it is decided is left out. */
  function JumpSteps(f: Form): nat {
    var (t, negate) := Stripped(f);
    if Verdict(t).Val? && Truth(Verdict(t)) == negate then 0 else 1
  }

  lemma {:induction false} StrippedExact(test: Expr)
    ensures var (t, negate) := StripNots(test); Stripped(FormOf(test)) == (FormOf(t), negate)
  {
    if test.Unary? && test.op1 == NOT1 {
      StrippedExact(test.x);
    }
  }

  lemma VerdictExact(t: Expr)
    ensures var (x, op, y) := Comparands(t); ConstVerdict(x, op, y) == Verdict(FormOf(t))
  {
  }

  // ---------------------------------------------------------------- the code that is added

  /** Compiled expressions only, and no comparison of two constants that can be decided. */
  predicate Tidy(i: Instr) {
    match i
    case Let(_, _, _, src) => Compiled(src)
    case Pure(e) => Compiled(e) && e != VOID_CONST
    case Jump(op, _, x, y) => Compiled(x) && Compiled(y) && !(x.Const? && y.Const? && x.kind == y.kind && op != BAD_ST3)
    case _ => true
  }

  /** t has n more instructions than s, all tidy. */
  ghost predicate Grown(s: CState, t: CState, n: nat) {
    && s.node <= t.node && |t.node| == |s.node| + n
    && forall i :: |s.node| <= i < |t.node| ==> Tidy(t.node[i])
  }

  lemma GrownThen(s: CState, m: CState, t: CState, a: nat, b: nat)
    requires Grown(s, m, a) && Grown(m, t, b)
    ensures Grown(s, t, a + b)
  {
    forall i | |s.node| <= i < |t.node| ensures Tidy(t.node[i]) {
      if i < |m.node| {
        assert t.node[i] == m.node[i];
      }
    }
  }

  lemma GrownEmit(s: CState, i: Instr)
    requires Tidy(i)
    ensures Grown(s, Emit(s, i), 1)
  {
  }

  lemma GrownSame(s: CState, t: CState)
    requires s.node == t.node
    ensures Grown(s, t, 0)
  {
  }

  // ---------------------------------------------------------------- jumps

  lemma {:induction false} StrippedCompiled(test: Expr)
    requires Compiled(test)
    ensures var (x, op, y) := Comparands(StripNots(test).0); Compiled(x) && Compiled(y)
  {
    if test.Unary? && test.op1 == NOT1 {
      StrippedCompiled(test.x);
    }
  }

  lemma JumpTidy(target: nat, x: Expr, op: Op2, y: Expr, negate: bool)
    requires Compiled(x) && Compiled(y) && ConstVerdict(x, op, y).Invalid?
    ensures Tidy(Jump(JumpOp(op, x.kind, negate), target, x, y))
  {
  }

  lemma JumpGrows(s: CState, target: nat, test: Expr)
    requires Compiled(test)
    ensures Grown(s, EmitJump(s, target, test), JumpSteps(FormOf(test)))
  {
    var (stripped, negate) := StripNots(test);
    var (x, op, y) := Comparands(stripped);
    StrippedExact(test);
    VerdictExact(stripped);
    StrippedCompiled(test);
    if ConstVerdict(x, op, y).Val? {
      GrownEmit(s, Goto(target));
    } else {
      JumpTidy(target, x, op, y, negate);
      GrownEmit(s, Jump(JumpOp(op, x.kind, negate), target, x, y));
    }
  }

  // ---------------------------------------------------------------- expressions

  predicate IsComparisonForm(f: Form) { f.Op? && f.op in {LSS, LEQ, NEQ, EQL, GTR, GEQ} }

  /** Storing && or ||: two assignments, the label behind them, and the jump over the second one. */
  function StoredSteps(op: Op2, x: Form): nat {
    var decider := if IsComparisonForm(x) then x else Variable;
    3 + JumpSteps(if op == LAND then Not(decider) else decider)
  }

  /** What && and || add to the code of their operands: a left operand that is not needed is still computed. */
  function BooleanSteps(op: Op2, x: Form, y: Form): nat {
    if x.Fixed? || y.Variable? then 0
    else if y.Fixed? then (if IsTrue(y) == (op == LAND) then 0 else 1)
    else StoredSteps(op, x)
  }

  /** The instructions of an expression. */
  function Steps(e: Expr): nat
    decreases e, 1
  {
    match e
    case Var(_, _) => 0
    case Const(_, _) => 0
    case Unary(_, _, x) => Steps(x)
    case Binary(_, op, x, y) =>
      Steps(x) + Steps(y) + if op == LAND || op == LOR then BooleanSteps(op, CompiledForm(x), CompiledForm(y)) else 0
    case Tuple(_, _, args) => ArgsSteps(args)
  }

  /** Each argument that is neither variable nor constant is copied to a variable. */
  function ArgsSteps(es: seq<Expr>): nat
    decreases es, 0
  {
    if es == [] then 0
    else
      var f := CompiledForm(es[0]);
      Steps(es[0]) + (if f.Fixed? || f.Variable? then 0 else 1) + ArgsSteps(es[1..])
  }

  lemma {:induction false} ExprGrows(e: Expr, s: CState)
    ensures Grown(s, CompileExpr(e, s).1, Steps(e))
    decreases e, 1
  {
    match e
    case Var(_, _) => GrownSame(s, s);
    case Const(_, _) => GrownSame(s, s);
    case Unary(_, _, x) => ExprGrows(x, s);
    case Binary(_, op, x, y) =>
      var (cx, s1) := CompileExpr(x, s);
      var (cy, s2) := CompileExpr(y, s1);
      ExprGrows(x, s);
      ExprGrows(y, s1);
      GrownThen(s, s1, s2, Steps(x), Steps(y));
      BinaryGrows(e, s, cx, s1, cy, s2);
    case Tuple(_, _, args) => ArgsGrow(args, s);
  }

  lemma BinaryGrows(e: Expr, s: CState, cx: Expr, s1: CState, cy: Expr, s2: CState)
    requires e.Binary? && (cx, s1) == CompileExpr(e.x, s) && (cy, s2) == CompileExpr(e.y, s1)
    requires Grown(s, s2, Steps(e.x) + Steps(e.y))
    ensures Grown(s, CompileExpr(e, s).1, Steps(e))
  {
    var same := if cx != e.x || cy != e.y then NewBinary(e.op2, cx, cy) else e;
    if e.op2 == LAND || e.op2 == LOR {
      FormExact(e.x, s);
      FormExact(e.y, s1);
      CompiledResult(e.x, s);
      CompiledResult(e.y, s1);
      BooleanGrows(e.op2, cx, cy, same, s2);
      var n := BooleanSteps(e.op2, FormOf(cx), FormOf(cy));
      GrownThen(s, s2, SimplifyBoolean(e.op2 == LAND, cx, cy, same, s2).1, Steps(e.x) + Steps(e.y), n);
    }
  }

  lemma BooleanGrows(op: Op2, x: Expr, y: Expr, same: Expr, s: CState)
    requires Compiled(x) && Compiled(y) && (op == LAND || op == LOR)
    ensures Grown(s, SimplifyBoolean(op == LAND, x, y, same, s).1, BooleanSteps(op, FormOf(x), FormOf(y)))
  {
    var t := SimplifyBoolean(op == LAND, x, y, same, s).1;
    if x.Const? || y.Var? || (y.Const? && IsTrue(FormOf(y)) == (op == LAND)) {
      GrownSame(s, t);
    } else if y.Const? {
      GrownEmit(s, Pure(x));
    } else {
      StoreGrows(op, x, y, s);
    }
  }

  lemma StoreGrows(op: Op2, x: Expr, y: Expr, s: CState)
    requires Compiled(x) && Compiled(y) && (op == LAND || op == LOR)
    ensures Grown(s, StoreBoolean(op == LAND, x, y, s).1, StoredSteps(op, FormOf(x)))
  {
    var s2 := StoreLeft(op == LAND, x, s);
    var s3 := Emit(s2, Let(ASSIGN, Bool, s.vars, y));
    var n := StoredSteps(op, FormOf(x)) - 3;
    LeftGrows(op == LAND, x, s);
    GrownEmit(s2, Let(ASSIGN, Bool, s.vars, y));
    GrownEmit(s3, LabelI(s.labels));
    ThreeParts(s, s2, s3, Emit(s3, LabelI(s.labels)), 1 + n, 1, 1);
  }

  lemma LeftGrows(land: bool, x: Expr, s: CState)
    requires Compiled(x)
    ensures Grown(s, StoreLeft(land, x, s), StoredSteps(if land then LAND else LOR, FormOf(x)) - 2)
  {
    if Compares(x) {
      StoredGrows(land, Const(Bool, if land then 0 else 1), x, x, s);
    } else {
      StoredGrows(land, x, Var(Bool, s.vars), x, s);
    }
  }

  lemma StoredGrows(land: bool, first: Expr, decider: Expr, x: Expr, s: CState)
    requires Compiled(first) && Compiled(decider) && (if Compares(x) then decider == x else decider.Var?)
    ensures var s0 := s.(vars := s.vars + 1, labels := s.labels + 1);
      var test := if land then NewUnary(NOT1, decider) else decider;
      Grown(s, EmitJump(Emit(s0, Let(ASSIGN, Bool, s.vars, first)), s.labels, test),
            StoredSteps(if land then LAND else LOR, FormOf(x)) - 2)
  {
    var s0 := s.(vars := s.vars + 1, labels := s.labels + 1);
    var s1 := Emit(s0, Let(ASSIGN, Bool, s.vars, first));
    var test := if land then NewUnary(NOT1, decider) else decider;
    GrownEmit(s0, Let(ASSIGN, Bool, s.vars, first));
    JumpGrows(s1, s.labels, test);
    DeciderForm(x, decider, test, land);
    GrownThen(s, s1, EmitJump(s1, s.labels, test), 1, JumpSteps(FormOf(test)));
  }

  lemma DeciderForm(x: Expr, decider: Expr, test: Expr, land: bool)
    requires if Compares(x) then decider == x else decider.Var?
    requires test == if land then NewUnary(NOT1, decider) else decider
    ensures var f := if IsComparisonForm(FormOf(x)) then FormOf(x) else Variable;
      FormOf(test) == if land then Not(f) else f
  {
    assert Compares(x) <==> IsComparisonForm(FormOf(x));
    assert land ==> FormOf(test) == Not(FormOf(decider));
  }

  lemma StoredParts(s: CState, s1: CState, s2: CState, s3: CState, s4: CState, n: nat)
    requires Grown(s, s1, 1) && Grown(s1, s2, n) && Grown(s2, s3, 1) && Grown(s3, s4, 1)
    ensures Grown(s, s4, 3 + n)
  {
    GrownThen(s, s1, s2, 1, n);
    GrownThen(s, s2, s3, 1 + n, 1);
    GrownThen(s, s3, s4, 2 + n, 1);
  }

  lemma {:induction false} ArgsGrow(es: seq<Expr>, s: CState)
    ensures Grown(s, CompileArgs(es, s).1, ArgsSteps(es))
    decreases es, 0
  {
    if es == [] {
      GrownSame(s, s);
    } else {
      var (c, s1) := CompileExpr(es[0], s);
      var s2 := ToVarConst(c, s1).1;
      var n := if IsLeaf(c) then 0 else 1;
      ExprGrows(es[0], s);
      FormExact(es[0], s);
      CompiledResult(es[0], s);
      LeafGrows(c, s1);
      ArgsGrow(es[1..], s2);
      GrownThen(s, s1, s2, Steps(es[0]), n);
      GrownThen(s, s2, CompileArgs(es[1..], s2).1, Steps(es[0]) + n, ArgsSteps(es[1..]));
    }
  }

  lemma LeafGrows(c: Expr, s: CState)
    requires Compiled(c)
    ensures Grown(s, ToVarConst(c, s).1, if IsLeaf(c) then 0 else 1)
  {
    if IsLeaf(c) {
      GrownSame(s, s);
    } else {
      GrownEmit(s.(vars := s.vars + 1), Let(ASSIGN, c.kind, s.vars, c));
    }
  }

  lemma JumpIfGrows(target: nat, test: Expr, s: CState)
    ensures Grown(s, CompileJumpIf(target, test, s), Steps(test) + JumpSteps(CompiledForm(test)))
  {
    var (c, s1) := CompileExpr(test, s);
    ExprGrows(test, s);
    FormExact(test, s);
    CompiledResult(test, s);
    JumpGrows(s1, target, c);
    GrownThen(s, s1, CompileJumpIf(target, test, s), Steps(test), JumpSteps(FormOf(c)));
  }

  // ---------------------------------------------------------------- statements

  /** The instructions of a statement. */
  function StmtSteps(st: Stmt, sc: Scope): nat
    decreases st, 2
  {
    match st
    case ExprStmt(e) => Steps(e)
    case Assign(_, _, _, src) => Steps(src) + 1
    case Inc(_, _) => 1
    case Dec(_, _) => 1
    case If(_, _, _) => IfSteps(st, sc)
    case For(init, test, _, _) => AddSteps(init, sc) + if test.Const? then 0 else LoopSteps(st, sc)
    case Cond(clauses) => if clauses == [] then 0 else ClausesSteps(clauses, sc) + 1
    case Switch(expr, cases) =>
      if DefaultCount(cases) > 1 then 0
      else (if expr.Var? then 0 else Steps(expr) + 1) + CasesSteps(cases, true, CaseScope(sc)) + 1
    case Block(stmts) => BlockSteps(stmts, sc)
    case Break => Bit(sc.breaks)
    case Continue => Bit(sc.continues)
    case Fallthrough => Bit(sc.fallsThrough)
  }

  /** A branch or body that is an expression is evaluated, unless it is "no statement". */
  function AddSteps(st: Stmt, sc: Scope): nat
    decreases st, 3
  {
    StmtSteps(st, sc) + if st.ExprStmt? && CompiledForm(st.e) != Fixed(VOID_CONST) then 1 else 0
  }

  /** The branch that a constant test selects, or a jump, a branch and a label, or both branches with a jump and two
      labels. */
  function IfSteps(st: Stmt, sc: Scope): nat
    requires st.If?
    decreases st, 1
  {
    var f := CompiledForm(st.test);
    Steps(st.test) +
    if f.Fixed? then (if IsTrue(f) then AddSteps(st.then_, sc) else AddSteps(st.else_, sc))
    else JumpSteps(Not(f)) + AddSteps(st.then_, sc) + 1 + if IsConstStmt(st.else_) then 0 else AddSteps(st.else_, sc) + 2
  }

  /** The jump to the test, three labels, the body, `post`, and the test. */
  function LoopSteps(st: Stmt, sc: Scope): nat
    requires st.For?
    decreases st, 1
  {
    4 + AddSteps(st.body, LoopScope(sc)) + AddSteps(st.post, LoopScope(sc))
    + Steps(st.test) + JumpSteps(CompiledForm(st.test))
  }

  function BlockSteps(ss: seq<Stmt>, sc: Scope): nat
    decreases ss, 0
  {
    if ss == [] then 0 else StmtSteps(ss[0], sc) + BlockSteps(ss[1..], sc)
  }

  /** Behind each clause but the last a jump to the end, and the label of the next clause. */
  function ClausesSteps(cs: seq<Clause>, sc: Scope): nat
    decreases cs, 0
  {
    if cs == [] then 0 else ClauseSteps(cs[0], sc) + (if |cs| == 1 then 0 else 2) + ClausesSteps(cs[1..], sc)
  }

  function ClauseSteps(c: Clause, sc: Scope): nat
    decreases c, 4
  {
    Steps(c.test) + JumpSteps(Not(CompiledForm(c.test))) + AddSteps(c.body, sc)
  }

  function CasesSteps(cs: seq<Case>, first: bool, sc: Scope): nat
    decreases cs, 0
  {
    if cs == [] then 0 else CaseSteps(cs[0], first, |cs| == 1, sc) + CasesSteps(cs[1..], false, sc)
  }

  /** The labels of its test and of its body, where one may jump there; the test, or for a Default that is not last the jump
      over its body; the body, and behind it a jump to the end, unless it is last. */
  function CaseSteps(c: Case, first: bool, last: bool, sc: Scope): nat
    decreases c, 4
  {
    HeadSteps(c, first, last) + AddSteps(c.body, sc) + if last then 0 else 1
  }

  function HeadSteps(c: Case, first: bool, last: bool): nat {
    if c.Case? then (if first then 0 else 2) + Steps(c.expr) + 1
    else if last then (if first then 0 else 2)
    else (if first then 0 else 1) + 2
  }

  lemma {:induction false} AddGrows(st: Stmt, s: CState)
    ensures Grown(s, CompileAdd(st, s), AddSteps(st, ScopeOf(s)))
    decreases st, 3
  {
    if st.ExprStmt? {
      var (c, s1) := CompileExpr(st.e, s);
      ExprGrows(st.e, s);
      FormExact(st.e, s);
      CompiledResult(st.e, s);
      KeptGrows(c, s1);
      GrownThen(s, s1, EmitExpr(s1, c), Steps(st.e), if c == VOID_CONST then 0 else 1);
    } else {
      StmtGrows(st, s);
    }
  }

  lemma KeptGrows(c: Expr, s: CState)
    requires Compiled(c)
    ensures Grown(s, EmitExpr(s, c), if c == VOID_CONST then 0 else 1)
    ensures c == VOID_CONST <==> FormOf(c) == Fixed(VOID_CONST)
  {
    if c == VOID_CONST {
      GrownSame(s, s);
    } else {
      GrownEmit(s, Pure(c));
    }
  }

  lemma {:induction false} StmtGrows(st: Stmt, s: CState)
    ensures Grown(s, CompileStmt(st, s), StmtSteps(st, ScopeOf(s)))
    decreases st, 2
  {
    match st
    case ExprStmt(e) => ExprGrows(e, s);
    case Assign(op, k, id, src) => AssignGrows(op, k, id, src, s);
    case Inc(k, id) => GrownEmit(s, IncI(k, id));
    case Dec(k, id) => GrownEmit(s, DecI(k, id));
    case If(_, _, _) => IfGrows(st, s);
    case For(_, _, _, _) => ForGrows(st, s);
    case Cond(clauses) => CondGrows(clauses, s);
    case Switch(_, _) => SwitchGrows(st, s);
    case Block(stmts) => BlockGrows(stmts, s);
    case Break => TopGrows(s.breaks, s);
    case Continue => TopGrows(s.continues, s);
    case Fallthrough => TopGrows(s.fallthroughs, s);
  }

  lemma TopGrows(stack: seq<nat>, s: CState)
    ensures Grown(s, EmitGotoTop(stack, s), Bit(stack != []))
  {
    if stack != [] {
      GrownEmit(s, Goto(stack[|stack| - 1]));
    }
  }

  lemma AssignGrows(op: AssignOp, k: Kind, id: nat, src: Expr, s: CState)
    ensures Grown(s, CompileAssign(op, k, id, src, s), Steps(src) + 1)
  {
    var (c, s1) := CompileExpr(src, s);
    ExprGrows(src, s);
    CompiledResult(src, s);
    GrownEmit(s1, Let(op, k, id, c));
    GrownThen(s, s1, Emit(s1, Let(op, k, id, c)), Steps(src), 1);
  }

  lemma {:induction false} BlockGrows(ss: seq<Stmt>, s: CState)
    ensures Grown(s, CompileBlock(ss, s), BlockSteps(ss, ScopeOf(s)))
    decreases ss, 0
  {
    if ss == [] {
      GrownSame(s, s);
    } else {
      var s1 := CompileStmt(ss[0], s);
      StmtGrows(ss[0], s);
      BlockGrows(ss[1..], s1);
      GrownThen(s, s1, CompileBlock(ss[1..], s1), StmtSteps(ss[0], ScopeOf(s)), BlockSteps(ss[1..], ScopeOf(s)));
    }
  }

  // ---------------------------------------------------------------- if

  lemma {:induction false} IfGrows(st: Stmt, s: CState)
    requires st.If?
    ensures Grown(s, CompileIf(st, s), IfSteps(st, ScopeOf(s)))
    decreases st, 1
  {
    var (c, s1) := CompileExpr(st.test, s);
    ExprGrows(st.test, s);
    FormExact(st.test, s);
    CompiledResult(st.test, s);
    var n: nat := IfSteps(st, ScopeOf(s)) - Steps(st.test);
    if c.Const? {
      var branch := if Truth(ConstValue(c)) then st.then_ else st.else_;
      AddGrows(branch, s1);
    } else {
      BranchesGrow(st, c, s1);
    }
    GrownThen(s, s1, CompileIf(st, s), Steps(st.test), n);
  }

  lemma {:induction false} BranchesGrow(st: Stmt, c: Expr, s: CState)
    requires st.If? && Compiled(c)
    ensures Grown(s, CompileBranches(st, c, s), JumpSteps(Not(FormOf(c))) + AddSteps(st.then_, ScopeOf(s)) + 1
      + if IsConstStmt(st.else_) then 0 else AddSteps(st.else_, ScopeOf(s)) + 2)
    decreases st, 0, 1
  {
    if IsConstStmt(st.else_) {
      OneGrows(st, c, s);
    } else {
      var s1 := EmitJump(s.(labels := s.labels + 2), s.labels, NewUnary(NOT1, c));
      NegatedGrows(c, s, s.(labels := s.labels + 2), s.labels);
      BothGrow(st, s.labels, s1);
      GrownThen(s, s1, CompileBoth(st, s.labels, s1), JumpSteps(Not(FormOf(c))),
                AddSteps(st.then_, ScopeOf(s)) + AddSteps(st.else_, ScopeOf(s)) + 3);
    }
  }

  lemma {:induction false} OneGrows(st: Stmt, c: Expr, s: CState)
    requires st.If? && Compiled(c) && IsConstStmt(st.else_)
    ensures Grown(s, CompileBranches(st, c, s), JumpSteps(Not(FormOf(c))) + AddSteps(st.then_, ScopeOf(s)) + 1)
    decreases st, 0, 0
  {
    var s1 := EmitJump(s.(labels := s.labels + 1), s.labels, NewUnary(NOT1, c));
    var s2 := CompileAdd(st.then_, s1);
    NegatedGrows(c, s, s.(labels := s.labels + 1), s.labels);
    AddGrows(st.then_, s1);
    GrownEmit(s2, LabelI(s.labels));
    ThreeParts(s, s1, s2, Emit(s2, LabelI(s.labels)), JumpSteps(Not(FormOf(c))), AddSteps(st.then_, ScopeOf(s)), 1);
  }

  lemma NegatedGrows(c: Expr, s: CState, s0: CState, l: nat)
    requires Compiled(c) && s0.node == s.node
    ensures Grown(s, EmitJump(s0, l, NewUnary(NOT1, c)), JumpSteps(Not(FormOf(c))))
  {
    JumpGrows(s0, l, NewUnary(NOT1, c));
  }

  lemma {:induction false} BothGrow(st: Stmt, l: nat, s: CState)
    requires st.If?
    ensures Grown(s, CompileBoth(st, l, s), AddSteps(st.then_, ScopeOf(s)) + AddSteps(st.else_, ScopeOf(s)) + 3)
    decreases st, 0, 0
  {
    var s1 := CompileAdd(st.then_, s);
    var s2 := Emit(Emit(s1, Goto(l + 1)), LabelI(l));
    var s3 := CompileAdd(st.else_, s2);
    AddGrows(st.then_, s);
    TwoGrow(s1, Goto(l + 1), LabelI(l));
    AddGrows(st.else_, s2);
    GrownEmit(s3, LabelI(l + 1));
    var (a, b) := (AddSteps(st.then_, ScopeOf(s)), AddSteps(st.else_, ScopeOf(s)));
    ThreeParts(s, s1, s2, s3, a, 2, b);
    GrownThen(s, s3, Emit(s3, LabelI(l + 1)), a + 2 + b, 1);
  }

  lemma TwoGrow(s: CState, i: Instr, j: Instr)
    requires Tidy(i) && Tidy(j)
    ensures Grown(s, Emit(Emit(s, i), j), 2)
  {
    GrownEmit(s, i);
    GrownEmit(Emit(s, i), j);
    GrownThen(s, Emit(s, i), Emit(Emit(s, i), j), 1, 1);
  }

  lemma ThreeParts(s: CState, s1: CState, s2: CState, s3: CState, a: nat, b: nat, c: nat)
    requires Grown(s, s1, a) && Grown(s1, s2, b) && Grown(s2, s3, c)
    ensures Grown(s, s3, a + b + c)
  {
    GrownThen(s, s1, s2, a, b);
    GrownThen(s, s2, s3, a + b, c);
  }

  // ---------------------------------------------------------------- for

  lemma {:induction false} ForGrows(st: Stmt, s: CState)
    requires st.For?
    ensures Grown(s, CompileFor(st, s), StmtSteps(st, ScopeOf(s)))
    decreases st, 1
  {
    var s1 := CompileAdd(st.init, s);
    AddGrows(st.init, s);
    if !st.test.Const? {
      LoopGrows(st, s1);
      GrownThen(s, s1, CompileLoop(st, s1), AddSteps(st.init, ScopeOf(s)), LoopSteps(st, ScopeOf(s)));
    }
  }

  lemma {:induction false} LoopGrows(st: Stmt, s: CState)
    requires st.For?
    ensures Grown(s, CompileLoop(st, s), LoopSteps(st, ScopeOf(s)))
    decreases st, 0, 1
  {
    var s4 := LoopBody(st, s);
    var n := 2 + AddSteps(st.body, LoopScope(ScopeOf(s))) + AddSteps(st.post, LoopScope(ScopeOf(s)));
    BodyGrows(st, s);
    LoopEndGrows(st, s, s4, n);
  }

  /** From behind `post` on: the label of the test, the test, and the label behind the loop. */
  lemma LoopEndGrows(st: Stmt, s: CState, s4: CState, n: nat)
    requires st.For? && s4 == LoopBody(st, s) && Grown(s, s4, n)
    ensures Grown(s, CompileLoop(st, s), n + 2 + Steps(st.test) + JumpSteps(CompiledForm(st.test)))
  {
    var s5 := Emit(s4, LabelI(s.labels + 1));
    var s6 := LoopTest(st, s);
    var m := Steps(st.test) + JumpSteps(CompiledForm(st.test));
    GrownEmit(s4, LabelI(s.labels + 1));
    JumpIfGrows(s.labels, st.test, s5);
    TestIs(st, s, s5);
    GrownEmit(s6, LabelI(s.labels + 2));
    ThreeParts(s, s4, s5, s6, n, 1, m);
    GrownThen(s, s6, Emit(s6, LabelI(s.labels + 2)), n + 1 + m, 1);
  }

  lemma TestIs(st: Stmt, s: CState, s5: CState)
    requires st.For? && s5 == Emit(LoopBody(st, s), LabelI(s.labels + 1))
    ensures LoopTest(st, s) == CompileJumpIf(s.labels, st.test, s5)
  {
  }

  lemma {:induction false} BodyGrows(st: Stmt, s: CState)
    requires st.For?
    ensures var sc := LoopScope(ScopeOf(s)); Grown(s, LoopBody(st, s), 2 + AddSteps(st.body, sc) + AddSteps(st.post, sc))
    decreases st, 0, 0
  {
    var s1 := LoopEntry(s);
    var s2 := CompileAdd(st.body, s1);
    var s3 := CompileAdd(st.post, s2);
    EntryGrows(s);
    AddGrows(st.body, s1);
    AddGrows(st.post, s2);
    assert ScopeOf(s1) == LoopScope(ScopeOf(s)) == ScopeOf(s2);
    ThreeParts(s, s1, s2, s3, 2, AddSteps(st.body, LoopScope(ScopeOf(s))), AddSteps(st.post, LoopScope(ScopeOf(s))));
  }

  lemma EntryGrows(s: CState)
    ensures Grown(s, LoopEntry(s), 2)
  {
    TwoGrow(s.(labels := s.labels + 3), Goto(s.labels + 1), LabelI(s.labels));
  }

  // ---------------------------------------------------------------- cond

  lemma {:induction false} CondGrows(clauses: seq<Clause>, s: CState)
    ensures Grown(s, CompileCond(clauses, s), if clauses == [] then 0 else ClausesSteps(clauses, ScopeOf(s)) + 1)
    decreases clauses, 1
  {
    if clauses == [] {
      GrownSame(s, s);
    } else {
      var s0 := s.(labels := s.labels + 1);
      var s1 := CompileClauses(clauses, s.labels, s0);
      ClausesGrow(clauses, s.labels, s0);
      GrownEmit(s1, LabelI(s.labels));
      GrownThen(s, s1, Emit(s1, LabelI(s.labels)), ClausesSteps(clauses, ScopeOf(s)), 1);
    }
  }

  lemma {:induction false} ClausesGrow(cs: seq<Clause>, lEnd: nat, s: CState)
    requires cs != []
    ensures Grown(s, CompileClauses(cs, lEnd, s), ClausesSteps(cs, ScopeOf(s)))
    decreases cs, 0
  {
    if |cs| == 1 {
      ClauseGrows(cs[0], lEnd, s);
      assert ClausesSteps(cs[1..], ScopeOf(s)) == 0;
    } else {
      var s2 := BehindClause(cs[0], lEnd, s);
      FirstClauseGrows(cs[0], lEnd, s);
      ClausesGrow(cs[1..], lEnd, s2);
      GrownThen(s, s2, CompileClauses(cs[1..], lEnd, s2),
                ClauseSteps(cs[0], ScopeOf(s)) + 2, ClausesSteps(cs[1..], ScopeOf(s)));
    }
  }

  /** The state behind a clause that is not the last one. */
  function BehindClause(c: Clause, lEnd: nat, s: CState): CState {
    Emit(Emit(CompileClause(c, s.labels, s.(labels := s.labels + 1)), Goto(lEnd)), LabelI(s.labels))
  }

  lemma {:induction false} FirstClauseGrows(c: Clause, lEnd: nat, s: CState)
    ensures Grown(s, BehindClause(c, lEnd, s), ClauseSteps(c, ScopeOf(s)) + 2)
    decreases c, 5
  {
    var s0 := s.(labels := s.labels + 1);
    ClauseGrows(c, s.labels, s0);
    ThenTwo(s, s0, CompileClause(c, s.labels, s0), Goto(lEnd), LabelI(s.labels), ClauseSteps(c, ScopeOf(s)));
  }

  lemma ThenTwo(s: CState, s0: CState, s1: CState, i: Instr, j: Instr, n: nat)
    requires s0.node == s.node && Grown(s0, s1, n) && Tidy(i) && Tidy(j)
    ensures Grown(s, Emit(Emit(s1, i), j), n + 2)
  {
    TwoGrow(s1, i, j);
    GrownThen(s, s1, Emit(Emit(s1, i), j), n, 2);
  }

  lemma {:induction false} ClauseGrows(c: Clause, next: nat, s: CState)
    ensures Grown(s, CompileClause(c, next, s), ClauseSteps(c, ScopeOf(s)))
    decreases c, 4
  {
    var test := NewUnary(NOT1, c.test);
    var s1 := CompileJumpIf(next, test, s);
    JumpIfGrows(next, test, s);
    AddGrows(c.body, s1);
    assert Steps(test) == Steps(c.test) && CompiledForm(test) == Not(CompiledForm(c.test));
    GrownThen(s, s1, CompileAdd(c.body, s1), Steps(test) + JumpSteps(CompiledForm(test)), AddSteps(c.body, ScopeOf(s)));
  }

  // ---------------------------------------------------------------- switch

  lemma {:induction false} SwitchGrows(st: Stmt, s: CState)
    requires st.Switch?
    ensures Grown(s, CompileSwitch(st, s), StmtSteps(st, ScopeOf(s)))
    decreases st, 1
  {
    if DefaultCount(st.cases) > 1 {
      GrownSame(s, Error(s));
    } else {
      var (v, s1) := ToVar(st.expr, s);
      var s2 := s1.(labels := s1.labels + 1);
      var s3 := CompileCases(st.cases, v, FirstCase(s1.labels), s2);
      var n := if st.expr.Var? then 0 else Steps(st.expr) + 1;
      VarGrows(st.expr, s);
      CasesGrow(st.cases, v, FirstCase(s1.labels), s2, true);
      GrownEmit(s3, LabelI(s1.labels));
      ThreeParts(s, s2, s3, Emit(s3, LabelI(s1.labels)), n, CasesSteps(st.cases, true, CaseScope(ScopeOf(s))), 1);
    }
  }

  lemma VarGrows(e: Expr, s: CState)
    ensures Grown(s, ToVar(e, s).1, if e.Var? then 0 else Steps(e) + 1) && ToVar(e, s).0.Var?
  {
    if e.Var? {
      GrownSame(s, s);
    } else {
      AssignGrows(ASSIGN, e.kind, s.vars, e, s.(vars := s.vars + 1));
    }
  }

  /** The first case has no labels yet, and each other one has both. */
  predicate LabelsFor(ls: CaseLabels, first: bool) {
    if first then ls.this_.None? && ls.thisFall.None? else ls.this_.Some? && ls.thisFall.Some?
  }

  lemma {:induction false} CasesGrow(cs: seq<Case>, v: Expr, ls: CaseLabels, s: CState, first: bool)
    requires v.Var? && LabelsFor(ls, first)
    ensures Grown(s, CompileCases(cs, v, ls, s), CasesSteps(cs, first, CaseScope(ScopeOf(s))))
    decreases cs, 0
  {
    if cs == [] {
      GrownSame(s, s);
    } else {
      var last := |cs| == 1;
      var (ls1, s1) := CaseHead(cs[0], last, v, ls, s);
      var s2 := CaseBody(cs[0], last, ls1, s1);
      HeadGrows(cs[0], last, v, ls, s, first);
      CaseBodyGrows(cs[0], last, ls1, s1);
      CasesGrow(cs[1..], v, ls1, s2, false);
      ThreeParts(s, s1, s2, CompileCases(cs[1..], v, ls1, s2), HeadSteps(cs[0], first, last),
                 AddSteps(cs[0].body, CaseScope(ScopeOf(s))) + (if last then 0 else 1),
                 CasesSteps(cs[1..], false, CaseScope(ScopeOf(s))));
    }
  }

  lemma {:induction false} CaseBodyGrows(c: Case, last: bool, ls: CaseLabels, s: CState)
    requires ls.thisFall.Some?
    ensures Grown(s, CaseBody(c, last, ls, s), AddSteps(c.body, CaseScope(ScopeOf(s))) + (if last then 0 else 1))
    decreases c, 4
  {
    var s0 := EnterCase(s, ls.end, ls.thisFall.value);
    var s1 := ExitCase(CompileAdd(c.body, s0));
    AddGrows(c.body, s0);
    assert ScopeOf(s0) == CaseScope(ScopeOf(s));
    if !last {
      GrownEmit(s1, Goto(ls.end));
      GrownThen(s, s1, Emit(s1, Goto(ls.end)), AddSteps(c.body, CaseScope(ScopeOf(s))), 1);
    }
  }

  lemma OptLabelGrows(s: CState, l: Option<nat>)
    ensures Grown(s, EmitOptLabel(s, l), Bit(l.Some?))
  {
    if l.Some? {
      GrownEmit(s, LabelI(l.value));
    }
  }

  lemma HeadGrows(c: Case, last: bool, v: Expr, ls: CaseLabels, s: CState, first: bool)
    requires v.Var? && LabelsFor(ls, first)
    ensures Grown(s, CaseHead(c, last, v, ls, s).1, HeadSteps(c, first, last))
  {
    var s0 := if last then s else s.(labels := s.labels + 2);
    var s1 := HeadStart(last, ls, s);
    var next := if last then (if ls.default_.Some? then ls.default_.value else ls.end) else s.labels;
    OptLabelGrows(s0, ls.this_);
    if c.Case? {
      TestGrows(c, next, v, s1);
      var s2 := CompileJumpIf(next, Binary(Bool, NEQ, v, c.expr), s1);
      OptLabelGrows(s2, ls.thisFall);
      ThreeParts(s, s1, s2, EmitOptLabel(s2, ls.thisFall), Bit(!first), Steps(c.expr) + 1, Bit(!first));
    } else if last {
      OptLabelGrows(s1, ls.thisFall);
      GrownThen(s, s1, EmitOptLabel(s1, ls.thisFall), Bit(!first), Bit(!first));
    } else {
      var s2 := Emit(s1, Goto(next));
      var (here, s3) := if ls.thisFall.Some? then (ls.thisFall.value, s2) else (s2.labels, s2.(labels := s2.labels + 1));
      GrownEmit(s1, Goto(next));
      GrownEmit(s3, LabelI(here));
      ThreeParts(s, s1, s2, Emit(s3, LabelI(here)), Bit(!first), 1, 1);
    }
  }

  lemma TestGrows(c: Case, next: nat, v: Expr, s: CState)
    requires c.Case? && v.Var?
    ensures Grown(s, CompileJumpIf(next, Binary(Bool, NEQ, v, c.expr), s), Steps(c.expr) + 1)
  {
    var test := Binary(Bool, NEQ, v, c.expr);
    JumpIfGrows(next, test, s);
    assert CompiledForm(v) == Variable && Steps(v) == 0;
    assert CompiledForm(test) == Op(NEQ, Variable, CompiledForm(c.expr)) && Steps(test) == Steps(c.expr);
    assert Stripped(CompiledForm(test)) == (CompiledForm(test), false);
  }

  // ---------------------------------------------------------------- functions

  /** The code of a function: its label, the parameters if there are any, the body, and one return. */
  lemma FuncLength(params: seq<nat>, body: Stmt, vars: nat)
    ensures var p := CompileFunc(params, body, vars).node;
      && |p| == 2 + (if params == [] then 0 else 1) + AddSteps(body, TOP_SCOPE)
      && forall i :: 0 <= i < |p| ==> Tidy(p[i])
  {
    var (s, t) := (FuncStart(params, vars), FuncBody(params, body, vars));
    var n := if params == [] then 1 else 2;
    AddGrows(body, s);
    StartGrows(params, vars);
    FuncNode(params, body, vars);
    GrownEmit(t, Ret);
    ThreeParts(CState([], [], [], [], 1, vars, 0), s, t, Emit(t, Ret), n, AddSteps(body, TOP_SCOPE), 1);
  }

  lemma StartGrows(params: seq<nat>, vars: nat)
    ensures var s := FuncStart(params, vars);
      ScopeOf(s) == TOP_SCOPE && Grown(CState([], [], [], [], 1, vars, 0), s, if params == [] then 1 else 2)
  {
    var s := CState([], [], [], [], 1, vars, 0);
    GrownEmit(s, LabelI(0));
    TwoGrow(s, LabelI(0), SetParams(params));
  }

  lemma FuncNode(params: seq<nat>, body: Stmt, vars: nat)
    ensures CompileFunc(params, body, vars).node == Emit(FuncBody(params, body, vars), Ret).node
  {
    FuncLabels(params, body, vars);
  }
}
