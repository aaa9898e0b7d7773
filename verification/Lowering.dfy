/** What onejit/compiler.cpp emits, as functions from one compiler state to the next. */
module Lowering {
  import opened Values
  import opened Ir
  import opened Stmts
  import opened Flat

  /** The fields of Compiler and Func that lowering changes. Labels and variables are numbered in
      the order Func::new_label() and Func::new_var() create them. */
  datatype CState = CState(
    node: seq<Instr>,
    breaks: seq<nat>,
    continues: seq<nat>,
    fallthroughs: seq<nat>,
    labels: nat,
    vars: nat,
    errors: nat)

  /** Lowering only appends code and creates labels and variables; it leaves the stacks of jump
      destinations as it found them. */
  ghost predicate Extends(s: CState, t: CState) {
    && s.node <= t.node
    && s.labels <= t.labels && s.vars <= t.vars && s.errors <= t.errors
    && s.breaks == t.breaks && s.continues == t.continues && s.fallthroughs == t.fallthroughs
  }

  function Emit(s: CState, i: Instr): CState { s.(node := s.node + [i]) }

  /** Compiler::add(): everything but VoidConst. */
  function EmitExpr(s: CState, e: Expr): CState { if e == VOID_CONST then s else Emit(s, Pure(e)) }

  function Error(s: CState): CState { s.(errors := s.errors + 1) }

  function Top(stack: seq<nat>): Option<nat> { if stack == [] then None else Some(stack[|stack| - 1]) }

  // ---------------------------------------------------------------- conditional jumps

  function ComparisonToCondJump(op: Op2, isSigned: bool): CondJump {
    match op
    case LSS => if isSigned then JL else JB
    case LEQ => if isSigned then JLE else JBE
    case NEQ => JNE
    case EQL => JE
    case GTR => if isSigned then JG else JA
    case GEQ => if isSigned then JGE else JAE
    case _ => BAD_ST3
  }

  /** JL and JLE have no case. */
  function NegateCondJump(op: CondJump): CondJump {
    match op
    case JA => JBE
    case JAE => JB
    case JB => JAE
    case JBE => JA
    case JE => JNE
    case JG => JLE
    case JGE => JL
    case JNE => JE
    case _ => op
  }

  /** Takes the leading negations off a test: the rest, and whether their number was odd. */
  function StripNots(test: Expr): (r: (Expr, bool))
    ensures Size(r.0) <= Size(test)
  {
    if test.Unary? && test.op1 == NOT1 then
      var (t, negate) := StripNots(test.x);
      (t, !negate)
    else (test, false)
  }

  /** The operands and the operator that a stripped test compares. */
  function Comparands(t: Expr): (Expr, Op2, Expr) {
    if t.Binary? then (t.x, t.op2, t.y) else (t, NEQ, Const(t.kind, 0))
  }

  /** The verdict on a comparison of two constants, if there is one. */
  function ConstVerdict(x: Expr, op: Op2, y: Expr): Value {
    if x.Const? && y.Const? then EvalBinaryOp(op, ConstValue(x), ConstValue(y)) else Invalid
  }

  function JumpOp(op: Op2, kind: Kind, negate: bool): CondJump {
    var jop := ComparisonToCondJump(op, IsSigned(kind));
    if negate then NegateCondJump(jop) else jop
  }

  /** compile(JumpIf) after it has compiled the test. */
  function EmitJump(s: CState, target: nat, test: Expr): (t: CState)
    ensures Extends(s, t)
  {
    var (stripped, negate) := StripNots(test);
    var (x, op, y) := Comparands(stripped);
    var v := ConstVerdict(x, op, y);
    if v.Val? then (if negate != Truth(v) then Emit(s, Goto(target)) else s)
    else Emit(s, Jump(JumpOp(op, x.kind, negate), target, x, y))
  }

  // ---------------------------------------------------------------- expressions

  predicate IsLeaf(e: Expr) { e.Var? || e.Const? }

  predicate AllLeaves(es: seq<Expr>) { es == [] || (IsLeaf(es[0]) && AllLeaves(es[1..])) }

  /** compile(Unary/Binary/Tuple): the compiled expression and the state after what it emitted. */
  function CompileExpr(e: Expr, s: CState): (r: (Expr, CState))
    ensures Extends(s, r.1)
    decreases e, 1
  {
    match e
    case Var(_, _) => (e, s)
    case Const(_, _) => (e, s)
    case Unary(_, op, x) =>
      var (cx, s1) := CompileExpr(x, s);
      (if cx != x then NewUnary(op, cx) else e, s1)
    case Binary(_, op, x, y) =>
      var (cx, s1) := CompileExpr(x, s);
      var (cy, s2) := CompileExpr(y, s1);
      var same := if cx != x || cy != y then NewBinary(op, cx, cy) else e;
      if op == LAND || op == LOR then SimplifyBoolean(op == LAND, cx, cy, same, s2) else (same, s2)
    case Tuple(k, op, args) =>
      var (cargs, s1) := CompileArgs(args, s);
      if |cargs| == 0 then (Const(k, IdentityN(k, op).num), s1)
      else if |cargs| == 1 then (cargs[0], s1)
      else (Tuple(k, op, cargs), s1)
  }

  /** The arguments of a tuple become variables or constants. */
  function CompileArgs(es: seq<Expr>, s: CState): (r: (seq<Expr>, CState))
    ensures Extends(s, r.1) && |r.0| == |es|
    decreases es, 0
  {
    if es == [] then ([], s)
    else
      var (c, s1) := CompileExpr(es[0], s);
      var (leaf, s2) := ToVarConst(c, s1);
      var (rest, s3) := CompileArgs(es[1..], s2);
      ([leaf] + rest, s3)
  }

  function ToVarConst(c: Expr, s: CState): (r: (Expr, CState))
    ensures Extends(s, r.1)
  {
    if IsLeaf(c) then (c, s)
    else (Var(c.kind, s.vars), Emit(s.(vars := s.vars + 1), Let(ASSIGN, c.kind, s.vars, c)))
  }

  /** simplify_land() and simplify_lor() on compiled operands; `same` is the node they leave alone. */
  function SimplifyBoolean(land: bool, x: Expr, y: Expr, same: Expr, s: CState): (r: (Expr, CState))
    ensures Extends(s, r.1)
  {
    if x.Const? then (if Truth(ConstValue(x)) == land then y else x, s)
    else if y.Const? then
      if Truth(ConstValue(y)) == land then (x, s) else (y, EmitExpr(s, x))
    else if y.Var? then (same, s)
    else StoreBoolean(land, x, y, s)
  }

  predicate Compares(x: Expr) { x.Binary? && IsComparison(x.op2) }

  /** A fresh variable gets x, then a jump skips getting y when x decides. A comparison is not stored
      but jumped on. */
  function StoreBoolean(land: bool, x: Expr, y: Expr, s: CState): (r: (Expr, CState))
    ensures Extends(s, r.1)
  {
    var s1 := Emit(StoreLeft(land, x, s), Let(ASSIGN, Bool, s.vars, y));
    (Var(Bool, s.vars), Emit(s1, LabelI(s.labels)))
  }

  function StoreLeft(land: bool, x: Expr, s: CState): (t: CState)
    ensures Extends(s, t)
  {
    var s0 := s.(vars := s.vars + 1, labels := s.labels + 1);
    var (first, decider) := if Compares(x) then (Const(Bool, if land then 0 else 1), x) else (x, Var(Bool, s.vars));
    EmitJump(Emit(s0, Let(ASSIGN, Bool, s.vars, first)),
             s.labels, if land then NewUnary(NOT1, decider) else decider)
  }

  function CompileJumpIf(target: nat, test: Expr, s: CState): (t: CState)
    ensures Extends(s, t)
  {
    var (c, s1) := CompileExpr(test, s);
    EmitJump(s1, target, c)
  }

  // ---------------------------------------------------------------- statements

  predicate IsConstStmt(st: Stmt) { st.ExprStmt? && st.e.Const? }

  function CompileStmt(st: Stmt, s: CState): (t: CState)
    ensures Extends(s, t)
    decreases st, 2
  {
    match st
    case ExprStmt(e) => CompileExpr(e, s).1
    case Assign(op, k, id, src) => CompileAssign(op, k, id, src, s)
    case Inc(k, id) => Emit(s, IncI(k, id))
    case Dec(k, id) => Emit(s, DecI(k, id))
    case If(_, _, _) => CompileIf(st, s)
    case For(_, _, _, _) => CompileFor(st, s)
    case Cond(clauses) => CompileCond(clauses, s)
    case Switch(_, _) => CompileSwitch(st, s)
    case Block(stmts) => CompileBlock(stmts, s)
    case Break => EmitGotoTop(s.breaks, s)
    case Continue => EmitGotoTop(s.continues, s)
    case Fallthrough => EmitGotoTop(s.fallthroughs, s)
  }

  /** compile_add(): an expression is also appended. */
  function CompileAdd(st: Stmt, s: CState): (t: CState)
    ensures Extends(s, t)
    decreases st, 3
  {
    if st.ExprStmt? then
      var (c, s1) := CompileExpr(st.e, s);
      EmitExpr(s1, c)
    else CompileStmt(st, s)
  }

  function EmitGotoTop(stack: seq<nat>, s: CState): (t: CState)
    ensures Extends(s, t)
  {
    match Top(stack)
    case Some(l) => Emit(s, Goto(l))
    case None => Error(s)
  }

  function CompileAssign(op: AssignOp, k: Kind, id: nat, src: Expr, s: CState): (t: CState)
    ensures Extends(s, t)
  {
    var (c, s1) := CompileExpr(src, s);
    Emit(s1, Let(op, k, id, c))
  }

  /** to_var(): a variable stands for itself, anything else is copied to a fresh one. */
  function ToVar(e: Expr, s: CState): (r: (Expr, CState))
    ensures Extends(s, r.1)
  {
    if e.Var? then (e, s)
    else (Var(e.kind, s.vars), CompileAssign(ASSIGN, e.kind, s.vars, e, s.(vars := s.vars + 1)))
  }

  function CompileIf(st: Stmt, s: CState): (t: CState)
    requires st.If?
    ensures Extends(s, t)
    decreases st, 1
  {
    var (c, s1) := CompileExpr(st.test, s);
    if c.Const? then CompileAdd(if Truth(ConstValue(c)) then st.then_ else st.else_, s1)
    else CompileBranches(st, c, s1)
  }

  /** compile(If) from its compiled, non-constant test on. */
  function CompileBranches(st: Stmt, c: Expr, s: CState): (t: CState)
    requires st.If?
    ensures Extends(s, t)
    decreases st, 0, 1
  {
    var l := s.labels;
    if IsConstStmt(st.else_) then
      var s1 := EmitJump(s.(labels := l + 1), l, NewUnary(NOT1, c));
      Emit(CompileAdd(st.then_, s1), LabelI(l))
    else CompileBoth(st, l, EmitJump(s.(labels := l + 2), l, NewUnary(NOT1, c)))
  }

  /** Both branches, each behind the jump over it. */
  function CompileBoth(st: Stmt, l: nat, s: CState): (t: CState)
    requires st.If?
    ensures Extends(s, t)
    decreases st, 0, 0
  {
    var s1 := CompileAdd(st.then_, s);
    var s2 := Emit(Emit(s1, Goto(l + 1)), LabelI(l));
    Emit(CompileAdd(st.else_, s2), LabelI(l + 1))
  }

  function EnterLoop(s: CState, lBreak: nat, lContinue: nat): CState {
    s.(breaks := s.breaks + [lBreak], continues := s.continues + [lContinue])
  }

  function ExitLoop(s: CState): CState
    requires s.breaks != [] && s.continues != []
  {
    s.(breaks := s.breaks[..|s.breaks| - 1], continues := s.continues[..|s.continues| - 1])
  }

  /** exit_loop() undoes enter_loop(), around anything that was compiled in between. */
  lemma LoopScopeEnds(s: CState, t: CState, lBreak: nat, lContinue: nat)
    requires Extends(EnterLoop(s, lBreak, lContinue), t)
    ensures t.breaks != [] && t.continues != [] && Extends(s, ExitLoop(t)) && ExitLoop(t).node == t.node
    ensures ExitLoop(EnterLoop(s, lBreak, lContinue)) == s
  {
    assert (s.breaks + [lBreak])[..|s.breaks|] == s.breaks;
    assert (s.continues + [lContinue])[..|s.continues|] == s.continues;
  }

  function CompileFor(st: Stmt, s: CState): (t: CState)
    requires st.For?
    ensures Extends(s, t)
    decreases st, 1
  {
    var s1 := CompileAdd(st.init, s);
    if st.test.Const? then s1 else CompileLoop(st, s1)
  }

  /** The loop behind `init`. Its labels are, in this order, its body, `continue` and `break`. */
  function CompileLoop(st: Stmt, s: CState): (t: CState)
    requires st.For?
    ensures Extends(s, t)
    decreases st, 0, 1
  {
    Emit(LoopTest(st, s), LabelI(s.labels + 2))
  }

  function LoopTest(st: Stmt, s: CState): (t: CState)
    requires st.For?
    ensures Extends(s.(labels := s.labels + 3), t)
    decreases st, 0, 0, 1
  {
    CompileJumpIf(s.labels, st.test, Emit(LoopBody(st, s), LabelI(s.labels + 1)))
  }

  /** A jump to the test, the body and `post`. */
  function LoopBody(st: Stmt, s: CState): (t: CState)
    requires st.For?
    ensures Extends(s.(labels := s.labels + 3), t)
    decreases st, 0, 0, 0
  {
    ExitLoop(CompileAdd(st.post, CompileAdd(st.body, LoopEntry(s))))
  }

  function LoopGoto(s: CState): CState { Emit(s.(labels := s.labels + 3), Goto(s.labels + 1)) }

  function LoopEntry(s: CState): CState {
    EnterLoop(Emit(LoopGoto(s), LabelI(s.labels)), s.labels + 2, s.labels + 1)
  }

  function CompileBlock(stmts: seq<Stmt>, s: CState): (t: CState)
    ensures Extends(s, t)
    decreases stmts, 0
  {
    if stmts == [] then s else CompileBlock(stmts[1..], CompileStmt(stmts[0], s))
  }

  function CompileCond(clauses: seq<Clause>, s: CState): (t: CState)
    ensures Extends(s, t)
    decreases clauses, 1
  {
    if clauses == [] then s
    else Emit(CompileClauses(clauses, s.labels, s.(labels := s.labels + 1)), LabelI(s.labels))
  }

  /** All clauses up to the end label, where the test of the last one jumps. */
  function CompileClauses(clauses: seq<Clause>, lEnd: nat, s: CState): (t: CState)
    requires clauses != []
    ensures Extends(s, t)
    decreases clauses, 0
  {
    if |clauses| == 1 then CompileClause(clauses[0], lEnd, s)
    else
      var s1 := CompileClause(clauses[0], s.labels, s.(labels := s.labels + 1));
      CompileClauses(clauses[1..], lEnd, Emit(Emit(s1, Goto(lEnd)), LabelI(s.labels)))
  }

  function CompileClause(c: Clause, next: nat, s: CState): (t: CState)
    ensures Extends(s, t)
    decreases c, 4
  {
    CompileAdd(c.body, CompileJumpIf(next, NewUnary(NOT1, c.test), s))
  }

  function DefaultCount(cases: seq<Case>): nat {
    if cases == [] then 0 else (if cases[0].Default? then 1 else 0) + DefaultCount(cases[1..])
  }

  /** The labels that the loop over the cases carries from one case to the next: l_this,
      l_this_fallthrough, l_default and l_break. */
  datatype CaseLabels = CaseLabels(this_: Option<nat>, thisFall: Option<nat>, default_: Option<nat>, end: nat)

  function FirstCase(lBreak: nat): CaseLabels { CaseLabels(None, None, None, lBreak) }

  function EmitOptLabel(s: CState, l: Option<nat>): CState {
    if l.Some? then Emit(s, LabelI(l.value)) else s
  }

  function HeadStart(last: bool, ls: CaseLabels, s: CState): (t: CState)
    ensures Extends(s, t)
  {
    EmitOptLabel(if last then s else s.(labels := s.labels + 2), ls.this_)
  }

  /** What one case emits before its body, and the labels that the next case gets. */
  function CaseHead(c: Case, last: bool, v: Expr, ls: CaseLabels, s: CState): (r: (CaseLabels, CState))
    ensures Extends(s, r.1)
    ensures r.0.this_.Some? && r.0.thisFall.Some? && r.0.end == ls.end
  {
    var next := if last then (if ls.default_.Some? then ls.default_.value else ls.end) else s.labels;
    var fall := if last then ls.end else s.labels + 1;
    var s1 := HeadStart(last, ls, s);
    if c.Case? then
      var s2 := CompileJumpIf(next, Binary(Bool, NEQ, v, c.expr), s1);
      (CaseLabels(Some(next), Some(fall), ls.default_, ls.end), EmitOptLabel(s2, ls.thisFall))
    else if last then
      (CaseLabels(Some(next), Some(fall), ls.default_, ls.end), EmitOptLabel(s1, ls.thisFall))
    else
      var s2 := Emit(s1, Goto(next));
      var (here, s3) := if ls.thisFall.Some? then (ls.thisFall.value, s2)
                        else (s2.labels, s2.(labels := s2.labels + 1));
      (CaseLabels(Some(next), Some(fall), Some(here), ls.end), Emit(s3, LabelI(here)))
  }

  function CompileSwitch(st: Stmt, s: CState): (t: CState)
    requires st.Switch?
    ensures Extends(s, t)
    decreases st, 1
  {
    if DefaultCount(st.cases) > 1 then Error(s)
    else
      var (v, s1) := ToVar(st.expr, s);
      Emit(CompileCases(st.cases, v, FirstCase(s1.labels), s1.(labels := s1.labels + 1)), LabelI(s1.labels))
  }

  function EnterCase(s: CState, lBreak: nat, lFall: nat): CState {
    s.(breaks := s.breaks + [lBreak], fallthroughs := s.fallthroughs + [lFall])
  }

  function ExitCase(s: CState): CState
    requires s.breaks != [] && s.fallthroughs != []
  {
    s.(breaks := s.breaks[..|s.breaks| - 1], fallthroughs := s.fallthroughs[..|s.fallthroughs| - 1])
  }

  /** exit_case() undoes enter_case(), likewise. */
  lemma CaseScopeEnds(s: CState, t: CState, lBreak: nat, lFall: nat)
    requires Extends(EnterCase(s, lBreak, lFall), t)
    ensures t.breaks != [] && t.fallthroughs != [] && Extends(s, ExitCase(t)) && ExitCase(t).node == t.node
    ensures ExitCase(EnterCase(s, lBreak, lFall)) == s
  {
    assert (s.breaks + [lBreak])[..|s.breaks|] == s.breaks;
    assert (s.fallthroughs + [lFall])[..|s.fallthroughs|] == s.fallthroughs;
  }

  function CaseBody(c: Case, last: bool, ls: CaseLabels, s: CState): (t: CState)
    requires ls.thisFall.Some?
    ensures Extends(s, t)
    decreases c, 4
  {
    var s1 := ExitCase(CompileAdd(c.body, EnterCase(s, ls.end, ls.thisFall.value)));
    if last then s1 else Emit(s1, Goto(ls.end))
  }

  function CompileCases(cases: seq<Case>, v: Expr, ls: CaseLabels, s: CState): (t: CState)
    ensures Extends(s, t)
    decreases cases, 0
  {
    if cases == [] then s
    else
      var last := |cases| == 1;
      var (ls1, s1) := CaseHead(cases[0], last, v, ls, s);
      CompileCases(cases[1..], v, ls1, CaseBody(cases[0], last, ls1, s1))
  }

  // ---------------------------------------------------------------- functions

  predicate IsReturn(i: Instr) { i.Ret? }

  /** The address label and the parameters, which are the function's first two instructions. */
  function FuncStart(params: seq<nat>, vars: nat): CState {
    var s := Emit(CState([], [], [], [], 1, vars, 0), LabelI(0));
    if params == [] then s else Emit(s, SetParams(params))
  }

  function FuncBody(params: seq<nat>, body: Stmt, vars: nat): CState { CompileAdd(body, FuncStart(params, vars)) }

  /** compile(Func): a return is added unless the body ends in one. */
  function CompileFunc(params: seq<nat>, body: Stmt, vars: nat): CState {
    var s := FuncBody(params, body, vars);
    if IsReturn(s.node[|s.node| - 1]) then s else Emit(s, Ret)
  }
}
