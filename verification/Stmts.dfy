/** Structured statements and what running them does: the input of onejit/compiler.cpp. */
module Stmts {
  import opened Values
  import opened Ir

  datatype AssignOp =
    | ADD_ASSIGN | SUB_ASSIGN | MUL_ASSIGN | QUO_ASSIGN | REM_ASSIGN | AND_ASSIGN
    | OR_ASSIGN | XOR_ASSIGN | SHL_ASSIGN | SHR_ASSIGN | ASSIGN

  datatype Option<+T> = None | Some(value: T)

  /** to_op2() and to_opn() of onejit/opstmt.cpp. */
  function ToOp2(op: AssignOp): Option<Op2> {
    match op
    case SUB_ASSIGN => Some(SUB)
    case QUO_ASSIGN => Some(QUO)
    case REM_ASSIGN => Some(REM)
    case SHL_ASSIGN => Some(SHL)
    case SHR_ASSIGN => Some(SHR)
    case _ => None
  }

  function ToOpN(op: AssignOp): Option<OpN> {
    match op
    case ADD_ASSIGN => Some(ADD)
    case MUL_ASSIGN => Some(MUL)
    case AND_ASSIGN => Some(AND)
    case OR_ASSIGN => Some(OR)
    case XOR_ASSIGN => Some(XOR)
    case _ => None
  }

  /** What `dst op= src` stores, from the values of dst and src. */
  function AssignValue(op: AssignOp, dst: Value, src: Value): Value {
    if op == ASSIGN then (if dst.Val? && src.Val? && dst.kind == src.kind then src else Invalid)
    else if ToOpN(op).Some? then TupleStep(ToOpN(op).value, dst, src)
    else EvalBinaryOp(ToOp2(op).value, dst, src)
  }

  datatype Stmt =
    | ExprStmt(e: Expr)
    | Assign(op: AssignOp, kind: Kind, id: nat, src: Expr)
    | Inc(kind: Kind, id: nat)
    | Dec(kind: Kind, id: nat)
    | If(test: Expr, then_: Stmt, else_: Stmt)
    | For(init: Stmt, test: Expr, post: Stmt, body: Stmt)
    | Cond(clauses: seq<Clause>)
    | Switch(expr: Expr, cases: seq<Case>)
    | Block(stmts: seq<Stmt>)
    | Break
    | Continue
    | Fallthrough

  datatype Clause = Clause(test: Expr, body: Stmt)
  datatype Case = Case(expr: Expr, body: Stmt) | Default(body: Stmt)

  /** The IR writes "no statement" as VoidConst. */
  const NO_STMT: Stmt := ExprStmt(VOID_CONST)

  // ---------------------------------------------------------------- execution

  datatype Outcome = Normal | Breaks | Continues | FallsThrough
  datatype Result = Done(outcome: Outcome, env: Env) | Fault | OutOfFuel {
    predicate Finished() { Done? && outcome == Normal }
  }

  function Store(env: Env, id: nat, v: Value): Result {
    if v.Val? then Done(Normal, env[id := v.num]) else Fault
  }

  /** Runs a statement; `fuel` bounds the iterations of nested loops. */
  function Exec(st: Stmt, env: Env, fuel: nat): Result
    decreases fuel, st, 1
  {
    match st
    case ExprStmt(e) => if Eval(e, env).Val? then Done(Normal, env) else Fault
    case Assign(op, k, id, src) => Store(env, id, AssignValue(op, Eval(Var(k, id), env), Eval(src, env)))
    case Inc(k, id) => Store(env, id, TupleStep(ADD, Eval(Var(k, id), env), Val(k, 1)))
    case Dec(k, id) => Store(env, id, EvalBinaryOp(SUB, Eval(Var(k, id), env), Val(k, 1)))
    case If(_, _, _) => ExecIf(st, env, fuel)
    case For(_, _, _, _) => ExecFor(st, env, fuel)
    case Cond(clauses) => ExecCond(clauses, env, fuel)
    case Switch(_, _) => ExecSwitch(st, env, fuel)
    case Block(stmts) => ExecBlock(stmts, env, fuel)
    case Break => Done(Breaks, env)
    case Continue => Done(Continues, env)
    case Fallthrough => Done(FallsThrough, env)
  }

  function ExecIf(st: Stmt, env: Env, fuel: nat): Result
    requires st.If?
    decreases fuel, st, 0
  {
    var v := Eval(st.test, env);
    if v.Invalid? then Fault else Exec(if Truth(v) then st.then_ else st.else_, env, fuel)
  }

  function ExecFor(st: Stmt, env: Env, fuel: nat): Result
    requires st.For?
    decreases fuel, st, 0
  {
    var r := Exec(st.init, env, fuel);
    if r.Finished() then Loop(st, r.env, fuel) else r
  }

  function ExecSwitch(st: Stmt, env: Env, fuel: nat): Result
    requires st.Switch?
    decreases fuel, st, 0
  {
    var v := Eval(st.expr, env);
    if v.Invalid? then Fault
    else
      match Select(st.cases, v, env)
      case None => Fault
      case Some(i) =>
        assert i == 0 ==> st.cases[i..] == st.cases;
        ExecCases(st.cases[i..], env, fuel)
  }

  /** Tests, runs the body and then `post`; `continue` goes on with `post`. */
  function Loop(st: Stmt, env: Env, fuel: nat): Result
    requires st.For?
    decreases fuel, st.body, 2
  {
    var v := Eval(st.test, env);
    if v.Invalid? then Fault
    else if !Truth(v) then Done(Normal, env)
    else if fuel == 0 then OutOfFuel
    else
      var r := Exec(st.body, env, fuel - 1);
      if !r.Done? || r.outcome == FallsThrough then r
      else if r.outcome == Breaks then Done(Normal, r.env)
      else LoopPost(st, r.env, fuel)
  }

  function LoopPost(st: Stmt, env: Env, fuel: nat): Result
    requires st.For? && fuel > 0
    decreases fuel, st.body, 1
  {
    var r := Exec(st.post, env, fuel - 1);
    if !r.Done? || r.outcome == FallsThrough then r
    else if r.outcome == Breaks then Done(Normal, r.env)
    else Loop(st, r.env, fuel - 1)
  }

  function ExecBlock(stmts: seq<Stmt>, env: Env, fuel: nat): Result
    decreases fuel, stmts
  {
    if stmts == [] then Done(Normal, env)
    else
      var r := Exec(stmts[0], env, fuel);
      if r.Finished() then ExecBlock(stmts[1..], r.env, fuel) else r
  }

  function ExecBody(c: Clause, env: Env, fuel: nat): Result
    decreases fuel, c
  {
    Exec(c.body, env, fuel)
  }

  /** Runs the body of the first clause whose test is true. */
  function ExecCond(clauses: seq<Clause>, env: Env, fuel: nat): Result
    decreases fuel, clauses
  {
    if clauses == [] then Done(Normal, env)
    else
      var v := Eval(clauses[0].test, env);
      if v.Invalid? then Fault
      else if Truth(v) then ExecBody(clauses[0], env, fuel)
      else ExecCond(clauses[1..], env, fuel)
  }

  /** The index of the case that v selects: the first equal case, else Default, else |cases|;
      None when evaluating a case fails first. */
  function Select(cases: seq<Case>, v: Value, env: Env): (i: Option<nat>)
    ensures i.Some? ==> i.value <= |cases|
  {
    match FirstMatch(cases, v, env)
    case None => None
    case Some(i) => Some(if i == |cases| then DefaultIndex(cases) else i)
  }

  function FirstMatch(cases: seq<Case>, v: Value, env: Env): (i: Option<nat>)
    ensures i.Some? ==> i.value <= |cases|
  {
    if cases == [] then Some(0)
    else if cases[0].Case? && EvalBinaryOp(EQL, v, Eval(cases[0].expr, env)).Invalid? then None
    else if cases[0].Case? && Eval(cases[0].expr, env) == v then Some(0)
    else
      match FirstMatch(cases[1..], v, env)
      case None => None
      case Some(i) => Some(i + 1)
  }

  function DefaultIndex(cases: seq<Case>): (i: nat)
    ensures i <= |cases|
  {
    if cases == [] || cases[0].Default? then 0 else 1 + DefaultIndex(cases[1..])
  }

  function ExecCase(c: Case, env: Env, fuel: nat): Result
    decreases fuel, c
  {
    Exec(c.body, env, fuel)
  }

  /** Runs the first body, and the next ones as long as they fall through. */
  function ExecCases(cases: seq<Case>, env: Env, fuel: nat): Result
    decreases fuel, cases, 0
  {
    if cases == [] then Done(Normal, env)
    else
      var r := ExecCase(cases[0], env, fuel);
      if !r.Done? || r.outcome == Continues then r
      else if r.outcome == FallsThrough then ExecCases(cases[1..], r.env, fuel)
      else Done(Normal, r.env)
  }

  /** Running it comes to an end, with enough fuel. */
  ghost predicate Ends(st: Stmt, env: Env) { exists fuel: nat :: Exec(st, env, fuel).Done? }

  /** Running it never does what C++ leaves undefined. */
  ghost predicate Faultless(st: Stmt, env: Env) { forall fuel: nat :: !Exec(st, env, fuel).Fault? }
}
