/** The flat code that lowering produces, and the machine that runs it. */
module Flat {
  import opened Values
  import opened Ir
  import opened Stmts

  datatype CondJump = BAD_ST3 | JA | JAE | JB | JBE | JE | JG | JGE | JL | JLE | JNE

  datatype Instr =
    | LabelI(index: nat)
    | Goto(target: nat)
    | Jump(op: CondJump, target: nat, x: Expr, y: Expr)
    | Let(aop: AssignOp, kind: Kind, id: nat, src: Expr)
    | IncI(kind: Kind, id: nat)
    | DecI(kind: Kind, id: nat)
    | Pure(e: Expr)
    | SetParams(params: seq<nat>)
    | Ret

  /** Whether a conditional jump is taken: "above"/"below" compare the operands as unsigned words of
      their width, "greater"/"less" as signed ones. */
  function Taken(op: CondJump, x: Value, y: Value): Option<bool> {
    if x.Invalid? || y.Invalid? || x.kind != y.kind then None
    else
      var m := Modulus(x.kind);
      Decides(op, Reduce(m, false, x.num), Reduce(m, false, y.num), Reduce(m, true, x.num), Reduce(m, true, y.num))
  }

  function Decides(op: CondJump, ux: int, uy: int, sx: int, sy: int): Option<bool> {
    match op
    case BAD_ST3 => None
    case JA => Some(ux > uy)
    case JAE => Some(ux >= uy)
    case JB => Some(ux < uy)
    case JBE => Some(ux <= uy)
    case JE => Some(ux == uy)
    case JNE => Some(ux != uy)
    case JG => Some(sx > sy)
    case JGE => Some(sx >= sy)
    case JL => Some(sx < sy)
    case JLE => Some(sx <= sy)
  }

  datatype Config = Config(pc: nat, env: Env)

  /** The position of a label. */
  function Find(p: seq<Instr>, l: nat): (i: Option<nat>)
    ensures i.Some? ==> i.value < |p| && p[i.value] == LabelI(l)
    ensures i.None? ==> LabelI(l) !in p
  {
    if p == [] then None
    else if p[|p| - 1] == LabelI(l) then Some(|p| - 1)
    else Find(p[..|p| - 1], l)
  }

  function JumpTo(p: seq<Instr>, l: nat, env: Env): Option<Config> {
    match Find(p, l)
    case None => None
    case Some(i) => Some(Config(i, env))
  }

  function StoreNext(c: Config, id: nat, v: Value): Option<Config> {
    if v.Val? then Some(Config(c.pc + 1, c.env[id := v.num])) else None
  }

  /** One step of the machine; None when it stops or fails. */
  function Step(p: seq<Instr>, c: Config): Option<Config> {
    if c.pc >= |p| then None
    else
      match p[c.pc]
      case LabelI(_) => Some(c.(pc := c.pc + 1))
      case SetParams(_) => Some(c.(pc := c.pc + 1))
      case Goto(l) => JumpTo(p, l, c.env)
      case Jump(op, l, x, y) =>
        (match Taken(op, Eval(x, c.env), Eval(y, c.env))
         case None => None
         case Some(b) => if b then JumpTo(p, l, c.env) else Some(c.(pc := c.pc + 1)))
      case Let(op, k, id, src) =>
        StoreNext(c, id, AssignValue(op, Eval(Var(k, id), c.env), Eval(src, c.env)))
      case IncI(k, id) => StoreNext(c, id, TupleStep(ADD, Eval(Var(k, id), c.env), Val(k, 1)))
      case DecI(k, id) => StoreNext(c, id, EvalBinaryOp(SUB, Eval(Var(k, id), c.env), Val(k, 1)))
      case Pure(e) => if Eval(e, c.env).Val? then Some(c.(pc := c.pc + 1)) else None
      case Ret => None
  }

  function Run(p: seq<Instr>, c: Config, n: nat): Option<Config>
    decreases n
  {
    if n == 0 then Some(c)
    else
      match Step(p, c)
      case None => None
      case Some(d) => Run(p, d, n - 1)
  }

  ghost predicate Reaches(p: seq<Instr>, c: Config, d: Config) { exists n: nat :: Run(p, c, n) == Some(d) }

  /** The machine comes to where it cannot go on. */
  ghost predicate Stops(p: seq<Instr>, c: Config) { exists n: nat :: Run(p, c, n).None? }

  lemma ReachesSelf(p: seq<Instr>, c: Config)
    ensures Reaches(p, c, c)
  {
    assert Run(p, c, 0) == Some(c);
  }

  lemma {:induction false} RunConcat(p: seq<Instr>, c: Config, d: Config, n: nat, m: nat)
    requires Run(p, c, n) == Some(d)
    ensures Run(p, c, n + m) == Run(p, d, m)
    decreases n
  {
    if n > 0 {
      RunConcat(p, Step(p, c).value, d, n - 1, m);
    }
  }

  lemma ReachesTrans(p: seq<Instr>, c: Config, d: Config, e: Config)
    requires Reaches(p, c, d) && Reaches(p, d, e)
    ensures Reaches(p, c, e)
  {
    var n: nat :| Run(p, c, n) == Some(d);
    var m: nat :| Run(p, d, m) == Some(e);
    RunConcat(p, c, d, n, m);
  }

  lemma StepReaches(p: seq<Instr>, c: Config, d: Config)
    requires Step(p, c) == Some(d)
    ensures Reaches(p, c, d)
  {
    assert Run(p, d, 0) == Some(d);
    assert Run(p, c, 1) == Some(d);
  }

  /** No label stands at two places. */
  ghost predicate UniqueLabels(p: seq<Instr>) {
    p == [] || (UniqueLabels(p[..|p| - 1]) && (p[|p| - 1].LabelI? ==> p[|p| - 1] !in p[..|p| - 1]))
  }

  lemma {:induction false} FindPlaced(p: seq<Instr>, i: nat)
    requires UniqueLabels(p) && i < |p| && p[i].LabelI?
    ensures Find(p, p[i].index) == Some(i)
  {
    if i < |p| - 1 {
      assert p[i] == p[..|p| - 1][i];
      FindPlaced(p[..|p| - 1], i);
    }
  }
}
