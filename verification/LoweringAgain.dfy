/** What compile(Expr) makes of expressions that it has made, and which ones it leaves alone. */
module LoweringAgain {
  import opened Values
  import opened Ir
  import opened Lowering

  /** What compile(Expr) leaves alone. */
  predicate Compiled(e: Expr) {
    match e
    case Var(_, _) => true
    case Const(_, _) => true
    case Unary(_, _, x) => Compiled(x)
    case Binary(_, op, x, y) =>
      Compiled(x) && Compiled(y) && (op == LAND || op == LOR ==> !x.Const? && y.Var?)
    case Tuple(_, _, args) => |args| > 1 && AllLeaves(args)
  }

  lemma {:induction false} LeavesSize(es: seq<Expr>)
    requires AllLeaves(es)
    ensures SizeAll(es) == |es|
  {
    if es != [] {
      LeavesSize(es[1..]);
    }
  }

  lemma {:induction false} SizeAtLeast(es: seq<Expr>)
    ensures SizeAll(es) >= |es|
  {
    if es != [] {
      SizeAtLeast(es[1..]);
    }
  }

  lemma LargerThanLeaf(e: Expr)
    requires Compiled(e) && !IsLeaf(e)
    ensures Size(e) > 1
  {
    if e.Tuple? {
      SizeAtLeast(e.args);
    }
  }

  /** Compiling gives compiled expressions that are no larger. */
  lemma {:induction false} CompiledResult(e: Expr, s: CState)
    ensures var r := CompileExpr(e, s).0; Compiled(r) && Size(r) <= Size(e)
    decreases e, 1
  {
    match e
    case Var(_, _) =>
    case Const(_, _) =>
    case Unary(_, _, x) => CompiledResult(x, s);
    case Binary(_, _, x, y) =>
      CompiledResult(x, s);
      CompiledResult(y, CompileExpr(x, s).1);
      BinaryResult(e, s);
    case Tuple(_, _, args) =>
      ArgsResult(args, s);
      TupleResult(e, s);
  }

  lemma BinaryResult(e: Expr, s: CState)
    requires e.Binary?
    requires var (x, y) := (CompileExpr(e.x, s).0, CompileExpr(e.y, CompileExpr(e.x, s).1).0);
      Compiled(x) && Size(x) <= Size(e.x) && Compiled(y) && Size(y) <= Size(e.y)
    ensures var r := CompileExpr(e, s).0; Compiled(r) && Size(r) <= Size(e)
  {
    var (x, s1) := CompileExpr(e.x, s);
    var (y, s2) := CompileExpr(e.y, s1);
    var same := if x != e.x || y != e.y then NewBinary(e.op2, x, y) else e;
    SameResult(e, x, y, same);
    if e.op2 == LAND || e.op2 == LOR {
      BooleanResult(e.op2 == LAND, x, y, same, s2, Size(e));
    }
  }

  lemma SameResult(e: Expr, x: Expr, y: Expr, same: Expr)
    requires e.Binary? && same == if x != e.x || y != e.y then NewBinary(e.op2, x, y) else e
    requires Compiled(x) && Size(x) <= Size(e.x) && Compiled(y) && Size(y) <= Size(e.y)
    ensures same.Binary? && same.op2 == e.op2 && same.x == x && same.y == y && Size(same) <= Size(e)
    ensures Size(x) + Size(y) < Size(e) && (e.op2 != LAND && e.op2 != LOR ==> Compiled(same))
  {
  }

  /** simplify_land() and simplify_lor() give compiled expressions of no more than n nodes. */
  lemma BooleanResult(land: bool, x: Expr, y: Expr, same: Expr, s: CState, n: nat)
    requires Compiled(x) && Compiled(y) && same.Binary? && same.x == x && same.y == y && Size(x) + Size(y) < n
    ensures var r := SimplifyBoolean(land, x, y, same, s).0; Compiled(r) && Size(r) <= n
  {
  }

  lemma TupleResult(e: Expr, s: CState)
    requires e.Tuple? && AllLeaves(CompileArgs(e.args, s).0)
    ensures var r := CompileExpr(e, s).0; Compiled(r) && Size(r) <= Size(e)
  {
    SizeAtLeast(e.args);
    LeavesSize(CompileArgs(e.args, s).0);
  }

  lemma {:induction false} ArgsResult(es: seq<Expr>, s: CState)
    ensures AllLeaves(CompileArgs(es, s).0)
    decreases es, 0
  {
    if es != [] {
      var c := CompileExpr(es[0], s);
      var leaf := ToVarConst(c.0, c.1);
      ArgsResult(es[1..], leaf.1);
      assert ([leaf.0] + CompileArgs(es[1..], leaf.1).0)[1..] == CompileArgs(es[1..], leaf.1).0;
    }
  }

  /** Compiling is idempotent: a compiled expression stays as it is and emits nothing. */
  lemma {:induction false} CompiledAgain(e: Expr, s: CState)
    requires Compiled(e)
    ensures CompileExpr(e, s) == (e, s)
  {
    match e
    case Var(_, _) =>
    case Const(_, _) =>
    case Unary(_, _, x) => CompiledAgain(x, s);
    case Binary(_, _, x, y) =>
      CompiledAgain(x, s);
      CompiledAgain(y, s);
    case Tuple(_, _, args) => LeavesAgain(args, s);
  }

  lemma {:induction false} LeavesAgain(es: seq<Expr>, s: CState)
    requires AllLeaves(es)
    ensures CompileArgs(es, s) == (es, s)
  {
    if es != [] {
      LeavesAgain(es[1..], s);
      assert es == [es[0]] + es[1..];
    }
  }

  /** Compiled() says exactly which expressions compiling gives back. */
  lemma CompiledExact(e: Expr, s: CState)
    ensures CompileExpr(e, s).0 == e <==> Compiled(e)
    ensures Compiled(e) ==> CompileExpr(e, s).1 == s
  {
    CompiledResult(e, s);
    if Compiled(e) {
      CompiledAgain(e, s);
    }
  }
}
