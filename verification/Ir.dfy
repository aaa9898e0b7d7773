/** Expression trees of the intermediate representation and their run-time meaning. */
module Ir {
  import opened Bits
  import opened Values

  datatype Expr =
    | Var(kind: Kind, id: nat)
    | Const(kind: Kind, num: int)
    | Unary(kind: Kind, op1: Op1, x: Expr)
    | Binary(kind: Kind, op2: Op2, x: Expr, y: Expr)
    | Tuple(kind: Kind, opn: OpN, args: seq<Expr>)

  const VOID_CONST: Expr := Const(Void, 0)

  function ConstValue(e: Expr): Value
    requires e.Const?
  {
    Val(e.kind, e.num)
  }

  /** Unary::create() and Binary::create() choose the kind of the node themselves. */
  function NewUnary(op: Op1, x: Expr): Expr { Unary(if op == NOT1 then Bool else x.kind, op, x) }

  function NewBinary(op: Op2, x: Expr, y: Expr): Expr {
    Binary(if op in {SUB, QUO, REM, SHL, SHR} then x.kind else Bool, op, x, y)
  }

  function Size(e: Expr): (n: nat)
    ensures n >= 1
  {
    match e
    case Var(_, _) => 1
    case Const(_, _) => 1
    case Unary(_, _, x) => 1 + Size(x)
    case Binary(_, _, x, y) => 1 + Size(x) + Size(y)
    case Tuple(_, _, args) => 1 + SizeAll(args)
  }

  function SizeAll(es: seq<Expr>): nat {
    if es == [] then 0 else Size(es[0]) + SizeAll(es[1..])
  }

  lemma {:induction false} SizeAllConcat(a: seq<Expr>, b: seq<Expr>)
    ensures SizeAll(a + b) == SizeAll(a) + SizeAll(b)
  {
    if a == [] {
      assert a + b == b;
    } else {
      assert (a + b)[1..] == a[1..] + b;
      SizeAllConcat(a[1..], b);
    }
  }

  // ---------------------------------------------------------------- evaluation

  /** What each variable holds; a read delivers it at the kind of the variable. */
  type Env = map<nat, int>

  function Read(env: Env, id: nat): int { if id in env then env[id] else 0 }

  /** && and || evaluate their right operand only when it decides. */
  function Eval(e: Expr, env: Env): Value {
    match e
    case Var(k, id) => Val(k, Wrap(k, Read(env, id)))
    case Const(k, n) => Val(k, n)
    case Unary(k, op, x) =>
      var v := Eval(x, env);
      if v.Invalid? then Invalid else EvalUnaryOp(k, op, v)
    case Binary(_, op, x, y) =>
      var v := Eval(x, env);
      if op == LAND && v == FromBool(false) then v
      else if op == LOR && v == FromBool(true) then v
      else EvalBinaryOp(op, v, Eval(y, env))
    case Tuple(k, op, args) => EvalTupleOp(k, op, EvalAll(args, env))
  }

  function EvalAll(es: seq<Expr>, env: Env): (vs: seq<Value>)
    ensures |vs| == |es|
    ensures forall i :: 0 <= i < |es| ==> vs[i] == Eval(es[i], env)
  {
    if es == [] then [] else [Eval(es[0], env)] + EvalAll(es[1..], env)
  }

  /** Every kind has the identity element eval_tuple_op() starts from, except MAX on the
      signed kinds whose minimum Value::min() does not sign-extend. */
  predicate HasIdentity(k: Kind, op: OpN) { !(op == MAX && (k == Int8 || k == Int16 || k == Int32)) }

  predicate Typed(e: Expr)
    decreases e, 1
  {
    match e
    case Var(_, _) => true
    case Const(k, n) => Canonical(k, n)
    case Unary(k, op, x) =>
      Typed(x) && (if op == NOT1 then k == Bool else op == CAST || op == BITCOPY || k == x.kind)
    case Binary(k, op, x, y) =>
      && Typed(x) && Typed(y) && x.kind == y.kind
      && (if op in {SUB, QUO, REM, SHL, SHR} then k == x.kind
          else k == Bool && (op == LAND || op == LOR ==> x.kind == Bool))
    case Tuple(k, op, args) => HasIdentity(k, op) && AllTyped(args, k)
  }

  predicate AllTyped(es: seq<Expr>, k: Kind)
    decreases es, 0
  {
    es == [] || (Typed(es[0]) && es[0].kind == k && AllTyped(es[1..], k))
  }

  lemma JoinCanonical(k: Kind, op: OpN, a: int, b: int)
    requires Canonical(k, a) && Canonical(k, b)
    ensures Canonical(k, Join(k, op, a, b))
  {
    WrapCanonical(k, a + b);
    WrapCanonical(k, a * b);
    CanonicalRange(k, a);
    CanonicalRange(k, b);
    if IsBitwise(op) {
      var f := match op case AND => AndFn case OR => OrFn case _ => XorFn;
      CanonicalRange(k, BitOp(f, a, b));
      KeepsRange(f, a, b, if IsSigned(k) then BitSize(k) - 1 else BitSize(k));
    }
  }

  lemma FoldCanonical(k: Kind, op: OpN, x: Value, vs: seq<Value>)
    requires x.Invalid? || CanonicalOf(k, x)
    requires forall v <- vs :: v.Invalid? || CanonicalOf(k, v)
    ensures var r := FoldFrom(op, x, vs); r.Invalid? || CanonicalOf(k, r)
    decreases |vs|
  {
    if vs != [] {
      assert vs[0] in vs;
      if x.Val? && vs[0].Val? {
        JoinCanonical(k, op, x.num, vs[0].num);
      }
      FoldCanonical(k, op, TupleStep(op, x, vs[0]), vs[1..]);
    }
  }

  lemma IdentityCanonical(k: Kind, op: OpN)
    requires HasIdentity(k, op)
    ensures CanonicalOf(k, IdentityN(k, op))
  {
    match op
    case MUL => WrapCanonical(k, 1);
    case AND => WrapCanonical(k, -1);
    case MAX => CanonicalRange(k, MinValue(k).num);
    case MIN => CanonicalRange(k, MaxValue(k).num);
    case _ => CanonicalRange(k, 0);
  }

  lemma BinaryCanonical(k: Kind, op: Op2, a: int, b: int)
    ensures var r := EvalBinaryOp(op, Val(k, a), Val(k, b)); r.Val? ==>
      CanonicalOf(if op in {SUB, QUO, REM, SHL, SHR} then k else Bool, r)
  {
    CanonicalRange(Bool, 0);
    CanonicalRange(Bool, 1);
    if op in {SUB, QUO, REM, SHL, SHR} {
      ArithmeticCanonical(op, k, a, b);
    }
  }

  lemma ArithmeticCanonical(op: Op2, k: Kind, a: int, b: int)
    ensures var r := EvalArithmetic(op, k, a, b); r.Val? ==> CanonicalOf(k, r)
  {
    forall x: int ensures Canonical(k, Wrap(k, x)) {
      WrapCanonical(k, x);
    }
  }

  lemma UnaryCanonical(k: Kind, op: Op1, v: Value)
    requires v.Val? && Canonical(v.kind, v.num)
    requires if op == NOT1 then k == Bool else op == CAST || op == BITCOPY || k == v.kind
    ensures CanonicalOf(k, EvalUnaryOp(k, op, v))
  {
    CanonicalRange(Bool, 0);
    CanonicalRange(Bool, 1);
    WrapCanonical(v.kind, -v.num - 1);
    WrapCanonical(v.kind, -v.num);
    WrapCanonical(k, v.num);
  }

  /** A typed expression evaluates to a canonical value of its kind, or to nothing. */
  lemma {:induction false} EvalTyped(e: Expr, env: Env)
    requires Typed(e)
    ensures var v := Eval(e, env); v.Val? ==> CanonicalOf(e.kind, v)
    decreases e, 1
  {
    match e
    case Var(k, id) => WrapCanonical(k, Read(env, id));
    case Const(_, _) =>
    case Unary(k, op, x) =>
      EvalTyped(x, env);
      if Eval(x, env).Val? {
        UnaryCanonical(k, op, Eval(x, env));
      }
    case Binary(_, op, x, y) =>
      EvalTyped(x, env);
      EvalTyped(y, env);
      if Eval(x, env).Val? && Eval(y, env).Val? {
        BinaryCanonical(x.kind, op, Eval(x, env).num, Eval(y, env).num);
      }
    case Tuple(k, op, args) =>
      EvalAllTyped(args, k, env);
      IdentityCanonical(k, op);
      FoldCanonical(k, op, IdentityN(k, op), EvalAll(args, env));
  }

  lemma {:induction false} EvalAllTyped(es: seq<Expr>, k: Kind, env: Env)
    requires AllTyped(es, k)
    ensures forall v <- EvalAll(es, env) :: v.Invalid? || CanonicalOf(k, v)
    decreases es, 0
  {
    if es != [] {
      EvalTyped(es[0], env);
      EvalAllTyped(es[1..], k, env);
    }
  }

  // ---------------------------------------------------------------- variables read

  predicate VarsBelow(e: Expr, n: nat)
    decreases e, 1
  {
    match e
    case Var(_, id) => id < n
    case Const(_, _) => true
    case Unary(_, _, x) => VarsBelow(x, n)
    case Binary(_, _, x, y) => VarsBelow(x, n) && VarsBelow(y, n)
    case Tuple(_, _, args) => AllBelow(args, n)
  }

  predicate AllBelow(es: seq<Expr>, n: nat)
    decreases es, 0
  {
    es == [] || (VarsBelow(es[0], n) && AllBelow(es[1..], n))
  }

  /** The two environments hold the same in every variable below n. */
  ghost predicate Agree(n: nat, e1: Env, e2: Env) { forall id: nat :: id < n ==> Read(e1, id) == Read(e2, id) }

  lemma AgreeUpdate(n: nat, e1: Env, e2: Env, id: nat, x: int)
    requires Agree(n, e1, e2)
    ensures Agree(n, e1[id := x], e2[id := x])
  {
    forall k: nat {:trigger Read(e1, k)} | k < n ensures Read(e1[id := x], k) == Read(e2[id := x], k) {
      assert Read(e1, k) == Read(e2, k);
    }
  }

  lemma {:induction false} VarsBelowMore(e: Expr, n: nat, m: nat)
    requires VarsBelow(e, n) && n <= m
    ensures VarsBelow(e, m)
    decreases e, 1
  {
    match e
    case Var(_, _) =>
    case Const(_, _) =>
    case Unary(_, _, x) => VarsBelowMore(x, n, m);
    case Binary(_, _, x, y) => VarsBelowMore(x, n, m); VarsBelowMore(y, n, m);
    case Tuple(_, _, args) => AllBelowMore(args, n, m);
  }

  lemma {:induction false} AllBelowMore(es: seq<Expr>, n: nat, m: nat)
    requires AllBelow(es, n) && n <= m
    ensures AllBelow(es, m)
    decreases es, 0
  {
    if es != [] {
      VarsBelowMore(es[0], n, m);
      AllBelowMore(es[1..], n, m);
    }
  }

  /** Evaluation depends only on the variables an expression reads. */
  lemma {:induction false} EvalAgree(e: Expr, n: nat, e1: Env, e2: Env)
    requires VarsBelow(e, n) && Agree(n, e1, e2)
    ensures Eval(e, e1) == Eval(e, e2)
    decreases e, 1
  {
    match e
    case Var(_, _) =>
    case Const(_, _) =>
    case Unary(_, _, x) => EvalAgree(x, n, e1, e2);
    case Binary(_, _, x, y) => EvalAgree(x, n, e1, e2); EvalAgree(y, n, e1, e2);
    case Tuple(_, _, args) => EvalAllAgree(args, n, e1, e2);
  }

  lemma {:induction false} EvalAllAgree(es: seq<Expr>, n: nat, e1: Env, e2: Env)
    requires AllBelow(es, n) && Agree(n, e1, e2)
    ensures EvalAll(es, e1) == EvalAll(es, e2)
    decreases es, 0
  {
    if es != [] {
      EvalAgree(es[0], n, e1, e2);
      EvalAllAgree(es[1..], n, e1, e2);
    }
  }
}
