/** The optimizer keeps the value of expressions. */
module OptimizerMeaning {
  import opened Bits
  import opened Values
  import opened Ir
  import opened Imm
  import opened Monoid
  import opened Nodes
  import opened Optimizing

  // ---------------------------------------------------------------- the expressions it is right on

  /** The operators that are simplified when deep_equal() finds the operands equal. */
  predicate Compared(op: Op2) { op == SUB || op == QUO || op == REM || IsComparison(op) }

  /** Every constant of such a kind is direct. */
  predicate Narrow(k: Kind) { BitSize(k) <= 16 }

  predicate NarrowIf(narrow: bool, k: Kind) { narrow ==> Narrow(k) }

  /** deep_equal() ignores the value of indirect leaves, so the operands of a subtraction, division or
      comparison have narrow kinds throughout and variables with direct ids; `x - 1` needs no such
      care. Anything else may have any kind. COMMA is out: its constants fold to the identity. */
  predicate Exact(e: Expr, narrow: bool)
    decreases e, 1
  {
    match e
    case Var(k, id) => NarrowIf(narrow, k) && (narrow ==> id < 0x20_0000)
    case Const(k, _) => NarrowIf(narrow, k)
    case Unary(k, _, x) => NarrowIf(narrow, k) && Exact(x, narrow)
    case Binary(k, op, x, y) =>
      && NarrowIf(narrow, k)
      && var n := narrow || (Compared(op) && !(op == SUB && y == OneConst(x.kind))); Exact(x, n) && Exact(y, n)
    case Tuple(k, op, args) => op != COMMA && NarrowIf(narrow, k) && AllExact(args, narrow)
  }

  predicate AllExact(es: seq<Expr>, narrow: bool)
    decreases es, 0
  {
    es == [] || (Exact(es[0], narrow) && AllExact(es[1..], narrow))
  }

  lemma {:induction false} ExactWeaker(e: Expr, narrow: bool)
    requires Exact(e, true)
    ensures Exact(e, narrow)
    decreases e, 1
  {
    match e
    case Var(_, _) =>
    case Const(_, _) =>
    case Unary(_, _, x) => ExactWeaker(x, narrow);
    case Binary(_, op, x, y) =>
      var n := narrow || (Compared(op) && !(op == SUB && y == OneConst(x.kind)));
      ExactWeaker(x, n);
      ExactWeaker(y, n);
    case Tuple(_, _, args) => AllExactWeaker(args, narrow);
  }

  lemma {:induction false} AllExactWeaker(es: seq<Expr>, narrow: bool)
    requires AllExact(es, true)
    ensures AllExact(es, narrow)
    decreases es, 0
  {
    if es != [] {
      ExactWeaker(es[0], narrow);
      AllExactWeaker(es[1..], narrow);
    }
  }

  /** Every leaf of a typed, narrow expression is direct. */
  lemma {:induction false} NarrowIsDirect(e: Expr)
    requires Typed(e) && Exact(e, true)
    ensures DirectLeaves(e)
    decreases e, 1
  {
    match e
    case Var(_, _) =>
    case Const(k, n) => NarrowConst(k, n);
    case Unary(_, _, x) => NarrowIsDirect(x);
    case Binary(_, _, x, y) => NarrowIsDirect(x); NarrowIsDirect(y);
    case Tuple(k, _, args) => AllNarrowDirect(args, k);
  }

  lemma {:induction false} AllNarrowDirect(es: seq<Expr>, k: Kind)
    requires AllTyped(es, k) && AllExact(es, true)
    ensures AllDirectLeaves(es)
    decreases es, 0
  {
    if es != [] {
      NarrowIsDirect(es[0]);
      AllNarrowDirect(es[1..], k);
    }
  }

  lemma NarrowConst(k: Kind, n: int)
    requires Narrow(k) && Canonical(k, n)
    ensures Encode(k, n) != 0
  {
    CanonicalRange(k, n);
    Pow2Word();
    if k != Void {
      SmallIsDirect(k, n);
    }
  }

  lemma OneIsDirect(k: Kind)
    ensures Typed(OneConst(k)) && IsDirect(OneConst(k)) && Canonical(k, Wrap(k, 1))
  {
    WrapHomomorphism(k, 1, 0);
    OneOf(k);
    if k != Void {
      SmallIsDirect(k, Wrap(k, 1));
    }
  }

  /** Operands that deep_equal() takes for equal are equal. */
  lemma EqualOperands(op: Op2, x: Expr, y: Expr, narrow: bool, division: bool)
    requires Compared(op) && Typed(x) && Typed(y) && x.kind == y.kind
    requires Exact(Binary(x.kind, op, x, y), narrow) && DeepEqual(x, y, division)
    ensures x == y
  {
    if op == SUB && y == OneConst(x.kind) {
      OneIsDirect(x.kind);
      DirectSame(x, y);
    } else {
      NarrowIsDirect(x);
      NarrowIsDirect(y);
      DeepEqualExact(x, y, division);
    }
  }

  // ---------------------------------------------------------------- what a rewrite keeps

  ghost predicate SameMeaning(e: Expr, r: Expr, env: Env) { Eval(e, env).Val? ==> Eval(r, env) == Eval(e, env) }

  /** r may replace e: same kind, well typed, again in the domain, same value. */
  ghost predicate Replaces(e: Expr, r: Expr, narrow: bool, env: Env) {
    r.kind == e.kind && Typed(r) && Exact(r, narrow) && SameMeaning(e, r, env)
  }

  lemma ConstReplaces(e: Expr, k: Kind, n: int, narrow: bool, env: Env)
    requires e.kind == k && Canonical(k, n) && NarrowIf(narrow, k) && SameMeaning(e, Const(k, n), env)
    ensures Replaces(e, Const(k, n), narrow, env)
  {
  }

  // ---------------------------------------------------------------- unary

  lemma UnaryReplaced(o: Opts, k: Kind, op: Op1, x: Expr, narrow: bool, env: Env)
    requires Typed(Unary(k, op, x)) && Exact(Unary(k, op, x), narrow)
    ensures TryUnary(o, k, op, x).Some? ==> Replaces(Unary(k, op, x), TryUnary(o, k, op, x).value, narrow, env)
  {
    if o.fold && x.Const? {
      UnaryCanonical(k, op, ConstValue(x));
    } else if SimplifyUnary(k, op, x).Some? {
      EvalTyped(x, env);
      UnarySimplified(k, op, x, narrow, env);
    }
  }

  lemma UnarySimplified(k: Kind, op: Op1, x: Expr, narrow: bool, env: Env)
    requires Typed(Unary(k, op, x)) && Exact(Unary(k, op, x), narrow) && SimplifyUnary(k, op, x).Some?
    requires Eval(x, env).Val? ==> CanonicalOf(x.kind, Eval(x, env))
    ensures Replaces(Unary(k, op, x), SimplifyUnary(k, op, x).value, narrow, env)
  {
    if x.Unary? && (op == XOR1 || op == NEG1) && (x.op1 == XOR1 || x.op1 == NEG1) {
      PairReplaced(k, op, x, narrow, env);
    } else if x.Binary? && op == NOT1 && IsComparison(x.op2) {
      NotReplaces(x, env);
    }
  }

  lemma PairReplaced(k: Kind, op: Op1, x: Expr, narrow: bool, env: Env)
    requires Typed(Unary(k, op, x)) && Exact(Unary(k, op, x), narrow)
    requires x.Unary? && (op == XOR1 || op == NEG1) && (x.op1 == XOR1 || x.op1 == NEG1)
    ensures Replaces(Unary(k, op, x), SimplifyUnary(k, op, x).value, narrow, env)
  {
    assert Typed(x) && x.kind == k && x.x.kind == k && Exact(x, narrow);
    var r := SimplifyUnary(k, op, x).value;
    EvalTyped(x.x, env);
    PairValue(k, op, x, env);
    if op == x.op1 {
      assert r == x.x;
    } else if op == NEG1 {
      PlusOne(x.x, narrow, env);
      assert r == Plus(x.x, OneConst(k));
    } else {
      MinusOneReplaces(x.x, narrow, env);
      assert r == NewBinary(SUB, x.x, OneConst(k));
    }
  }

  /** What two complements or negations in a row give. */
  function PairResult(k: Kind, op: Op1, inner: Op1, n: int): Value {
    if op == inner then Val(k, n)
    else if op == NEG1 then Val(k, Wrap(k, n + Wrap(k, 1)))
    else Val(k, Wrap(k, n - Wrap(k, 1)))
  }

  lemma PairValues(k: Kind, op: Op1, inner: Op1, n: int)
    requires Canonical(k, n) && (op == XOR1 || op == NEG1) && (inner == XOR1 || inner == NEG1)
    ensures EvalUnaryOp(k, op, EvalUnaryOp(k, inner, Val(k, n))) == PairResult(k, op, inner, n)
  {
    var w := if inner == XOR1 then Wrap(k, -n - 1) else Wrap(k, -n);
    assert EvalUnaryOp(k, inner, Val(k, n)) == Val(k, w);
    assert EvalUnaryOp(k, op, Val(k, w)) == Val(k, if op == XOR1 then Wrap(k, -w - 1) else Wrap(k, -w));
    PairNumber(k, op, inner, n, w);
  }

  lemma PairNumber(k: Kind, op: Op1, inner: Op1, n: int, w: int)
    requires Canonical(k, n) && (op == XOR1 || op == NEG1) && (inner == XOR1 || inner == NEG1)
    requires w == if inner == XOR1 then Wrap(k, -n - 1) else Wrap(k, -n)
    ensures Val(k, if op == XOR1 then Wrap(k, -w - 1) else Wrap(k, -w)) == PairResult(k, op, inner, n)
  {
    NegationPairs(k, n);
  }

  lemma PairValue(k: Kind, op: Op1, x: Expr, env: Env)
    requires Typed(Unary(k, op, x))
    requires x.Unary? && (op == XOR1 || op == NEG1) && (x.op1 == XOR1 || x.op1 == NEG1)
    ensures var v := Eval(x.x, env);
      Eval(Unary(k, op, x), env).Val? ==>
        CanonicalOf(k, v) && Eval(Unary(k, op, x), env) == PairResult(k, op, x.op1, v.num)
  {
    assert Typed(x) && x.kind == k && x.x.kind == k;
    var v := Eval(x.x, env);
    EvalTyped(x.x, env);
    if v.Val? {
      PairValues(k, op, x.op1, v.num);
      assert Eval(x, env) == EvalUnaryOp(k, x.op1, v);
      assert Eval(Unary(k, op, x), env) == EvalUnaryOp(k, op, EvalUnaryOp(k, x.op1, v));
    } else {
      assert Eval(x, env).Invalid?;
    }
  }

  lemma MinusOneReplaces(x: Expr, narrow: bool, env: Env)
    requires Typed(x) && Exact(x, narrow) && NarrowIf(narrow, x.kind)
    requires Eval(x, env).Val? ==> CanonicalOf(x.kind, Eval(x, env))
    ensures var r := NewBinary(SUB, x, OneConst(x.kind));
      && Typed(r) && Exact(r, narrow)
      && (Eval(x, env).Val? ==> Eval(r, env) == PairResult(x.kind, XOR1, NEG1, Eval(x, env).num))
  {
    var one := OneConst(x.kind);
    OneIsDirect(x.kind);
    assert Eval(one, env) == Val(x.kind, Wrap(x.kind, 1));
    assert Eval(NewBinary(SUB, x, one), env) == EvalBinaryOp(SUB, Eval(x, env), Eval(one, env));
    if Eval(x, env).Val? {
      PairSteps(x.kind, Eval(x, env).num);
    }
  }

  /** Complement and negation in pairs, modulo 2^bits. */
  lemma NegationPairs(k: Kind, n: int)
    requires Canonical(k, n)
    ensures Wrap(k, -Wrap(k, -n - 1) - 1) == n && Wrap(k, -Wrap(k, -n)) == n
    ensures Wrap(k, -Wrap(k, -n - 1)) == Wrap(k, n + Wrap(k, 1)) && Wrap(k, -Wrap(k, -n) - 1) == Wrap(k, n - Wrap(k, 1))
  {
    NegationTwice(k, n);
    NegationMixed(k, n);
  }

  lemma NegationTwice(k: Kind, n: int)
    requires Canonical(k, n)
    ensures Wrap(k, -Wrap(k, -n - 1) - 1) == n && Wrap(k, -Wrap(k, -n)) == n
  {
    WrapMinus(k, -n - 1, -1);
    WrapMinus(k, -n, 0);
  }

  lemma NegationMixed(k: Kind, n: int)
    ensures Wrap(k, -Wrap(k, -n - 1)) == Wrap(k, n + Wrap(k, 1)) && Wrap(k, -Wrap(k, -n) - 1) == Wrap(k, n - Wrap(k, 1))
  {
    WrapMinus(k, -n - 1, 0);
    WrapMinus(k, -n, -1);
    WrapMinus(k, 1, n);
    ReduceSum(Modulus(k), IsSigned(k), 1, n);
  }

  lemma WrapMinus(k: Kind, a: int, b: int)
    ensures Wrap(k, b - Wrap(k, a)) == Wrap(k, b - a)
  {
    ReduceSum(Modulus(k), IsSigned(k), a, b);
  }

  lemma PlusOne(x: Expr, narrow: bool, env: Env)
    requires Typed(x) && Exact(x, narrow) && NarrowIf(narrow, x.kind)
    requires HasIdentity(x.kind, ADD)
    requires Eval(x, env).Val? ==> CanonicalOf(x.kind, Eval(x, env))
    ensures var r := Plus(x, OneConst(x.kind));
      && Typed(r) && Exact(r, narrow)
      && (Eval(x, env).Val? ==> Eval(r, env) == PairResult(x.kind, NEG1, XOR1, Eval(x, env).num))
  {
    var one := OneConst(x.kind);
    OneIsDirect(x.kind);
    var es := [x, one];
    assert es[1..] == [one] && [one][1..] == [];
    assert Typed(one) && Exact(one, narrow);
    assert AllTyped([one], x.kind) && AllExact([one], narrow);
    assert AllTyped(es, x.kind) && AllExact(es, narrow);
    if Eval(x, env).Val? {
      assert Eval(one, env) == Val(x.kind, Wrap(x.kind, 1));
      PlusValue(x, one, env);
      PairSteps(x.kind, Eval(x, env).num);
    }
  }

  lemma PairSteps(k: Kind, n: int)
    ensures TupleStep(ADD, Val(k, n), Val(k, Wrap(k, 1))) == PairResult(k, NEG1, XOR1, n)
    ensures EvalBinaryOp(SUB, Val(k, n), Val(k, Wrap(k, 1))) == PairResult(k, XOR1, NEG1, n)
  {
  }

  lemma PlusValue(x: Expr, y: Expr, env: Env)
    requires CanonicalOf(x.kind, Eval(x, env)) && CanonicalOf(x.kind, Eval(y, env))
    ensures Eval(Plus(x, y), env) == TupleStep(ADD, Eval(x, env), Eval(y, env))
  {
    var (v, w) := (Eval(x, env), Eval(y, env));
    assert [x, y][1..] == [y] && [y][1..] == [];
    assert EvalAll([y], env) == [w];
    assert EvalAll([x, y], env) == [v] + [w];
    FoldConcat(ADD, IdentityN(x.kind, ADD), [v], [w]);
    StepIdentity(x.kind, ADD, v);
    FoldOne(ADD, IdentityN(x.kind, ADD), v);
    FoldOne(ADD, v, w);
  }

  lemma FoldOne(op: OpN, x: Value, v: Value)
    ensures FoldFrom(op, x, [v]) == TupleStep(op, x, v)
  {
    assert [v][1..] == [];
  }

  lemma NotReplaces(x: Expr, env: Env)
    requires x.Binary? && IsComparison(x.op2) && Typed(x)
    ensures var r := NewBinary(NotComparison(x.op2), x.x, x.y);
      && Typed(r) && r.kind == Bool
      && (Eval(x, env).Val? ==> Eval(r, env) == EvalUnaryOp(Bool, NOT1, Eval(x, env)))
  {
  }

  // ---------------------------------------------------------------- binary

  lemma BinaryReplaced(o: Opts, op: Op2, x: Expr, y: Expr, narrow: bool, env: Env)
    requires o.division && Typed(NewBinary(op, x, y)) && Exact(NewBinary(op, x, y), narrow)
    ensures TryBinary(o, op, x, y).Some? ==> Replaces(NewBinary(op, x, y), TryBinary(o, op, x, y).value, narrow, env)
  {
    if o.fold && x.Const? && y.Const? && EvalBinaryOp(op, ConstValue(x), ConstValue(y)).Val? {
      var v := EvalBinaryOp(op, ConstValue(x), ConstValue(y));
      BinaryCanonical(x.kind, op, x.num, y.num);
      ConstReplaces(NewBinary(op, x, y), v.kind, v.num, narrow, env);
    } else if o.simplify {
      SimplifiedReplaces(o, op, x, y, narrow, env);
    }
  }

  lemma SimplifiedReplaces(o: Opts, op: Op2, x: Expr, y: Expr, narrow: bool, env: Env)
    requires o.division && Typed(NewBinary(op, x, y)) && Exact(NewBinary(op, x, y), narrow)
    ensures SimplifyBinary(o, op, x, y).Some? ==>
      Replaces(NewBinary(op, x, y), SimplifyBinary(o, op, x, y).value, narrow, env)
  {
    match PartialEvalBinary(op, x, y) {
      case None => RewriteReplaces(o, op, x, y, narrow, env);
      case Some(e) =>
        PartialReplaces(op, x, y, narrow, env);
        if e.Binary? {
          assert e == NewBinary(e.op2, e.x, e.y);
          RewriteReplaces(o, e.op2, e.x, e.y, narrow, env);
        }
    }
  }

  lemma PartialReplaces(op: Op2, x: Expr, y: Expr, narrow: bool, env: Env)
    requires Typed(NewBinary(op, x, y)) && Exact(NewBinary(op, x, y), narrow) && PartialEvalBinary(op, x, y).Some?
    ensures Replaces(NewBinary(op, x, y), PartialEvalBinary(op, x, y).value, narrow, env)
  {
    if IsComparison(op) {
      SwapReplaces(op, x, y, narrow, env);
    } else {
      var v := Eval(x, env);
      EvalTyped(x, env);
      if v.Val? {
        RightIdentity(x.kind, op, v.num);
      }
      if Exact(x, true) {
        ExactWeaker(x, narrow);
      }
    }
  }

  lemma SwapReplaces(op: Op2, x: Expr, y: Expr, narrow: bool, env: Env)
    requires IsComparison(op) && Typed(NewBinary(op, x, y)) && Exact(NewBinary(op, x, y), narrow)
    ensures Replaces(NewBinary(op, x, y), NewBinary(SwapComparison(op), y, x), narrow, env)
  {
    SwapValue(op, Eval(x, env), Eval(y, env));
    assert Eval(NewBinary(SwapComparison(op), y, x), env) == EvalBinaryOp(SwapComparison(op), Eval(y, env), Eval(x, env));
  }

  lemma SwapValue(op: Op2, x: Value, y: Value)
    requires IsComparison(op)
    ensures EvalBinaryOp(SwapComparison(op), y, x) == EvalBinaryOp(op, x, y)
  {
  }

  lemma RightIdentity(k: Kind, op: Op2, n: int)
    requires Canonical(k, n) && Identity2(k, op).Val?
    ensures var r := EvalBinaryOp(op, Val(k, n), Identity2(k, op)); r.Val? ==> r == Val(k, n)
  {
    if op == QUO {
      OneOf(k);
    } else if op == SHL || op == SHR {
      ShiftByZero(k, op, n);
    }
  }

  lemma ShiftByZero(k: Kind, op: Op2, n: int)
    requires Canonical(k, n) && (op == SHL || op == SHR)
    ensures EvalBinaryOp(op, Val(k, n), Val(k, 0)) == Val(k, n)
  {
    assert Pow2(0) == 1;
  }

  lemma RewriteReplaces(o: Opts, op: Op2, x: Expr, y: Expr, narrow: bool, env: Env)
    requires o.division && Typed(NewBinary(op, x, y)) && Exact(NewBinary(op, x, y), narrow)
    ensures Rewrite(o, op, x, y).Some? ==> Replaces(NewBinary(op, x, y), Rewrite(o, op, x, y).value, narrow, env)
  {
    if IsComparison(op) {
      ComparisonReplaces(o, op, x, y, narrow, env);
    } else if (op == SUB || op == QUO || op == REM) && DeepEqual(x, y, o.division) {
      EqualOperands(op, x, y, narrow, o.division);
      EvalTyped(x, env);
      OneIsDirect(x.kind);
      CanonicalRange(x.kind, 0);
      SelfArithmetic(op, x, env);
    } else if op == LAND || op == LOR {
      BooleanReplaces(o, op, x, y, narrow, env);
    }
  }

  lemma SelfArithmetic(op: Op2, x: Expr, env: Env)
    requires Typed(x) && (op == SUB || op == QUO || op == REM)
    ensures var r := Eval(NewBinary(op, x, x), env);
      r.Val? ==> r == (if op == QUO then ConstValue(OneConst(x.kind)) else ConstValue(Zero(x.kind)))
  {
    var v := Eval(x, env);
    assert Eval(NewBinary(op, x, x), env) == EvalBinaryOp(op, v, v);
    if v.Val? {
      SelfOp(op, v.kind, v.num);
      EvalTyped(x, env);
    }
  }

  lemma SelfOp(op: Op2, k: Kind, n: int)
    requires op == SUB || op == QUO || op == REM
    ensures var r := EvalBinaryOp(op, Val(k, n), Val(k, n));
      r.Val? ==> r == Val(k, if op == QUO then Wrap(k, 1) else 0)
  {
    SmallMod(0, Modulus(k));
    if op != SUB && n != 0 {
      SelfDivision(n);
      assert n - n * 1 == 0;
    }
  }

  lemma SelfDivision(n: int)
    ensures n != 0 ==> TruncDiv(n, n) == 1
  {
    if n > 0 {
      assert n / n == 1;
    } else if n < 0 {
      assert -n / -n == 1;
    }
  }

  lemma {:induction false} AlwaysPure(e: Expr)
    ensures DeepPure(e, true)
    decreases e, 1
  {
    match e
    case Var(_, _) =>
    case Const(_, _) =>
    case Unary(_, _, x) => AlwaysPure(x);
    case Binary(_, _, x, y) => AlwaysPure(x); AlwaysPure(y);
    case Tuple(_, _, args) => AllAlwaysPure(args);
  }

  lemma {:induction false} AllAlwaysPure(es: seq<Expr>)
    ensures AllPure(es, true)
    decreases es, 0
  {
    if es != [] {
      AlwaysPure(es[0]);
      AllAlwaysPure(es[1..]);
    }
  }

  lemma BooleanReplaces(o: Opts, op: Op2, x: Expr, y: Expr, narrow: bool, env: Env)
    requires o.division && Typed(NewBinary(op, x, y)) && Exact(NewBinary(op, x, y), narrow) && (op == LAND || op == LOR)
    ensures Rewrite(o, op, x, y).Some? ==> Replaces(NewBinary(op, x, y), Rewrite(o, op, x, y).value, narrow, env)
  {
    BooleanSide(o, op == LAND, x, y, narrow, env);
  }

  lemma BooleanSide(o: Opts, land: bool, x: Expr, y: Expr, narrow: bool, env: Env)
    requires var e := NewBinary(if land then LAND else LOR, x, y); o.division && Typed(e) && Exact(e, narrow)
    ensures SimplifyBoolean(o, land, x, y).Some? ==>
      Replaces(NewBinary(if land then LAND else LOR, x, y), SimplifyBoolean(o, land, x, y).value, narrow, env)
  {
    AlwaysPure(x);
    EvalTyped(x, env);
    EvalTyped(y, env);
    BoolRange(Eval(x, env));
    BoolRange(Eval(y, env));
  }

  lemma BoolRange(v: Value)
    ensures CanonicalOf(Bool, v) ==> v == FromBool(false) || v == FromBool(true)
  {
    if v.Val? {
      CanonicalRange(Bool, v.num);
      assert Pow2(1) == 2;
    }
  }

  lemma ComparisonReplaces(o: Opts, op: Op2, x: Expr, y: Expr, narrow: bool, env: Env)
    requires o.division && Typed(NewBinary(op, x, y)) && Exact(NewBinary(op, x, y), narrow) && IsComparison(op)
    ensures Rewrite(o, op, x, y).Some? ==> Replaces(NewBinary(op, x, y), Rewrite(o, op, x, y).value, narrow, env)
  {
    if y.Const? {
      if !IsSigned(y.kind) && y.num == 0 {
        ZeroComparison(o, op, x, y, narrow, env);
      }
    } else if DeepEqual(x, y, o.division) {
      EqualOperands(op, x, y, narrow, o.division);
      BoolCanonical(op == LEQ || op == EQL || op == GEQ);
      SelfComparison(op, x, env);
    }
  }

  lemma BoolCanonical(b: bool)
    ensures Typed(BoolConst(b)) && BoolConst(b).kind == Bool && forall narrow :: Exact(BoolConst(b), narrow)
  {
    CanonicalRange(Bool, if b then 1 else 0);
    assert Pow2(1) == 2;
  }

  lemma SelfComparison(op: Op2, x: Expr, env: Env)
    requires IsComparison(op)
    ensures SameMeaning(NewBinary(op, x, x), BoolConst(op == LEQ || op == EQL || op == GEQ), env)
  {
    var v := Eval(x, env);
    assert Eval(NewBinary(op, x, x), env) == EvalBinaryOp(op, v, v);
  }

  /** Comparing an unsigned expression with zero. */
  lemma ZeroComparison(o: Opts, op: Op2, x: Expr, y: Expr, narrow: bool, env: Env)
    requires o.division && Typed(NewBinary(op, x, y)) && Exact(NewBinary(op, x, y), narrow) && IsComparison(op)
    requires y.Const? && !IsSigned(y.kind) && y.num == 0
    ensures SimplifyComparison(o, op, x, y).Some? ==>
      Replaces(NewBinary(op, x, y), SimplifyComparison(o, op, x, y).value, narrow, env)
  {
    AlwaysPure(x);
    BoolCanonical(false);
    BoolCanonical(true);
    ZeroMeaning(op, x, y, env);
  }

  lemma ZeroMeaning(op: Op2, x: Expr, y: Expr, env: Env)
    requires Typed(x) && x.kind == y.kind && IsComparison(op) && y.Const? && !IsSigned(y.kind) && y.num == 0
    ensures op == LSS ==> SameMeaning(NewBinary(op, x, y), BoolConst(false), env)
    ensures op == GEQ ==> SameMeaning(NewBinary(op, x, y), BoolConst(true), env)
    ensures op == LEQ ==> SameMeaning(NewBinary(op, x, y), NewBinary(EQL, x, y), env)
    ensures op == GTR ==> SameMeaning(NewBinary(op, x, y), NewBinary(NEQ, x, y), env)
  {
    var v := Eval(x, env);
    EvalTyped(x, env);
    assert Eval(NewBinary(op, x, y), env) == EvalBinaryOp(op, v, Val(x.kind, 0));
    if v.Val? {
      CanonicalRange(x.kind, v.num);
      ZeroValue(v);
    }
  }

  lemma ZeroValue(v: Value)
    requires v.Val? && v.num >= 0
    ensures EvalBinaryOp(LSS, v, Val(v.kind, 0)) == FromBool(false)
    ensures EvalBinaryOp(GEQ, v, Val(v.kind, 0)) == FromBool(true)
    ensures EvalBinaryOp(LEQ, v, Val(v.kind, 0)) == EvalBinaryOp(EQL, v, Val(v.kind, 0))
    ensures EvalBinaryOp(GTR, v, Val(v.kind, 0)) == EvalBinaryOp(NEQ, v, Val(v.kind, 0))
  {
  }
}
