/** What onejit/optimizer*.cpp makes of an expression, as functions on trees. Every rewrite gives a tree
    that is no larger, which is why the mutual recursion ends although it optimizes again the children
    of trees it has just built. */
module Optimizing {
  import opened Values
  import opened Ir
  import opened Stmts
  import opened Nodes

  /** OptFoldConstant, OptSimplifyExpr, and whether the configured checks let divisions disappear. */
  datatype Opts = Opts(fold: bool, simplify: bool, division: bool)

  function ConstOf(v: Value): Expr
    requires v.Val?
  {
    Const(v.kind, v.num)
  }

  function Zero(k: Kind): Expr { Const(k, 0) }

  function OneConst(k: Kind): Expr { Const(k, Wrap(k, 1)) }

  /** bool(a != b): false when the kinds differ. */
  predicate Differs(a: Value, b: Value) { a.Val? && b.Val? && a.kind == b.kind && a.num != b.num }

  // ---------------------------------------------------------------- unary

  function SimplifyUnary(k: Kind, op: Op1, x: Expr): (r: Option<Expr>)
    ensures r.Some? ==> Size(r.value) <= 1 + Size(x)
  {
    if x.Unary? && op == XOR1 && x.op1 == XOR1 then Some(x.x)
    else if x.Unary? && op == NEG1 && x.op1 == NEG1 then Some(x.x)
    else if x.Unary? && op == NEG1 && x.op1 == XOR1 then Some(Plus(x.x, OneConst(x.x.kind)))
    else if x.Unary? && op == XOR1 && x.op1 == NEG1 then Some(NewBinary(SUB, x.x, OneConst(x.x.kind)))
    else if x.Binary? && op == NOT1 && IsComparison(x.op2) then Some(NewBinary(NotComparison(x.op2), x.x, x.y))
    else if (op == CAST || op == BITCOPY) && k == x.kind then Some(x)
    else None
  }

  lemma PairSize(x: Expr, y: Expr)
    ensures SizeAll([x, y]) == Size(x) + Size(y)
  {
    assert [x, y] == [x] + [y];
    SizeAllConcat([x], [y]);
    RestSize([x]);
    RestSize([y]);
  }

  function Plus(x: Expr, y: Expr): (r: Expr)
    ensures Size(r) == 1 + Size(x) + Size(y)
  {
    PairSize(x, y);
    Tuple(x.kind, ADD, [x, y])
  }

  function TryUnary(o: Opts, k: Kind, op: Op1, x: Expr): (r: Option<Expr>)
    ensures r.Some? ==> Size(r.value) <= 1 + Size(x)
  {
    if o.fold && x.Const? && EvalUnaryOp(k, op, ConstValue(x)).Val?
    then Some(ConstOf(EvalUnaryOp(k, op, ConstValue(x))))
    else if o.simplify then SimplifyUnary(k, op, x)
    else None
  }

  // ---------------------------------------------------------------- binary

  /** Puts constants to the right of a comparison, and drops a right operand that changes nothing. */
  function PartialEvalBinary(op: Op2, x: Expr, y: Expr): (r: Option<Expr>)
    ensures r.Some? ==> Size(r.value) <= 1 + Size(x) + Size(y)
  {
    if IsComparison(op) then
      if TypeCode(x) > TypeCode(y) then Some(NewBinary(SwapComparison(op), y, x)) else None
    else if y.Const? && SameValue(Identity2(x.kind, op), ConstValue(y)) then Some(x)
    else None
  }

  /** simplify_comma() of two expressions: the first is kept for its effects only. */
  function Comma2(o: Opts, x: Expr, last: Expr): (r: Expr)
    ensures Size(r) <= 1 + Size(x) + Size(last)
  {
    PairSize(x, last);
    if DeepPure(x, o.division) then last else Tuple(Void, COMMA, [x, last])
  }

  function SimplifyBoolean(o: Opts, land: bool, x: Expr, y: Expr): (r: Option<Expr>)
    ensures r.Some? ==> Size(r.value) <= 1 + Size(x) + Size(y)
  {
    if x.Const? then Some(if Truth(ConstValue(x)) == land then y else x)
    else if !y.Const? then None
    else if Truth(ConstValue(y)) == land then Some(x)
    else Some(Comma2(o, x, y))
  }

  function BoolConst(b: bool): Expr { Const(Bool, if b then 1 else 0) }

  function SimplifyComparison(o: Opts, op: Op2, x: Expr, y: Expr): (r: Option<Expr>)
    requires IsComparison(op)
    ensures r.Some? ==> Size(r.value) <= 1 + Size(x) + Size(y)
  {
    if y.Const? then
      if IsSigned(y.kind) || y.num != 0 then None
      else
        match op
        case LSS => Some(Comma2(o, x, BoolConst(false)))
        case LEQ => Some(NewBinary(EQL, x, y))
        case GEQ => Some(Comma2(o, x, BoolConst(true)))
        case GTR => Some(NewBinary(NEQ, x, y))
        case _ => None
    else if DeepEqual(x, y, o.division) then Some(BoolConst(op == LEQ || op == EQL || op == GEQ))
    else None
  }

  /** The rewrites by operator. */
  function Rewrite(o: Opts, op: Op2, x: Expr, y: Expr): (r: Option<Expr>)
    ensures r.Some? ==> Size(r.value) <= 1 + Size(x) + Size(y)
  {
    if IsComparison(op) then SimplifyComparison(o, op, x, y)
    else
      match op
      case SUB => if DeepEqual(x, y, o.division) then Some(Zero(x.kind)) else None
      case QUO => if DeepEqual(x, y, o.division) then Some(OneConst(x.kind)) else None
      case REM => if DeepEqual(x, y, o.division) then Some(Zero(x.kind)) else None
      case LAND => SimplifyBoolean(o, true, x, y)
      case LOR => SimplifyBoolean(o, false, x, y)
      case _ => None
  }

  function SimplifyBinary(o: Opts, op: Op2, x: Expr, y: Expr): (r: Option<Expr>)
    ensures r.Some? ==> Size(r.value) <= 1 + Size(x) + Size(y)
  {
    match PartialEvalBinary(op, x, y)
    case None => Rewrite(o, op, x, y)
    case Some(e) =>
      if !e.Binary? then Some(e)
      else
        match Rewrite(o, e.op2, e.x, e.y)
        case None => Some(e)
        case Some(f) => Some(f)
  }

  function TryBinary(o: Opts, op: Op2, x: Expr, y: Expr): (r: Option<Expr>)
    ensures r.Some? ==> Size(r.value) <= 1 + Size(x) + Size(y)
  {
    if o.fold && x.Const? && y.Const? && EvalBinaryOp(op, ConstValue(x), ConstValue(y)).Val?
    then Some(ConstOf(EvalBinaryOp(op, ConstValue(x), ConstValue(y))))
    else if o.simplify then SimplifyBinary(o, op, x, y)
    else None
  }

  // ---------------------------------------------------------------- tuples

  /** Sorting by deep_compare(). */
  function Insert(x: Expr, es: seq<Expr>): (r: seq<Expr>)
    ensures |r| == |es| + 1 && multiset(r) == multiset([x] + es)
  {
    if es == [] then [x]
    else if DeepCompare(x, es[0]) <= 0 then [x] + es
    else
      assert es == [es[0]] + es[1..];
      [es[0]] + Insert(x, es[1..])
  }

  function Sort(es: seq<Expr>): (r: seq<Expr>)
    ensures |r| == |es| && multiset(r) == multiset(es)
  {
    if es == [] then []
    else
      assert es == [es[0]] + es[1..];
      Insert(es[0], Sort(es[1..]))
  }

  lemma {:induction false} InsertSize(x: Expr, es: seq<Expr>)
    ensures SizeAll(Insert(x, es)) == Size(x) + SizeAll(es)
  {
    if es != [] {
      if DeepCompare(x, es[0]) > 0 {
        InsertSize(x, es[1..]);
      } else {
        assert ([x] + es)[1..] == es;
      }
    }
  }

  lemma {:induction false} SortSize(es: seq<Expr>)
    ensures SizeAll(Sort(es)) == SizeAll(es)
  {
    if es != [] {
      SortSize(es[1..]);
      InsertSize(es[0], Sort(es[1..]));
    }
  }

  /** How many elements are left when the trailing constants are dropped. */
  function Variables(es: seq<Expr>): (n: nat)
    ensures n <= |es|
    ensures forall i :: n <= i < |es| ==> es[i].Const?
    ensures n > 0 ==> !es[n - 1].Const?
  {
    if es == [] || !es[|es| - 1].Const? then |es| else Variables(es[..|es| - 1])
  }

  /** Combines constants into v, the last one first. */
  function FoldTail(k: Kind, op: OpN, es: seq<Expr>, v: Value): Value
    requires forall i :: 0 <= i < |es| ==> es[i].Const?
  {
    if es == [] then v
    else FoldTail(k, op, es[..|es| - 1], EvalTupleOp(k, op, [ConstValue(es[|es| - 1]), v]))
  }

  predicate AllVars(es: seq<Expr>) { forall i :: 0 <= i < |es| ==> es[i].Var? }

  /** What the children become when constants are folded: a single constant, or a new list. */
  function FoldChildren(k: Kind, op: OpN, es: seq<Expr>, v: Value): seq<Expr> {
    var n := Variables(es);
    if n < |es| && Differs(v, IdentityN(k, op)) then
      if SameValue(v, AbsorbingN(k, op)) && AllVars(es[..n]) then [ConstOf(v)]
      else es[..n] + [ConstOf(v)]
    else es[..n]
  }

  function TailValue(o: Opts, k: Kind, op: OpN, es: seq<Expr>): Value {
    if o.fold then FoldTail(k, op, es[Variables(es)..], IdentityN(k, op)) else IdentityN(k, op)
  }

  function Ordered(op: OpN, es: seq<Expr>): seq<Expr> {
    if |es| > 1 && IsCommutative(op) then Sort(es) else es
  }

  /** partial_eval_tuple() of the flattened children; `e` is what stays when there is nothing to give. */
  function PartialEvalTuple(o: Opts, k: Kind, op: OpN, es: seq<Expr>, e: Expr): (r: Expr)
    requires Size(e) >= 1 + SizeAll(es)
    ensures Size(r) <= Size(e)
  {
    if es == [] then Const(k, IdentityN(k, op).num)
    else
      var sorted := Ordered(op, es);
      var v := TailValue(o, k, op, sorted);
      var rest := if o.fold then FoldChildren(k, op, sorted, v) else sorted;
      SortSize(es);
      ChildrenSize(o, k, op, sorted, v);
      TupleOf(k, op, rest, v, e)
  }

  /** A constant, the only child, or a new tuple. */
  function TupleOf(k: Kind, op: OpN, rest: seq<Expr>, v: Value, e: Expr): (r: Expr)
    requires Size(e) >= 1 + SizeAll(rest)
    ensures Size(r) <= Size(e)
  {
    if |rest| == 0 then (if v.Val? then ConstOf(v) else e)
    else if |rest| == 1 then RestSize(rest); rest[0]
    else Tuple(k, op, rest)
  }

  lemma RestSize(es: seq<Expr>)
    requires |es| == 1
    ensures SizeAll(es) == Size(es[0])
  {
    assert es[1..] == [];
  }

  lemma ChildrenSize(o: Opts, k: Kind, op: OpN, es: seq<Expr>, v: Value)
    ensures SizeAll(FoldChildren(k, op, es, v)) <= SizeAll(es)
  {
    var n := Variables(es);
    assert es == es[..n] + es[n..];
    SizeAllConcat(es[..n], es[n..]);
    if n < |es| {
      assert SizeAll(es[n..]) >= 1;
      if v.Val? {
        SizeAllConcat(es[..n], [ConstOf(v)]);
        RestSize([ConstOf(v)]);
      }
    }
  }

  lemma PartialIs(o: Opts, k: Kind, op: OpN, es: seq<Expr>, e: Expr)
    requires Size(e) >= 1 + SizeAll(es) && es != []
    ensures var sorted := Ordered(op, es);
      var v := TailValue(o, k, op, sorted);
      var rest := if o.fold then FoldChildren(k, op, sorted, v) else sorted;
      Size(e) >= 1 + SizeAll(rest) && PartialEvalTuple(o, k, op, es, e) == TupleOf(k, op, rest, v, e)
  {
    SortSize(es);
    ChildrenSize(o, k, op, Ordered(op, es), TailValue(o, k, op, Ordered(op, es)));
  }

  predicate Nested(k: Kind, op: OpN, e: Expr) { e.Tuple? && e.kind == k && e.opn == op }

  predicate NoneNested(k: Kind, op: OpN, es: seq<Expr>) { forall i :: 0 <= i < |es| ==> !Nested(k, op, es[i]) }

  /** flatten_children_tobuf(): the optimized children, with those of nested tuples in their place. */
  function Flatten(o: Opts, k: Kind, op: OpN, es: seq<Expr>): (r: seq<Expr>)
    ensures SizeAll(r) <= SizeAll(es)
    decreases SizeAll(es), 2
  {
    if es == [] then []
    else
      var first := FlattenChild(o, k, op, es[0]);
      var rest := Flatten(o, k, op, es[1..]);
      SizeAllConcat(first, rest);
      first + rest
  }

  function FlattenChild(o: Opts, k: Kind, op: OpN, e: Expr): (r: seq<Expr>)
    ensures SizeAll(r) <= Size(e)
    decreases Size(e), 1
  {
    if Nested(k, op, e) then Flatten(o, k, op, e.args)
    else
      var c := Optimize(o, e);
      RestSize([c]);
      if Nested(k, op, c) then Flatten(o, k, op, c.args) else [c]
  }

  function Optimize(o: Opts, e: Expr): (r: Expr)
    ensures Size(r) <= Size(e)
    decreases Size(e), 0
  {
    match e
    case Var(_, _) => e
    case Const(_, _) => e
    case Unary(k, op, x) =>
      var x1 := Optimize(o, x);
      (match TryUnary(o, k, op, x1) case Some(r) => r case None => Unary(k, op, x1))
    case Binary(k, op, x, y) =>
      var x1 := Optimize(o, x);
      var y1 := Optimize(o, y);
      (match TryBinary(o, op, x1, y1) case Some(r) => r case None => Binary(k, op, x1, y1))
    case Tuple(k, op, args) =>
      if o.simplify then PartialEvalTuple(o, k, op, Flatten(o, k, op, args), e) else e
  }
}
