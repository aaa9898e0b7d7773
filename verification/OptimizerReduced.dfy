/** What the optimizer leaves: nodes to which none of its rewrites applies any more, at any depth. The forms are given on the
    trees themselves, operator by operator, and do not mention the rewriting functions. */
module OptimizerReduced {
  import opened Values
  import opened Ir
  import opened Monoid
  import opened Nodes
  import opened Optimizing
  import opened OptimizerTyped
  import opened OptimizerForm

  // ---------------------------------------------------------------- reduced nodes

  /** No constant operand, no `~~x`, `--x`, `-~x` or `~-x`, no negated comparison, and no conversion to the kind itself. */
  predicate UnaryDone(k: Kind, op: Op1, x: Expr) {
    && !x.Const?
    && !((op == XOR1 || op == NEG1) && x.Unary? && (x.op1 == XOR1 || x.op1 == NEG1))
    && !(op == NOT1 && x.Binary? && x.op2 in {LSS, LEQ, NEQ, EQL, GTR, GEQ})
    && !((op == CAST || op == BITCOPY) && k == x.kind)
  }

  /** No two constant operands that give a value; constants right of a comparison; no right operand that changes nothing;
      no difference, quotient, remainder or comparison of equal operands; no unsigned order against zero, and no
      constant operand of && and ||. */
  predicate BinaryDone(division: bool, op: Op2, x: Expr, y: Expr) {
    && (x.Const? && y.Const? ==> Eval(NewBinary(op, x, y), map[]).Invalid?)
    && (op in {LSS, LEQ, NEQ, EQL, GTR, GEQ} ==>
          && TypeCode(x) <= TypeCode(y)
          && !(op in {LSS, LEQ, GTR, GEQ} && y.Const? && !IsSigned(y.kind) && y.num == 0)
          && (y.Const? || !DeepEqual(x, y, division)))
    && (op in {SUB, QUO, REM} ==> !DeepEqual(x, y, division))
    && (x.kind != Void ==> !(op in {SUB, SHL, SHR} && y == Const(x.kind, 0)) && !(op == QUO && y == OneConst(x.kind)))
    && (op in {LAND, LOR} ==> !x.Const? && !y.Const?)
  }

  /** Several operands, none of them a tuple of the same header unless one was added to it afterwards. */
  predicate Spread(k: Kind, op: OpN, args: seq<Expr>) {
    && |args| > 1
    && (|| NoneNested(k, op, args)
        || (op == ADD && |args| == 2 && args[1] == OneConst(k))
        || (op == COMMA && |args| == 2 && args[1].Const?))
  }

  /** In order, with at most one constant, which is last, is not the identity, and does not absorb variables only. */
  predicate Folded(k: Kind, op: OpN, args: seq<Expr>) {
    var n := |args| - 1;
    && n > 0
    && Sorted(args)
    && (forall i :: 0 <= i < n ==> !args[i].Const?)
    && (args[n].Const? && k != Void ==>
          && args[n].kind == k && args[n].num != IdentityN(k, op).num
          && !(ConstValue(args[n]) == AbsorbingN(k, op) && AllVars(args[..n])))
  }

  /** A COMMA ends in a constant only as a test whose other operand could not be dropped. */
  predicate CommaDone(division: bool, k: Kind, args: seq<Expr>) {
    var n := |args| - 1;
    n > 0 && (args[n].Const? ==> n == 1 && k == Void && !DeepPure(args[0], division))
  }

  predicate TupleDone(division: bool, k: Kind, op: OpN, args: seq<Expr>) {
    Spread(k, op, args) && if op == COMMA then CommaDone(division, k, args) else Folded(k, op, args)
  }

  /** Every node is done; unless `strict`, a tuple may also be one of constants that do not combine. */
  predicate Reduced(o: Opts, strict: bool, e: Expr) {
    match e
    case Var(_, _) => true
    case Const(_, _) => true
    case Unary(k, op, x) => Reduced(o, strict, x) && UnaryDone(k, op, x)
    case Binary(_, op, x, y) => Reduced(o, strict, x) && Reduced(o, strict, y) && BinaryDone(o.division, op, x, y)
    case Tuple(k, op, args) =>
      || (!strict && Stays(o, k, op, args))
      || ((forall i :: 0 <= i < |args| ==> Reduced(o, strict, args[i])) && TupleDone(o.division, k, op, args))
  }

  predicate AllReduced(o: Opts, strict: bool, es: seq<Expr>) { forall i :: 0 <= i < |es| ==> Reduced(o, strict, es[i]) }

  // ---------------------------------------------------------------- unary

  /** What the rewrites of unary operators give is reduced. */
  lemma SimplifiedUnary(o: Opts, strict: bool, k: Kind, op: Op1, x: Expr)
    requires Reduced(o, strict, x) && SimplifyUnary(k, op, x).Some?
    ensures Reduced(o, strict, SimplifyUnary(k, op, x).value)
  {
    if x.Unary? && op == NEG1 && x.op1 == XOR1 {
      PlusReduced(o, strict, x.x);
    } else if x.Unary? && op == XOR1 && x.op1 == NEG1 {
      LessOneReduced(o, strict, x.x);
    } else if x.Binary? && op == NOT1 && IsComparison(x.op2) {
      NegatedReduced(o, strict, x.op2, x.x, x.y);
    }
  }

  lemma NegatedReduced(o: Opts, strict: bool, op: Op2, x: Expr, y: Expr)
    requires Reduced(o, strict, x) && Reduced(o, strict, y) && IsComparison(op) && BinaryDone(o.division, op, x, y)
    ensures Reduced(o, strict, NewBinary(NotComparison(op), x, y))
  {
  }

  lemma UnaryReduced(o: Opts, strict: bool, k: Kind, op: Op1, x: Expr)
    requires o.fold && o.simplify && Reduced(o, strict, x)
    ensures Reduced(o, strict, match TryUnary(o, k, op, x) case Some(r) => r case None => Unary(k, op, x))
  {
    if x.Const? {
      assert EvalUnaryOp(k, op, ConstValue(x)).Val?;
    } else {
      UnaryLeft(k, op, x);
      if SimplifyUnary(k, op, x).Some? {
        SimplifiedUnary(o, strict, k, op, x);
      }
    }
  }

  lemma UnaryLeft(k: Kind, op: Op1, x: Expr)
    requires !x.Const?
    ensures SimplifyUnary(k, op, x).None? <==> UnaryDone(k, op, x)
  {
  }

  lemma LessOneReduced(o: Opts, strict: bool, x: Expr)
    requires Reduced(o, strict, x) && !x.Const?
    ensures Reduced(o, strict, NewBinary(SUB, x, OneConst(x.kind)))
  {
    LessOneDone(o.division, x);
  }

  lemma LessOneDone(division: bool, x: Expr)
    requires !x.Const?
    ensures BinaryDone(division, SUB, x, OneConst(x.kind))
  {
    if x.kind != Void {
      OneDiffers(x.kind);
    }
  }

  lemma OneDiffers(k: Kind)
    requires k != Void
    ensures Wrap(k, 1) != 0
  {
    OneOf(k);
  }

  lemma PlusReduced(o: Opts, strict: bool, x: Expr)
    requires Reduced(o, strict, x) && !x.Const?
    ensures Reduced(o, strict, Plus(x, OneConst(x.kind)))
  {
    PlusDone(o.division, x.kind, x, OneConst(x.kind));
  }

  lemma PlusDone(division: bool, k: Kind, x: Expr, one: Expr)
    requires !x.Const? && one == OneConst(k)
    ensures TupleDone(division, k, ADD, [x, one])
  {
    BeforeConst(x, one);
    if k != Void {
      OneDiffers(k);
    }
  }

  // ---------------------------------------------------------------- binary

  lemma CommaReduced(o: Opts, strict: bool, x: Expr, last: Expr)
    requires Reduced(o, strict, x) && last.Const?
    ensures Reduced(o, strict, Comma2(o, x, last))
  {
    if !DeepPure(x, o.division) {
      CommaIsDone(o.division, x, last);
    }
  }

  lemma CommaIsDone(division: bool, x: Expr, last: Expr)
    requires last.Const? && !DeepPure(x, division)
    ensures TupleDone(division, Void, COMMA, [x, last])
  {
  }

  /** Operands that are neither two constants with a value nor a comparison the wrong way round. */
  predicate Placed(op: Op2, x: Expr, y: Expr) {
    && (x.Const? && y.Const? ==> EvalBinaryOp(op, ConstValue(x), ConstValue(y)).Invalid?)
    && (IsComparison(op) ==> TypeCode(x) <= TypeCode(y))
  }

  /** What the rewrites by operator give is reduced, and so is the node where they give nothing. */
  lemma RewriteReduced(o: Opts, strict: bool, k: Kind, op: Op2, x: Expr, y: Expr)
    requires Reduced(o, strict, x) && Reduced(o, strict, y) && Placed(op, x, y)
    requires !IsComparison(op) ==> PartialEvalBinary(op, x, y).None?
    ensures match Rewrite(o, op, x, y)
      case Some(r) => Reduced(o, strict, r)
      case None => Reduced(o, strict, Binary(k, op, x, y))
  {
    if IsComparison(op) {
      ComparisonReduced(o, strict, k, op, x, y);
    } else if op == LAND || op == LOR {
      if y.Const? {
        CommaReduced(o, strict, x, y);
      }
    }
  }

  lemma ComparisonReduced(o: Opts, strict: bool, k: Kind, op: Op2, x: Expr, y: Expr)
    requires Reduced(o, strict, x) && Reduced(o, strict, y) && Placed(op, x, y) && IsComparison(op)
    ensures match SimplifyComparison(o, op, x, y)
      case Some(r) => Reduced(o, strict, r)
      case None => Reduced(o, strict, Binary(k, op, x, y))
  {
    if op == LSS {
      CommaReduced(o, strict, x, BoolConst(false));
    } else if op == GEQ {
      CommaReduced(o, strict, x, BoolConst(true));
    }
  }

  lemma BinaryReduced(o: Opts, strict: bool, k: Kind, op: Op2, x: Expr, y: Expr)
    requires o.fold && o.simplify && Reduced(o, strict, x) && Reduced(o, strict, y)
    ensures Reduced(o, strict, match TryBinary(o, op, x, y) case Some(r) => r case None => Binary(k, op, x, y))
  {
    if !(x.Const? && y.Const? && EvalBinaryOp(op, ConstValue(x), ConstValue(y)).Val?) {
      SimplifiedBinary(o, strict, k, op, x, y);
    }
  }

  lemma SimplifiedBinary(o: Opts, strict: bool, k: Kind, op: Op2, x: Expr, y: Expr)
    requires Reduced(o, strict, x) && Reduced(o, strict, y)
    requires x.Const? && y.Const? ==> EvalBinaryOp(op, ConstValue(x), ConstValue(y)).Invalid?
    ensures Reduced(o, strict, match SimplifyBinary(o, op, x, y) case Some(r) => r case None => Binary(k, op, x, y))
  {
    match PartialEvalBinary(op, x, y)
    case None => RewriteReduced(o, strict, k, op, x, y);
    case Some(e) =>
      if IsComparison(op) {
        RewriteReduced(o, strict, e.kind, e.op2, e.x, e.y);
      } else if x.Binary? {
        ReducedStays(o, strict, x);
      }
  }

  /** Nothing is left to rewrite in a reduced node. */
  lemma ReducedStays(o: Opts, strict: bool, e: Expr)
    requires e.Binary? && Reduced(o, strict, e)
    ensures Rewrite(o, e.op2, e.x, e.y).None?
  {
  }

  // ---------------------------------------------------------------- tuples

  lemma ReducedConcat(o: Opts, strict: bool, a: seq<Expr>, b: seq<Expr>)
    requires AllReduced(o, strict, a) && AllReduced(o, strict, b)
    ensures AllReduced(o, strict, a + b)
  {
  }

  lemma OrderedReduced(o: Opts, strict: bool, op: OpN, es: seq<Expr>)
    requires AllReduced(o, strict, es)
    ensures AllReduced(o, strict, Ordered(op, es))
  {
    var s := Ordered(op, es);
    forall i | 0 <= i < |s| ensures Reduced(o, strict, s[i]) {
      assert s[i] in multiset(s);
      assert s[i] in es;
    }
  }

  lemma ChildrenReduced(o: Opts, strict: bool, k: Kind, op: OpN, es: seq<Expr>, v: Value)
    requires AllReduced(o, strict, es)
    ensures AllReduced(o, strict, FoldChildren(k, op, es, v))
  {
  }

  /** What folding leaves of the sorted children of a commutative tuple, when more than one is left. */
  lemma ChildrenFolded(k: Kind, op: OpN, es: seq<Expr>, v: Value)
    requires IsCommutative(op) && NoneNested(k, op, es) && Sorted(es) && |FoldChildren(k, op, es, v)| > 1
    requires v.Val? ==> v.kind == IdentityN(k, op).kind
    ensures Spread(k, op, FoldChildren(k, op, es, v)) && Folded(k, op, FoldChildren(k, op, es, v))
  {
    var n := Variables(es);
    var r := FoldChildren(k, op, es, v);
    FoldedShape(k, op, es, v);
    assert n > 0 && !es[n - 1].Const?;
    if r[|r| - 1].Const? {
      assert r == es[..n] + [ConstOf(v)];
      assert r[..|r| - 1] == es[..n];
    }
  }

  /** Nothing but variables is left behind a COMMA. */
  lemma CommaFolded(k: Kind, es: seq<Expr>, v: Value, division: bool)
    requires NoneNested(k, COMMA, es) && v == IdentityN(k, COMMA) && |FoldChildren(k, COMMA, es, v)| > 1
    ensures TupleDone(division, k, COMMA, FoldChildren(k, COMMA, es, v))
  {
    var n := Variables(es);
    assert n > 0 && !es[n - 1].Const?;
  }

  lemma {:induction false} CommaTail(k: Kind, es: seq<Expr>)
    requires AllConsts(es)
    ensures FoldTail(k, COMMA, es, Val(k, 0)) == Val(k, 0)
    decreases |es|
  {
    if es != [] {
      CommaTail(k, es[..|es| - 1]);
    }
  }

  predicate AllConsts(es: seq<Expr>) { forall i :: 0 <= i < |es| ==> es[i].Const? }

  /** A fold stays at its kind, or gives nothing. */
  lemma {:induction false} TailKind(k: Kind, op: OpN, es: seq<Expr>, v: Value)
    requires AllConsts(es) && op != COMMA && (v.Val? ==> v.kind == k)
    ensures var r := FoldTail(k, op, es, v); r.Val? ==> r.kind == k
    decreases |es|
  {
    if es != [] {
      var c := ConstValue(es[|es| - 1]);
      PairKind(k, op, c, v);
      TailKind(k, op, es[..|es| - 1], EvalTupleOp(k, op, [c, v]));
    }
  }

  lemma PairKind(k: Kind, op: OpN, c: Value, v: Value)
    requires op != COMMA && (v.Val? ==> v.kind == k)
    ensures var r := EvalTupleOp(k, op, [c, v]); r.Val? ==> r.kind == k
  {
    var x := TupleStep(op, IdentityN(k, op), c);
    assert [c, v][1..] == [v] && [v][1..] == [];
    assert FoldFrom(op, x, [v]) == FoldFrom(op, TupleStep(op, x, v), []);
    assert EvalTupleOp(k, op, [c, v]) == TupleStep(op, x, v);
  }

  lemma RestReduced(o: Opts, strict: bool, k: Kind, op: OpN, rest: seq<Expr>, v: Value, e: Expr)
    requires Size(e) >= 1 + SizeAll(rest) && AllReduced(o, strict, rest)
    requires |rest| > 1 ==> TupleDone(o.division, k, op, rest)
    ensures Reduced(o, strict, TupleOf(k, op, rest, v, e)) || (TupleOf(k, op, rest, v, e) == e && rest == [] && v.Invalid?)
  {
  }

  lemma PartialReduced(o: Opts, strict: bool, k: Kind, op: OpN, es: seq<Expr>, e: Expr)
    requires o.fold && Size(e) >= 1 + SizeAll(es) && AllReduced(o, strict, es) && NoneNested(k, op, es)
    ensures Reduced(o, strict, PartialEvalTuple(o, k, op, es, e))
      || (PartialEvalTuple(o, k, op, es, e) == e && AllConsts(es) && TailValue(o, k, op, Ordered(op, es)).Invalid?)
  {
    if es != [] {
      var sorted := Ordered(op, es);
      var v := TailValue(o, k, op, sorted);
      var rest := FoldChildren(k, op, sorted, v);
      PartialIs(o, k, op, es, e);
      OrderedReduced(o, strict, op, es);
      ChildrenReduced(o, strict, k, op, sorted, v);
      ChildrenDone(o, k, op, es, sorted, v);
      RestReduced(o, strict, k, op, rest, v, e);
      if rest == [] {
        NoneLeft(k, op, sorted, v);
        AllBehind(op, es);
      }
    }
  }

  lemma NoneLeft(k: Kind, op: OpN, es: seq<Expr>, v: Value)
    requires FoldChildren(k, op, es, v) == []
    ensures Variables(es) == 0
  {
  }

  lemma ChildrenDone(o: Opts, k: Kind, op: OpN, es: seq<Expr>, sorted: seq<Expr>, v: Value)
    requires o.fold && NoneNested(k, op, es) && sorted == Ordered(op, es) && v == TailValue(o, k, op, sorted)
    ensures |FoldChildren(k, op, sorted, v)| > 1 ==> TupleDone(o.division, k, op, FoldChildren(k, op, sorted, v))
  {
    OrderedNoneNested(k, op, es);
    OrderedSorted(op, es);
    JoinedDone(o, k, op, sorted, v);
  }

  lemma OrderedSorted(op: OpN, es: seq<Expr>)
    ensures op == COMMA || Sorted(Ordered(op, es))
  {
    SortSorted(es);
  }

  lemma JoinedDone(o: Opts, k: Kind, op: OpN, es: seq<Expr>, v: Value)
    requires o.fold && NoneNested(k, op, es) && (op == COMMA || Sorted(es)) && v == TailValue(o, k, op, es)
    ensures |FoldChildren(k, op, es, v)| > 1 ==> TupleDone(o.division, k, op, FoldChildren(k, op, es, v))
  {
    if |FoldChildren(k, op, es, v)| > 1 {
      if op == COMMA {
        CommaTail(k, es[Variables(es)..]);
        CommaFolded(k, es, v, o.division);
      } else {
        TailKind(k, op, es[Variables(es)..], IdentityN(k, op));
        ChildrenFolded(k, op, es, v);
      }
    }
  }

  // ---------------------------------------------------------------- expressions

  lemma {:induction false} FlattenReduced(o: Opts, strict: bool, k: Kind, op: OpN, es: seq<Expr>)
    requires o.fold && o.simplify && (strict ==> o.division && AllTyped(es, k))
    ensures AllReduced(o, strict, Flatten(o, k, op, es))
    decreases SizeAll(es), 2
  {
    if es != [] {
      ChildReduced(o, strict, k, op, es[0]);
      FlattenReduced(o, strict, k, op, es[1..]);
      ReducedConcat(o, strict, FlattenChild(o, k, op, es[0]), Flatten(o, k, op, es[1..]));
    }
  }

  lemma {:induction false} ChildReduced(o: Opts, strict: bool, k: Kind, op: OpN, e: Expr)
    requires o.fold && o.simplify && (strict ==> o.division && Fits(k, e))
    ensures AllReduced(o, strict, FlattenChild(o, k, op, e))
    decreases Size(e), 1
  {
    if Nested(k, op, e) {
      FlattenReduced(o, strict, k, op, e.args);
    } else {
      var c := Optimize(o, e);
      OptimizeReduced(o, strict, e);
      if Nested(k, op, c) {
        if strict {
          OptimizeTyped(o, e);
        }
        FlattenReduced(o, strict, k, op, c.args);
      }
    }
  }

  /** Whatever is optimized is reduced: no rewrite is left to do at any depth, up to tuples of constants of another kind,
      and these do not arise from a well-typed expression. */
  lemma {:induction false} OptimizeReduced(o: Opts, strict: bool, e: Expr)
    requires o.fold && o.simplify && (strict ==> o.division && Typed(e))
    ensures Reduced(o, strict, Optimize(o, e))
    decreases Size(e), 0
  {
    match e
    case Var(_, _) =>
    case Const(_, _) =>
    case Unary(k, op, x) =>
      OptimizeReduced(o, strict, x);
      UnaryReduced(o, strict, k, op, Optimize(o, x));
    case Binary(k, op, x, y) =>
      OptimizeReduced(o, strict, x);
      OptimizeReduced(o, strict, y);
      BinaryReduced(o, strict, k, op, Optimize(o, x), Optimize(o, y));
    case Tuple(k, op, args) =>
      FlattenReduced(o, strict, k, op, args);
      TupleReduced(o, strict, k, op, args, Flatten(o, k, op, args));
  }

  lemma TupleReduced(o: Opts, strict: bool, k: Kind, op: OpN, args: seq<Expr>, flat: seq<Expr>)
    requires o.fold && (strict ==> o.division && Typed(Tuple(k, op, args)))
    requires flat == Flatten(o, k, op, args) && AllReduced(o, strict, flat)
    ensures Reduced(o, strict, PartialEvalTuple(o, k, op, flat, Tuple(k, op, args)))
  {
    FlattenNoneNested(o, k, op, args);
    PartialReduced(o, strict, k, op, flat, Tuple(k, op, args));
    if strict {
      FlattenTyped(o, k, op, args);
      ValueTyped(o, k, op, flat);
    }
  }

  // ---------------------------------------------------------------- one flag alone

  /** Some parts are replaced by the constants they always give, and nothing else changes. */
  ghost predicate Contracts(e: Expr, r: Expr) {
    || r == e
    || (r.Const? && forall env: Env :: Eval(e, env) == ConstValue(r))
    || (e.Unary? && r.Unary? && r.kind == e.kind && r.op1 == e.op1 && Contracts(e.x, r.x))
    || (e.Binary? && r.Binary? && r.kind == e.kind && r.op2 == e.op2 && Contracts(e.x, r.x) && Contracts(e.y, r.y))
  }

  /** Outside of tuples no operator is left that could be replaced so. */
  predicate Contracted(e: Expr) {
    match e
    case Unary(_, _, x) => Contracted(x) && !x.Const?
    case Binary(_, op, x, y) =>
      && Contracted(x) && Contracted(y)
      && (x.Const? && y.Const? && x.kind == y.kind ==> Eval(NewBinary(op, x, y), map[]).Invalid?)
    case _ => true
  }

  lemma AlwaysConst(e: Expr, r: Expr, env: Env)
    requires Contracts(e, r) && r.Const?
    ensures Eval(e, env) == ConstValue(r)
  {
  }

  /** With OptFoldConstant alone, what is replaced always gives its constant, also in expressions that are not well typed. */
  lemma {:induction false} FoldsOnly(o: Opts, e: Expr)
    requires o.fold && !o.simplify
    ensures Contracts(e, Optimize(o, e)) && Contracted(Optimize(o, e))
  {
    match e
    case Unary(k, op, x) =>
      FoldsOnly(o, x);
      UnaryFolds(o, k, op, x, Optimize(o, x));
    case Binary(k, op, x, y) =>
      FoldsOnly(o, x);
      FoldsOnly(o, y);
      BinaryFolds(o, k, op, x, y, Optimize(o, x), Optimize(o, y));
    case _ =>
  }

  lemma UnaryFolds(o: Opts, k: Kind, op: Op1, x: Expr, x1: Expr)
    requires o.fold && !o.simplify && Contracts(x, x1) && x1 == Optimize(o, x)
    ensures Contracts(Unary(k, op, x), Optimize(o, Unary(k, op, x)))
    ensures x1.Const? ==> Optimize(o, Unary(k, op, x)).Const?
  {
    if x1.Const? {
      var v := EvalUnaryOp(k, op, ConstValue(x1));
      forall env: Env ensures Eval(Unary(k, op, x), env) == v {
        AlwaysConst(x, x1, env);
      }
    }
  }

  lemma BinaryFolds(o: Opts, k: Kind, op: Op2, x: Expr, y: Expr, x1: Expr, y1: Expr)
    requires o.fold && !o.simplify && Contracts(x, x1) && Contracts(y, y1) && x1 == Optimize(o, x) && y1 == Optimize(o, y)
    ensures Contracts(Binary(k, op, x, y), Optimize(o, Binary(k, op, x, y)))
  {
    if x1.Const? && y1.Const? && EvalBinaryOp(op, ConstValue(x1), ConstValue(y1)).Val? {
      ConstsContract(k, op, x, y, x1, y1);
    } else {
      OperandsContract(k, op, x, y, x1, y1);
    }
  }

  lemma ConstsContract(k: Kind, op: Op2, x: Expr, y: Expr, x1: Expr, y1: Expr)
    requires Contracts(x, x1) && Contracts(y, y1) && x1.Const? && y1.Const?
    requires EvalBinaryOp(op, ConstValue(x1), ConstValue(y1)).Val?
    ensures Contracts(Binary(k, op, x, y), ConstOf(EvalBinaryOp(op, ConstValue(x1), ConstValue(y1))))
  {
    forall env: Env ensures Eval(Binary(k, op, x, y), env) == EvalBinaryOp(op, ConstValue(x1), ConstValue(y1)) {
      AlwaysConst(x, x1, env);
      AlwaysConst(y, y1, env);
      BothConst(k, op, x, y, env);
    }
  }

  lemma OperandsContract(k: Kind, op: Op2, x: Expr, y: Expr, x1: Expr, y1: Expr)
    requires Contracts(x, x1) && Contracts(y, y1)
    ensures Contracts(Binary(k, op, x, y), Binary(k, op, x1, y1))
  {
  }

  lemma BothConst(k: Kind, op: Op2, x: Expr, y: Expr, env: Env)
    requires EvalBinaryOp(op, Eval(x, env), Eval(y, env)).Val?
    ensures Eval(Binary(k, op, x, y), env) == EvalBinaryOp(op, Eval(x, env), Eval(y, env))
  {
  }

  lemma OperatorsStay(o: Opts, k: Kind, op: Op1, op2: Op2, x: Expr, y: Expr)
    requires !o.fold && o.simplify && x.Const? && y.Const?
    ensures ((op == CAST || op == BITCOPY) && k == x.kind) || Optimize(o, Unary(k, op, x)) == Unary(k, op, x)
    ensures op2 in {SHL, SHR} && y.num != 0 ==> Optimize(o, Binary(k, op2, x, y)) == Binary(k, op2, x, y)
  {
  }

  lemma SumStays(o: Opts, k: Kind, es: seq<Expr>, sorted: seq<Expr>, e: Expr)
    requires !o.fold && |es| == 2 && |sorted| == 2 && sorted == Ordered(ADD, es) && Size(e) >= 1 + SizeAll(es)
    ensures PartialEvalTuple(o, k, ADD, es, e) == Tuple(k, ADD, sorted)
  {
    PartialIs(o, k, ADD, es, e);
    TwoLeft(k, sorted, TailValue(o, k, ADD, sorted), e);
  }

  lemma TwoLeft(k: Kind, rest: seq<Expr>, v: Value, e: Expr)
    requires |rest| == 2 && Size(e) >= 1 + SizeAll(rest)
    ensures TupleOf(k, ADD, rest, v, e) == Tuple(k, ADD, rest)
  {
  }

  lemma PairStays(o: Opts, k: Kind, es: seq<Expr>, sorted: seq<Expr>)
    requires !o.fold && o.simplify && |es| == 2 && es[0].Const? && es[1].Const?
    requires sorted == Ordered(ADD, es) && |sorted| == 2
    ensures Optimize(o, Tuple(k, ADD, es)) == Tuple(k, ADD, sorted)
  {
    var e := Tuple(k, ADD, es);
    PairFlat(o, k, es);
    SumStays(o, k, es, sorted, e);
  }

  lemma PairFlat(o: Opts, k: Kind, es: seq<Expr>)
    requires |es| == 2 && es[0].Const? && es[1].Const?
    ensures Flatten(o, k, ADD, es) == es
  {
    assert Optimize(o, es[0]) == es[0] && Optimize(o, es[1]) == es[1];
    assert FlattenChild(o, k, ADD, es[0]) == [es[0]] && FlattenChild(o, k, ADD, es[1]) == [es[1]];
    assert Flatten(o, k, ADD, es[1..][1..]) == [];
    assert Flatten(o, k, ADD, es[1..]) == [es[1]] + [];
  }

  /** With OptSimplifyExpr alone, operators on constants stay. */
  lemma SimplifiesOnly(o: Opts, k: Kind, op: Op1, op2: Op2, es: seq<Expr>)
    requires !o.fold && o.simplify && |es| == 2 && es[0].Const? && es[1].Const?
    ensures var (x, y) := (es[0], es[1]);
      && (((op == CAST || op == BITCOPY) && k == x.kind) || Optimize(o, Unary(k, op, x)) == Unary(k, op, x))
      && (op2 in {SHL, SHR} && y.num != 0 ==> Optimize(o, Binary(k, op2, x, y)) == Binary(k, op2, x, y))
    ensures Optimize(o, Tuple(k, ADD, es)) == Tuple(k, ADD, Sort(es))
  {
    OperatorsStay(o, k, op, op2, es[0], es[1]);
    PairStays(o, k, es, Ordered(ADD, es));
  }

  /** With no flag nothing changes. */
  lemma {:induction false} NothingDone(o: Opts, e: Expr)
    requires !o.fold && !o.simplify
    ensures Optimize(o, e) == e
  {
    match e
    case Unary(_, _, x) => NothingDone(o, x);
    case Binary(_, _, x, y) => NothingDone(o, x); NothingDone(o, y);
    case _ =>
  }
}
