/** Flattening, sorting and folding keep the value of tuples, and with that the optimizer keeps the
    value of every expression in its domain. */
module OptimizerTuples {
  import opened Values
  import opened Ir
  import opened Monoid
  import opened Nodes
  import opened Optimizing
  import opened OptimizerMeaning

  // ---------------------------------------------------------------- lists of operands

  lemma {:induction false} EvalAllConcat(a: seq<Expr>, b: seq<Expr>, env: Env)
    ensures EvalAll(a + b, env) == EvalAll(a, env) + EvalAll(b, env)
  {
    if a == [] {
      assert a + b == b;
    } else {
      assert (a + b)[1..] == a[1..] + b;
      EvalAllConcat(a[1..], b, env);
      ConsConcat(Eval(a[0], env), EvalAll(a[1..], env), EvalAll(b, env));
    }
  }

  lemma ConsConcat(x: Value, a: seq<Value>, b: seq<Value>)
    ensures [x] + (a + b) == ([x] + a) + b
  {
  }

  /** Typed operands of kind k in the domain. */
  ghost predicate Operands(k: Kind, es: seq<Expr>, narrow: bool) { AllTyped(es, k) && AllExact(es, narrow) }

  lemma {:induction false} OperandsConcat(k: Kind, a: seq<Expr>, b: seq<Expr>, narrow: bool)
    ensures Operands(k, a + b, narrow) <==> Operands(k, a, narrow) && Operands(k, b, narrow)
  {
    if a == [] {
      assert a + b == b;
    } else {
      assert (a + b)[1..] == a[1..] + b;
      OperandsConcat(k, a[1..], b, narrow);
    }
  }

  lemma OneOperand(k: Kind, e: Expr, narrow: bool)
    ensures Operands(k, [e], narrow) <==> Typed(e) && e.kind == k && Exact(e, narrow)
  {
    assert [e][1..] == [] && AllTyped([], k) && AllExact([], narrow);
  }

  /** All operands have values. */
  ghost predicate Defined(es: seq<Expr>, env: Env) { Invalid !in EvalAll(es, env) }

  lemma OperandValues(k: Kind, es: seq<Expr>, narrow: bool, env: Env)
    requires Operands(k, es, narrow) && Defined(es, env)
    ensures AllOf(k, EvalAll(es, env))
  {
    EvalAllTyped(es, k, env);
    forall i | 0 <= i < |es| ensures CanonicalOf(k, EvalAll(es, env)[i]) {
      assert EvalAll(es, env)[i] in EvalAll(es, env);
    }
  }

  // ---------------------------------------------------------------- sorting

  lemma {:induction false} InsertMeans(k: Kind, op: OpN, v: Value, e: Expr, es: seq<Expr>, narrow: bool, env: Env)
    requires op != COMMA && CanonicalOf(k, v) && CanonicalOf(k, Eval(e, env)) && AllOf(k, EvalAll(es, env))
    ensures FoldFrom(op, v, EvalAll(Insert(e, es), env)) == FoldFrom(op, TupleStep(op, v, Eval(e, env)), EvalAll(es, env))
    decreases |es|
  {
    if es == [] || DeepCompare(e, es[0]) <= 0 {
      assert Insert(e, es) == [e] + es;
      FoldCons(op, v, e, es, env);
    } else {
      var first := Eval(es[0], env);
      var rest := Insert(e, es[1..]);
      ValuesBehind(k, es, env);
      StepAssociates(k, op, v, first, first);
      InsertMeans(k, op, TupleStep(op, v, first), e, es[1..], narrow, env);
      assert Insert(e, es) == [es[0]] + rest;
      FoldCons(op, v, es[0], rest, env);
      FoldSwapped(k, op, v, first, Eval(e, env), EvalAll(es, env), EvalAll(es[1..], env));
    }
  }

  lemma ValuesBehind(k: Kind, es: seq<Expr>, env: Env)
    requires es != [] && AllOf(k, EvalAll(es, env))
    ensures EvalAll(es, env)[0] == Eval(es[0], env) && EvalAll(es, env)[1..] == EvalAll(es[1..], env)
    ensures CanonicalOf(k, Eval(es[0], env)) && AllOf(k, EvalAll(es[1..], env))
  {
  }

  lemma FoldSwapped(k: Kind, op: OpN, v: Value, a: Value, b: Value, vs: seq<Value>, rest: seq<Value>)
    requires op != COMMA && CanonicalOf(k, v) && CanonicalOf(k, a) && CanonicalOf(k, b)
    requires vs != [] && vs[0] == a && vs[1..] == rest
    ensures FoldFrom(op, TupleStep(op, v, b), vs) == FoldFrom(op, TupleStep(op, TupleStep(op, v, a), b), rest)
  {
    FoldSwap(k, op, v, a, b);
  }

  lemma FoldCons(op: OpN, v: Value, e: Expr, es: seq<Expr>, env: Env)
    ensures FoldFrom(op, v, EvalAll([e] + es, env)) == FoldFrom(op, TupleStep(op, v, Eval(e, env)), EvalAll(es, env))
  {
    assert ([e] + es)[1..] == es;
    assert EvalAll([e] + es, env) == [Eval(e, env)] + EvalAll(es, env);
    assert ([Eval(e, env)] + EvalAll(es, env))[1..] == EvalAll(es, env);
  }

  lemma {:induction false} SortMeans(k: Kind, op: OpN, v: Value, es: seq<Expr>, narrow: bool, env: Env)
    requires op != COMMA && CanonicalOf(k, v) && AllOf(k, EvalAll(es, env))
    ensures FoldFrom(op, v, EvalAll(Sort(es), env)) == FoldFrom(op, v, EvalAll(es, env))
    ensures AllOf(k, EvalAll(Sort(es), env))
    decreases |es|
  {
    if es != [] {
      var first := Eval(es[0], env);
      assert EvalAll(es, env)[0] == first && EvalAll(es, env)[1..] == EvalAll(es[1..], env);
      StepAssociates(k, op, v, first, first);
      SortMeans(k, op, TupleStep(op, v, first), es[1..], narrow, env);
      InsertMeans(k, op, v, es[0], Sort(es[1..]), narrow, env);
      SortedValues(k, es, env);
    }
  }

  /** A property of the elements of a list holds of them in any order. */
  lemma SortedValues(k: Kind, es: seq<Expr>, env: Env)
    requires AllOf(k, EvalAll(es, env))
    ensures AllOf(k, EvalAll(Sort(es), env))
  {
    forall i | 0 <= i < |es| ensures CanonicalOf(k, EvalAll(Sort(es), env)[i]) {
      assert Sort(es)[i] in multiset(Sort(es));
      assert Sort(es)[i] in es;
      var j :| 0 <= j < |es| && es[j] == Sort(es)[i];
      assert EvalAll(es, env)[j] == Eval(es[j], env);
    }
  }

  lemma {:induction false} InsertOperands(k: Kind, e: Expr, es: seq<Expr>, narrow: bool)
    requires Operands(k, [e], narrow) && Operands(k, es, narrow)
    ensures Operands(k, Insert(e, es), narrow)
  {
    OperandsConcat(k, [e], es, narrow);
    if es != [] && DeepCompare(e, es[0]) > 0 {
      assert es == [es[0]] + es[1..];
      OperandsConcat(k, [es[0]], es[1..], narrow);
      InsertOperands(k, e, es[1..], narrow);
      OperandsConcat(k, [es[0]], Insert(e, es[1..]), narrow);
    } else {
      assert Insert(e, es) == [e] + es;
    }
  }

  lemma {:induction false} SortOperands(k: Kind, es: seq<Expr>, narrow: bool)
    requires Operands(k, es, narrow)
    ensures Operands(k, Sort(es), narrow)
  {
    if es != [] {
      assert es == [es[0]] + es[1..];
      OperandsConcat(k, [es[0]], es[1..], narrow);
      SortOperands(k, es[1..], narrow);
      InsertOperands(k, es[0], Sort(es[1..]), narrow);
    }
  }

  lemma OrderedMeans(k: Kind, op: OpN, es: seq<Expr>, narrow: bool, env: Env)
    requires op != COMMA && HasIdentity(k, op) && Operands(k, es, narrow)
    ensures Operands(k, Ordered(op, es), narrow)
    ensures Defined(es, env) ==>
      && AllOf(k, EvalAll(Ordered(op, es), env))
      && EvalTupleOp(k, op, EvalAll(Ordered(op, es), env)) == EvalTupleOp(k, op, EvalAll(es, env))
  {
    SortOperands(k, es, narrow);
    if Defined(es, env) {
      OperandValues(k, es, narrow, env);
      IdentityCanonical(k, op);
      SortMeans(k, op, IdentityN(k, op), es, narrow, env);
    }
  }

  // ---------------------------------------------------------------- folding constants

  predicate AllConst(es: seq<Expr>) { forall i :: 0 <= i < |es| ==> es[i].Const? }

  lemma ConstValues(k: Kind, es: seq<Expr>, narrow: bool, env: Env)
    requires AllConst(es) && Operands(k, es, narrow)
    ensures AllOf(k, EvalAll(es, env))
  {
    forall i | 0 <= i < |es| ensures EvalAll(es, env)[i].Val? {
      assert EvalAll(es, env)[i] == Eval(es[i], env);
    }
    OperandValues(k, es, narrow, env);
  }

  /** The folded tail joins its constants with v. */
  lemma {:induction false} FoldTailMeans(k: Kind, op: OpN, es: seq<Expr>, v: Value, narrow: bool, env: Env)
    requires op != COMMA && HasIdentity(k, op) && AllConst(es) && Operands(k, es, narrow) && CanonicalOf(k, v)
    ensures CanonicalOf(k, FoldTail(k, op, es, v))
    ensures FoldTail(k, op, es, v) == TupleStep(op, EvalTupleOp(k, op, EvalAll(es, env)), v)
    decreases |es|
  {
    StepIdentity(k, op, v);
    if es != [] {
      var (front, last) := (es[..|es| - 1], es[|es| - 1]);
      LastConst(k, es, front, last, narrow, env);
      JoinLast(k, op, EvalAll(front, env), ConstValue(last), v);
      FoldTailMeans(k, op, front, TupleStep(op, ConstValue(last), v), narrow, env);
    }
  }

  lemma LastConst(k: Kind, es: seq<Expr>, front: seq<Expr>, last: Expr, narrow: bool, env: Env)
    requires AllConst(es) && Operands(k, es, narrow) && es == front + [last]
    ensures AllConst(front) && Operands(k, front, narrow) && last.Const? && CanonicalOf(k, ConstValue(last))
    ensures AllOf(k, EvalAll(front, env)) && EvalAll(es, env) == EvalAll(front, env) + [ConstValue(last)]
  {
    OperandsConcat(k, front, [last], narrow);
    OneOperand(k, last, narrow);
    assert es[|front|] == last && forall i :: 0 <= i < |front| ==> es[i] == front[i];
    ConstValues(k, front, narrow, env);
    EvalAllConcat(front, [last], env);
    assert EvalAll([last], env) == [ConstValue(last)];
  }

  /** One more constant at the end of the operands, or joined with v beforehand. */
  lemma JoinLast(k: Kind, op: OpN, vs: seq<Value>, c: Value, v: Value)
    requires op != COMMA && HasIdentity(k, op) && AllOf(k, vs) && CanonicalOf(k, c) && CanonicalOf(k, v)
    ensures EvalTupleOp(k, op, [c, v]) == TupleStep(op, c, v) && CanonicalOf(k, TupleStep(op, c, v))
    ensures TupleStep(op, EvalTupleOp(k, op, vs + [c]), v) == TupleStep(op, EvalTupleOp(k, op, vs), TupleStep(op, c, v))
  {
    TupleConcat(k, op, vs, [c]);
    SingleOperand(k, op, c);
    SingleOperand(k, op, v);
    assert [c, v] == [c] + [v];
    TupleConcat(k, op, [c], [v]);
    StepAssociates(k, op, c, v, v);
    StepAssociates(k, op, EvalTupleOp(k, op, vs), c, v);
  }

  /** The list that folding leaves has the same value. */
  lemma FoldChildrenMeans(k: Kind, op: OpN, es: seq<Expr>, narrow: bool, env: Env)
    requires op != COMMA && HasIdentity(k, op) && Operands(k, es, narrow) && NarrowIf(narrow, k)
    ensures var v := FoldTail(k, op, es[Variables(es)..], IdentityN(k, op));
      && CanonicalOf(k, v) && Operands(k, FoldChildren(k, op, es, v), narrow)
      && (FoldChildren(k, op, es, v) == [] ==> v == IdentityN(k, op))
      && (AllOf(k, EvalAll(es, env)) ==>
        && AllOf(k, EvalAll(FoldChildren(k, op, es, v), env))
        && EvalTupleOp(k, op, EvalAll(FoldChildren(k, op, es, v), env)) == EvalTupleOp(k, op, EvalAll(es, env)))
  {
    var n := Variables(es);
    var (front, tail) := (es[..n], es[n..]);
    var v := FoldTail(k, op, tail, IdentityN(k, op));
    assert es == front + tail;
    OperandsConcat(k, front, tail, narrow);
    IdentityCanonical(k, op);
    FoldTailMeans(k, op, tail, IdentityN(k, op), narrow, env);
    OneOperand(k, ConstOf(v), narrow);
    OperandsConcat(k, front, [ConstOf(v)], narrow);
    var r := FoldChildren(k, op, es, v);
    assert n == |es| ==> tail == [];
    assert r == front + [ConstOf(v)] || (r == front && v == IdentityN(k, op))
      || (r == [ConstOf(v)] && SameValue(v, AbsorbingN(k, op)));
    if AllOf(k, EvalAll(es, env)) {
      FoldedValue(k, op, front, tail, v, narrow, env);
    }
  }

  lemma FoldedValue(k: Kind, op: OpN, front: seq<Expr>, tail: seq<Expr>, v: Value, narrow: bool, env: Env)
    requires op != COMMA && HasIdentity(k, op) && AllConst(tail) && Operands(k, tail, narrow)
    requires v == TupleStep(op, EvalTupleOp(k, op, EvalAll(tail, env)), IdentityN(k, op)) && CanonicalOf(k, v)
    requires AllOf(k, EvalAll(front + tail, env))
    ensures forall r ::
      (r == front + [ConstOf(v)] || (r == front && v == IdentityN(k, op))
        || (r == [ConstOf(v)] && SameValue(v, AbsorbingN(k, op))))
      ==> AllOf(k, EvalAll(r, env)) && EvalTupleOp(k, op, EvalAll(r, env)) == EvalTupleOp(k, op, EvalAll(front + tail, env))
  {
    EvalAllConcat(front, tail, env);
    EvalAllConcat(front, [ConstOf(v)], env);
    assert EvalAll([ConstOf(v)], env) == [v];
    FrontValues(k, front, tail, env);
    ConstValues(k, tail, narrow, env);
    TupleConcat(k, op, EvalAll(tail, env), []);
    StepIdentity(k, op, EvalTupleOp(k, op, EvalAll(tail, env)));
    FoldFront(k, op, front, tail, v, env);
  }

  lemma FrontValues(k: Kind, a: seq<Expr>, b: seq<Expr>, env: Env)
    requires AllOf(k, EvalAll(a, env) + EvalAll(b, env))
    ensures AllOf(k, EvalAll(a, env))
  {
    forall i | 0 <= i < |a| ensures CanonicalOf(k, EvalAll(a, env)[i]) {
      assert EvalAll(a, env)[i] == (EvalAll(a, env) + EvalAll(b, env))[i];
    }
  }

  /** The tail gives way to its value v: to nothing when v is the identity, to v alone when v absorbs. */
  lemma FoldFront(k: Kind, op: OpN, front: seq<Expr>, tail: seq<Expr>, v: Value, env: Env)
    requires op != COMMA && HasIdentity(k, op) && AllOf(k, EvalAll(front, env)) && AllOf(k, EvalAll(tail, env))
    requires CanonicalOf(k, v) && v == EvalTupleOp(k, op, EvalAll(tail, env))
    ensures var whole := EvalTupleOp(k, op, EvalAll(front, env) + EvalAll(tail, env));
      && EvalTupleOp(k, op, EvalAll(front, env) + [v]) == whole
      && (v == IdentityN(k, op) ==> EvalTupleOp(k, op, EvalAll(front, env)) == whole)
      && (SameValue(v, AbsorbingN(k, op)) ==> EvalTupleOp(k, op, [v]) == whole)
  {
    var f := EvalAll(front, env);
    TupleConcat(k, op, f, EvalAll(tail, env));
    TupleConcat(k, op, f, [v]);
    SingleOperand(k, op, v);
    StepIdentity(k, op, EvalTupleOp(k, op, f));
    if SameValue(v, AbsorbingN(k, op)) {
      Absorbs(k, op, v, EvalTupleOp(k, op, f));
    }
  }

  // ---------------------------------------------------------------- tuples

  /** partial_eval_tuple() keeps the value of a tuple. */
  lemma PartialMeans(o: Opts, k: Kind, op: OpN, es: seq<Expr>, e: Expr, narrow: bool, env: Env)
    requires Typed(Tuple(k, op, es)) && Exact(Tuple(k, op, es), narrow) && Size(e) >= 1 + SizeAll(es)
    ensures Replaces(Tuple(k, op, es), PartialEvalTuple(o, k, op, es, e), narrow, env)
  {
    IdentityCanonical(k, op);
    if es != [] {
      var sorted := Ordered(op, es);
      var v := TailValue(o, k, op, sorted);
      var rest := if o.fold then FoldChildren(k, op, sorted, v) else sorted;
      OrderedMeans(k, op, es, narrow, env);
      FoldChildrenMeans(k, op, sorted, narrow, env);
      if Eval(Tuple(k, op, es), env).Val? {
        TupleOperandsValid(k, op, EvalAll(es, env));
      }
      RestReplaces(k, op, es, rest, v, narrow, env);
    }
  }

  lemma RestReplaces(k: Kind, op: OpN, es: seq<Expr>, rest: seq<Expr>, v: Value, narrow: bool, env: Env)
    requires op != COMMA && HasIdentity(k, op) && Operands(k, rest, narrow) && NarrowIf(narrow, k)
    requires rest == [] ==> v == IdentityN(k, op)
    requires Eval(Tuple(k, op, es), env).Val? ==>
      AllOf(k, EvalAll(rest, env)) && EvalTupleOp(k, op, EvalAll(rest, env)) == Eval(Tuple(k, op, es), env)
    ensures Replaces(Tuple(k, op, es),
      if |rest| == 0 then ConstOf(IdentityN(k, op)) else if |rest| == 1 then rest[0] else Tuple(k, op, rest), narrow, env)
  {
    IdentityCanonical(k, op);
    if |rest| == 1 {
      assert rest == [rest[0]];
      OneOperand(k, rest[0], narrow);
      EvalTyped(rest[0], env);
      assert EvalAll(rest, env) == [Eval(rest[0], env)];
      SingleOperand(k, op, Eval(rest[0], env));
    }
  }

  // ---------------------------------------------------------------- the whole optimizer

  /** The list that flattening gives may replace es in a tuple. */
  ghost predicate Spreads(k: Kind, op: OpN, es: seq<Expr>, r: seq<Expr>, narrow: bool, env: Env) {
    && Operands(k, r, narrow)
    && (Defined(es, env) ==>
          AllOf(k, EvalAll(r, env)) && EvalTupleOp(k, op, EvalAll(r, env)) == EvalTupleOp(k, op, EvalAll(es, env)))
  }

  lemma {:induction false} FlattenMeans(o: Opts, k: Kind, op: OpN, es: seq<Expr>, narrow: bool, env: Env)
    requires o.division && op != COMMA && HasIdentity(k, op) && Operands(k, es, narrow)
    ensures Spreads(k, op, es, Flatten(o, k, op, es), narrow, env)
    decreases SizeAll(es), 2
  {
    if es != [] {
      var first := FlattenChild(o, k, op, es[0]);
      var rest := Flatten(o, k, op, es[1..]);
      FlattenChildMeans(o, k, op, es[0], narrow, env);
      FlattenMeans(o, k, op, es[1..], narrow, env);
      SpreadConcat(k, op, es, first, rest, narrow, env);
    }
  }

  lemma SpreadConcat(k: Kind, op: OpN, es: seq<Expr>, first: seq<Expr>, rest: seq<Expr>, narrow: bool, env: Env)
    requires op != COMMA && HasIdentity(k, op) && es != [] && Operands(k, es, narrow)
    requires Spreads(k, op, [es[0]], first, narrow, env) && Spreads(k, op, es[1..], rest, narrow, env)
    ensures Spreads(k, op, es, first + rest, narrow, env)
  {
    OperandsConcat(k, first, rest, narrow);
    EvalAllConcat(first, rest, env);
    if Defined(es, env) {
      assert es == [es[0]] + es[1..];
      EvalAllConcat([es[0]], es[1..], env);
      var (a, b) := (EvalAll([es[0]], env), EvalAll(es[1..], env));
      assert forall i :: 0 <= i < |a| ==> a[i] == (a + b)[i];
      assert forall i :: 0 <= i < |b| ==> b[i] == (a + b)[|a| + i];
      OperandsConcat(k, [es[0]], es[1..], narrow);
      OperandValues(k, [es[0]], narrow, env);
      OperandValues(k, es[1..], narrow, env);
      TupleConcat(k, op, EvalAll(first, env), EvalAll(rest, env));
      TupleConcat(k, op, a, b);
    }
  }

  lemma {:induction false} FlattenChildMeans(o: Opts, k: Kind, op: OpN, e: Expr, narrow: bool, env: Env)
    requires o.division && op != COMMA && HasIdentity(k, op) && Typed(e) && e.kind == k && Exact(e, narrow)
    ensures Spreads(k, op, [e], FlattenChild(o, k, op, e), narrow, env)
    decreases Size(e), 1
  {
    if Nested(k, op, e) {
      FlattenMeans(o, k, op, e.args, narrow, env);
      NestedSpreads(k, op, e, e, Flatten(o, k, op, e.args), narrow, env);
    } else {
      var c := Optimize(o, e);
      OptimizeMeans(o, e, narrow, env);
      if Nested(k, op, c) {
        FlattenMeans(o, k, op, c.args, narrow, env);
        NestedSpreads(k, op, e, c, Flatten(o, k, op, c.args), narrow, env);
      } else {
        OneOperand(k, c, narrow);
        assert EvalAll([e], env) == [Eval(e, env)] && EvalAll([c], env) == [Eval(c, env)];
        EvalTyped(c, env);
      }
    }
  }

  /** Spreading the operands of a nested tuple. */
  lemma NestedSpreads(k: Kind, op: OpN, e: Expr, c: Expr, r: seq<Expr>, narrow: bool, env: Env)
    requires op != COMMA && HasIdentity(k, op) && Nested(k, op, c) && Typed(e) && e.kind == k
    requires SameMeaning(e, c, env) && Spreads(k, op, c.args, r, narrow, env)
    ensures Spreads(k, op, [e], r, narrow, env)
  {
    assert EvalAll([e], env) == [Eval(e, env)];
    if Defined([e], env) {
      assert Eval(e, env).Val?;
      EvalTyped(e, env);
      SingleOperand(k, op, Eval(e, env));
      TupleOperandsValid(k, op, EvalAll(c.args, env));
    }
  }

  /** Optimizing a typed expression gives a typed expression of the same kind, which has the same value
      wherever the expression has one. */
  lemma {:induction false} OptimizeMeans(o: Opts, e: Expr, narrow: bool, env: Env)
    requires o.division && Typed(e) && Exact(e, narrow)
    ensures Replaces(e, Optimize(o, e), narrow, env)
    decreases Size(e), 0
  {
    match e
    case Var(_, _) =>
    case Const(_, _) =>
    case Unary(k, op, x) =>
      OptimizeMeans(o, x, narrow, env);
      UnaryReplaced(o, k, op, Optimize(o, x), narrow, env);
      UnaryChild(k, op, x, Optimize(o, x), narrow, env);
    case Binary(k, op, x, y) => BinaryMeans(o, e, narrow, env);
    case Tuple(k, op, args) =>
      FlattenMeans(o, k, op, args, narrow, env);
      if o.simplify {
        var flat := Flatten(o, k, op, args);
        PartialMeans(o, k, op, flat, e, narrow, env);
        if Eval(e, env).Val? {
          TupleOperandsValid(k, op, EvalAll(args, env));
        }
      }
  }

  lemma UnaryChild(k: Kind, op: Op1, x: Expr, x1: Expr, narrow: bool, env: Env)
    requires Typed(Unary(k, op, x)) && Exact(Unary(k, op, x), narrow) && Replaces(x, x1, narrow, env)
    ensures Replaces(Unary(k, op, x), Unary(k, op, x1), narrow, env)
  {
  }

  lemma {:induction false} BinaryMeans(o: Opts, e: Expr, narrow: bool, env: Env)
    requires e.Binary? && o.division && Typed(e) && Exact(e, narrow)
    ensures Replaces(e, Optimize(o, e), narrow, env)
    decreases Size(e), 0, 0
  {
    var n := narrow || (Compared(e.op2) && !(e.op2 == SUB && e.y == OneConst(e.x.kind)));
    var x1, y1 := Optimize(o, e.x), Optimize(o, e.y);
    OptimizeMeans(o, e.x, n, env);
    OptimizeMeans(o, e.y, n, env);
    BinaryChildren(e, x1, y1, narrow, env);
    assert NewBinary(e.op2, x1, y1) == Binary(e.kind, e.op2, x1, y1);
    BinaryReplaced(o, e.op2, x1, y1, narrow, env);
  }

  lemma BinaryChildren(e: Expr, x1: Expr, y1: Expr, narrow: bool, env: Env)
    requires e.Binary? && Typed(e) && Exact(e, narrow)
    requires var n := narrow || (Compared(e.op2) && !(e.op2 == SUB && e.y == OneConst(e.x.kind)));
      Replaces(e.x, x1, n, env) && Replaces(e.y, y1, n, env)
    requires e.y.Const? ==> y1 == e.y
    ensures Replaces(e, Binary(e.kind, e.op2, x1, y1), narrow, env)
  {
    ExactChildren(e, x1, y1, narrow, env);
    if Eval(e, env).Val? {
      ShortCircuit(e, env);
    }
  }

  lemma ExactChildren(e: Expr, x1: Expr, y1: Expr, narrow: bool, env: Env)
    requires e.Binary? && Exact(e, narrow) && x1.kind == e.x.kind
    requires var n := narrow || (Compared(e.op2) && !(e.op2 == SUB && e.y == OneConst(e.x.kind)));
      Exact(x1, n) && Exact(y1, n)
    requires e.y.Const? ==> y1 == e.y
    ensures Exact(Binary(e.kind, e.op2, x1, y1), narrow)
  {
    if Exact(x1, true) && Exact(y1, true) {
      ExactWeaker(x1, narrow);
      ExactWeaker(y1, narrow);
    }
  }

  lemma ShortCircuit(e: Expr, env: Env)
    requires e.Binary? && Eval(e, env).Val?
    ensures Eval(e.x, env).Val?
  {
  }
}
