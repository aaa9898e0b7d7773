/** The optimizer keeps well-typed expressions well typed, also where it does not keep their value. */
module OptimizerTyped {
  import opened Values
  import opened Ir
  import opened Optimizing
  import opened OptimizerMeaning
  import opened OptimizerTuples

  /** A well-typed expression of the kind k. */
  predicate Fits(k: Kind, e: Expr) { Typed(e) && e.kind == k }

  lemma UnaryTyped(o: Opts, k: Kind, op: Op1, x: Expr)
    requires Typed(Unary(k, op, x))
    ensures TryUnary(o, k, op, x).Some? ==> Fits(k, TryUnary(o, k, op, x).value)
  {
    if o.fold && x.Const? {
      UnaryCanonical(k, op, ConstValue(x));
    }
    NegationTyped(k, op, x);
  }

  lemma NegationTyped(k: Kind, op: Op1, x: Expr)
    requires Typed(Unary(k, op, x))
    ensures SimplifyUnary(k, op, x).Some? ==> Fits(k, SimplifyUnary(k, op, x).value)
  {
    if x.Unary? {
      OneIsDirect(x.x.kind);
      PairTyped(x.x.kind, x.x, OneConst(x.x.kind));
    }
  }

  lemma PairTyped(k: Kind, x: Expr, y: Expr)
    ensures AllTyped([x, y], k) <==> Fits(k, x) && Fits(k, y)
    ensures AllTyped([x], k) <==> Fits(k, x)
  {
    assert [x, y][1..] == [y] && [y][1..] == [] && [x][1..] == [] && AllTyped([], k);
    assert AllTyped([y], k) == Fits(k, y);
  }

  lemma ComparisonTyped(o: Opts, op: Op2, x: Expr, y: Expr)
    requires o.division && Typed(NewBinary(op, x, y)) && IsComparison(op)
    ensures SimplifyComparison(o, op, x, y).Some? ==> Fits(Bool, SimplifyComparison(o, op, x, y).value)
  {
    AlwaysPure(x);
    BoolCanonical(false);
    BoolCanonical(true);
  }

  lemma RewriteTyped(o: Opts, op: Op2, x: Expr, y: Expr)
    requires o.division && Typed(NewBinary(op, x, y))
    ensures Rewrite(o, op, x, y).Some? ==> Fits(NewBinary(op, x, y).kind, Rewrite(o, op, x, y).value)
  {
    if IsComparison(op) {
      ComparisonTyped(o, op, x, y);
    } else {
      AlwaysPure(x);
      OneIsDirect(x.kind);
      CanonicalRange(x.kind, 0);
    }
  }

  lemma BinaryTyped(o: Opts, op: Op2, x: Expr, y: Expr)
    requires o.division && Typed(NewBinary(op, x, y))
    ensures TryBinary(o, op, x, y).Some? ==> Fits(NewBinary(op, x, y).kind, TryBinary(o, op, x, y).value)
  {
    if o.fold && x.Const? && y.Const? {
      BinaryCanonical(x.kind, op, x.num, y.num);
    }
    match PartialEvalBinary(op, x, y) {
      case None => RewriteTyped(o, op, x, y);
      case Some(e) =>
        if e.Binary? {
          assert e == NewBinary(e.op2, e.x, e.y);
          RewriteTyped(o, e.op2, e.x, e.y);
        }
    }
  }

  // ---------------------------------------------------------------- tuples

  lemma {:induction false} TypedConcat(k: Kind, a: seq<Expr>, b: seq<Expr>)
    ensures AllTyped(a + b, k) <==> AllTyped(a, k) && AllTyped(b, k)
  {
    if a == [] {
      assert a + b == b;
    } else {
      assert (a + b)[1..] == a[1..] + b;
      TypedConcat(k, a[1..], b);
    }
  }

  lemma {:induction false} TypedEach(k: Kind, es: seq<Expr>)
    ensures AllTyped(es, k) <==> forall i :: 0 <= i < |es| ==> Fits(k, es[i])
  {
    if es != [] {
      TypedEach(k, es[1..]);
      assert forall i :: 1 <= i < |es| ==> es[i] == es[1..][i - 1];
    }
  }

  lemma OrderedTyped(k: Kind, op: OpN, es: seq<Expr>)
    requires AllTyped(es, k)
    ensures AllTyped(Ordered(op, es), k)
  {
    TypedEach(k, es);
    var s := Ordered(op, es);
    forall i | 0 <= i < |s| ensures Fits(k, s[i]) {
      assert s[i] in multiset(s);
      assert s[i] in es;
    }
    TypedEach(k, s);
  }

  /** Constants of the kind of a tuple fold to one of that kind. */
  lemma {:induction false} TailTyped(k: Kind, op: OpN, es: seq<Expr>, v: Value)
    requires HasIdentity(k, op) && AllTyped(es, k) && AllConst(es) && CanonicalOf(k, v)
    ensures CanonicalOf(k, FoldTail(k, op, es, v))
    decreases |es|
  {
    if es != [] {
      var (front, last) := (es[..|es| - 1], es[|es| - 1]);
      TypedEach(k, es);
      TypedEach(k, front);
      assert Fits(k, last);
      if op != COMMA {
        JoinLast(k, op, [], ConstValue(last), v);
      }
      TailTyped(k, op, front, EvalTupleOp(k, op, [ConstValue(last), v]));
    }
  }

  lemma FoldedTyped(k: Kind, op: OpN, es: seq<Expr>, v: Value)
    requires AllTyped(es, k) && CanonicalOf(k, v)
    ensures AllTyped(FoldChildren(k, op, es, v), k)
  {
    var n := Variables(es);
    TypedEach(k, es);
    TypedEach(k, es[..n]);
    PairTyped(k, ConstOf(v), ConstOf(v));
    TypedConcat(k, es[..n], [ConstOf(v)]);
  }

  /** The value of the constants behind the sorted children. */
  lemma ValueTyped(o: Opts, k: Kind, op: OpN, es: seq<Expr>)
    requires HasIdentity(k, op) && AllTyped(es, k)
    ensures CanonicalOf(k, TailValue(o, k, op, Ordered(op, es)))
  {
    IdentityCanonical(k, op);
    OrderedTyped(k, op, es);
    BehindTyped(k, Ordered(op, es), Variables(Ordered(op, es)));
    TailTyped(k, op, Ordered(op, es)[Variables(Ordered(op, es))..], IdentityN(k, op));
  }

  lemma BehindTyped(k: Kind, es: seq<Expr>, n: nat)
    requires n <= |es| && AllTyped(es, k)
    ensures AllTyped(es[n..], k)
  {
    TypedConcat(k, es[..n], es[n..]);
    assert es[..n] + es[n..] == es;
  }

  lemma PartialTyped(o: Opts, k: Kind, op: OpN, es: seq<Expr>, e: Expr)
    requires HasIdentity(k, op) && AllTyped(es, k) && Size(e) >= 1 + SizeAll(es)
    ensures Fits(k, PartialEvalTuple(o, k, op, es, e))
  {
    IdentityCanonical(k, op);
    if es != [] {
      var sorted := Ordered(op, es);
      var v := TailValue(o, k, op, sorted);
      var rest := if o.fold then FoldChildren(k, op, sorted, v) else sorted;
      OrderedTyped(k, op, es);
      ValueTyped(o, k, op, es);
      FoldedTyped(k, op, sorted, v);
      SortSize(es);
      ChildrenSize(o, k, op, sorted, v);
      RestTyped(k, op, rest, v, e);
    }
  }

  lemma RestTyped(k: Kind, op: OpN, rest: seq<Expr>, v: Value, e: Expr)
    requires HasIdentity(k, op) && AllTyped(rest, k) && CanonicalOf(k, v) && Size(e) >= 1 + SizeAll(rest)
    ensures Fits(k, TupleOf(k, op, rest, v, e))
  {
    if |rest| == 1 {
      PairTyped(k, rest[0], rest[0]);
      assert rest == [rest[0]];
    }
  }

  // ---------------------------------------------------------------- expressions

  lemma {:induction false} FlattenTyped(o: Opts, k: Kind, op: OpN, es: seq<Expr>)
    requires o.division && AllTyped(es, k)
    ensures AllTyped(Flatten(o, k, op, es), k)
    decreases SizeAll(es), 2
  {
    if es != [] {
      ChildTyped(o, k, op, es[0]);
      FlattenTyped(o, k, op, es[1..]);
      TypedConcat(k, FlattenChild(o, k, op, es[0]), Flatten(o, k, op, es[1..]));
    }
  }

  lemma {:induction false} ChildTyped(o: Opts, k: Kind, op: OpN, e: Expr)
    requires o.division && Fits(k, e)
    ensures AllTyped(FlattenChild(o, k, op, e), k)
    decreases Size(e), 1
  {
    if Nested(k, op, e) {
      FlattenTyped(o, k, op, e.args);
    } else {
      var c := Optimize(o, e);
      OptimizeTyped(o, e);
      PairTyped(k, c, c);
      if Nested(k, op, c) {
        FlattenTyped(o, k, op, c.args);
      }
    }
  }

  lemma {:induction false} OptimizeTyped(o: Opts, e: Expr)
    requires o.division && Typed(e)
    ensures Fits(e.kind, Optimize(o, e))
    decreases Size(e), 0
  {
    match e
    case Var(_, _) =>
    case Const(_, _) =>
    case Unary(k, op, x) =>
      OptimizeTyped(o, x);
      UnaryTyped(o, k, op, Optimize(o, x));
    case Binary(k, op, x, y) =>
      OptimizeTyped(o, x);
      OptimizeTyped(o, y);
      assert NewBinary(op, Optimize(o, x), Optimize(o, y)) == Binary(k, op, Optimize(o, x), Optimize(o, y));
      BinaryTyped(o, op, Optimize(o, x), Optimize(o, y));
    case Tuple(k, op, args) =>
      FlattenTyped(o, k, op, args);
      if o.simplify {
        PartialTyped(o, k, op, Flatten(o, k, op, args), e);
      }
  }
}
