/** The shape of optimized tuples, the order of their children, and where the optimizer goes wrong. */
module OptimizerForm {
  import opened Bits
  import opened Values
  import opened Ir
  import opened Imm
  import opened Monoid
  import opened Nodes
  import opened Optimizing
  import opened OptimizerMeaning
  import opened OptimizerTyped

  // ---------------------------------------------------------------- order

  predicate Sorted(es: seq<Expr>) { forall i, j :: 0 <= i < j < |es| ==> DeepCompare(es[i], es[j]) <= 0 }

  lemma {:induction false} InsertSorted(x: Expr, es: seq<Expr>)
    requires Sorted(es)
    ensures Sorted(Insert(x, es))
  {
    var r := Insert(x, es);
    if es == [] {
    } else if DeepCompare(x, es[0]) <= 0 {
      forall j | 1 <= j < |r| ensures DeepCompare(x, r[j]) <= 0 {
        if j > 1 {
          CompareTransitive(x, es[0], es[j - 1]);
        }
      }
    } else {
      var rest := Insert(x, es[1..]);
      InsertSorted(x, es[1..]);
      CompareSwap(x, es[0]);
      forall j | 0 <= j < |rest| ensures DeepCompare(es[0], rest[j]) <= 0 {
        InsertedFrom(x, es[1..], j);
      }
      assert r == [es[0]] + rest;
    }
  }

  lemma InsertedFrom(x: Expr, es: seq<Expr>, j: nat)
    requires j < |Insert(x, es)|
    ensures Insert(x, es)[j] == x || Insert(x, es)[j] in es
  {
    assert Insert(x, es)[j] in multiset([x] + es);
    assert Insert(x, es)[j] in [x] + es;
  }

  lemma {:induction false} SortSorted(es: seq<Expr>)
    ensures Sorted(Sort(es))
  {
    if es != [] {
      SortSorted(es[1..]);
      InsertSorted(es[0], Sort(es[1..]));
    }
  }

  /** Whatever algorithm std::sort() uses, there is one sorted order of children with direct leaves. */
  lemma {:induction false} SortUnique(es: seq<Expr>, p: seq<Expr>)
    requires Sorted(es) && Sorted(p) && multiset(es) == multiset(p)
    requires forall i :: 0 <= i < |es| ==> DirectLeaves(es[i])
    ensures p == es
  {
    assert |es| == |multiset(es)| == |multiset(p)| == |p|;
    if es != [] {
      SameFirst(es, p);
      assert es == [es[0]] + es[1..] && p == [p[0]] + p[1..];
      assert multiset(es[1..]) == multiset(es) - multiset{es[0]};
      assert multiset(p[1..]) == multiset(p) - multiset{p[0]};
      SortUnique(es[1..], p[1..]);
    }
  }

  lemma SameFirst(es: seq<Expr>, p: seq<Expr>)
    requires Sorted(es) && Sorted(p) && multiset(es) == multiset(p) && es != [] && p != []
    requires forall i :: 0 <= i < |es| ==> DirectLeaves(es[i])
    ensures p[0] == es[0]
  {
    assert p[0] in multiset(es) && es[0] in multiset(p);
    var i :| 0 <= i < |es| && es[i] == p[0];
    var j :| 0 <= j < |p| && p[j] == es[0];
    CompareSwap(es[0], p[0]);
    CompareZero(es[0], es[0]);
    if i > 0 && j > 0 {
      assert DeepCompare(es[0], es[i]) <= 0 && DeepCompare(p[0], p[j]) <= 0;
      CompareZero(es[0], p[0]);
      DeepEqualExact(es[0], p[0], true);
    }
  }

  // ---------------------------------------------------------------- normal form

  lemma {:induction false} FlattenNoneNested(o: Opts, k: Kind, op: OpN, es: seq<Expr>)
    ensures NoneNested(k, op, Flatten(o, k, op, es))
    decreases SizeAll(es), 2
  {
    if es != [] {
      ChildNoneNested(o, k, op, es[0]);
      FlattenNoneNested(o, k, op, es[1..]);
    }
  }

  lemma {:induction false} ChildNoneNested(o: Opts, k: Kind, op: OpN, e: Expr)
    ensures NoneNested(k, op, FlattenChild(o, k, op, e))
    decreases Size(e), 1
  {
    if Nested(k, op, e) {
      FlattenNoneNested(o, k, op, e.args);
    } else if Nested(k, op, Optimize(o, e)) {
      FlattenNoneNested(o, k, op, Optimize(o, e).args);
    }
  }

  lemma OrderedNoneNested(k: Kind, op: OpN, es: seq<Expr>)
    requires NoneNested(k, op, es)
    ensures NoneNested(k, op, Ordered(op, es))
  {
    var s := Ordered(op, es);
    forall i | 0 <= i < |s| ensures !Nested(k, op, s[i]) {
      assert s[i] in multiset(s);
      assert s[i] in es;
    }
  }

  /** None of the header, in order, and a constant in the last place only. */
  predicate Shaped(k: Kind, op: OpN, es: seq<Expr>) {
    NoneNested(k, op, es) && Sorted(es) && forall i :: 0 <= i < |es| - 1 ==> !es[i].Const?
  }

  /** What an optimized tuple looks like: several children, none of them a tuple of the same header, in
      order, with at most one constant, which is last. */
  predicate NormalTuple(e: Expr) {
    e.Tuple? && |e.args| > 1 && Shaped(e.kind, e.opn, e.args)
  }

  /** What is flattened to constants only, and combines to no value, stays as it was: constants of another kind. */
  predicate Stays(o: Opts, k: Kind, op: OpN, args: seq<Expr>) {
    var flat := Flatten(o, k, op, args);
    (forall i :: 0 <= i < |flat| ==> flat[i].Const?) && TailValue(o, k, op, Ordered(op, flat)).Invalid?
  }

  /** An optimized commutative tuple is normal, or is no tuple of its header any more, or all its children are constants
      that do not combine. */
  lemma TupleNormalForm(o: Opts, k: Kind, op: OpN, args: seq<Expr>)
    requires o.fold && o.simplify && IsCommutative(op)
    ensures var e := Tuple(k, op, args);
      Nested(k, op, Optimize(o, e)) ==> NormalTuple(Optimize(o, e)) || (Optimize(o, e) == e && Stays(o, k, op, args))
  {
    FlattenNoneNested(o, k, op, args);
    PartialNormal(o, k, op, Flatten(o, k, op, args), Tuple(k, op, args));
  }

  lemma PartialNormal(o: Opts, k: Kind, op: OpN, es: seq<Expr>, e: Expr)
    requires o.fold && IsCommutative(op) && NoneNested(k, op, es) && Size(e) >= 1 + SizeAll(es)
    ensures var r := PartialEvalTuple(o, k, op, es, e);
      Nested(k, op, r) ==>
        || NormalTuple(r)
        || (r == e && (forall i :: 0 <= i < |es| ==> es[i].Const?) && TailValue(o, k, op, Ordered(op, es)).Invalid?)
  {
    if es != [] {
      var sorted := Ordered(op, es);
      var v := TailValue(o, k, op, sorted);
      OrderedNoneNested(k, op, es);
      SortSorted(es);
      FoldedShape(k, op, sorted, v);
      PartialIs(o, k, op, es, e);
      RestNormal(k, op, FoldChildren(k, op, sorted, v), v, e);
      if Variables(sorted) == 0 {
        AllBehind(op, es);
      }
    }
  }

  /** What is made of the folded children. */
  lemma RestNormal(k: Kind, op: OpN, rest: seq<Expr>, v: Value, e: Expr)
    requires Size(e) >= 1 + SizeAll(rest) && Shaped(k, op, rest)
    ensures var r := TupleOf(k, op, rest, v, e);
      Nested(k, op, r) ==> NormalTuple(r) || (r == e && rest == [] && v.Invalid?)
  {
  }

  /** When no child stays in front of the constants, all are constants. */
  lemma AllBehind(op: OpN, es: seq<Expr>)
    requires Variables(Ordered(op, es)) == 0
    ensures forall i :: 0 <= i < |es| ==> es[i].Const?
  {
    var s := Ordered(op, es);
    forall i | 0 <= i < |es| ensures es[i].Const? {
      assert es[i] in multiset(s);
      assert es[i] in s;
    }
  }

  /** A well-typed tuple is normal whenever it keeps its header. */
  lemma TypedNormalForm(o: Opts, k: Kind, op: OpN, args: seq<Expr>)
    requires o.fold && o.simplify && o.division && IsCommutative(op) && Typed(Tuple(k, op, args))
    ensures var r := Optimize(o, Tuple(k, op, args)); Nested(k, op, r) ==> NormalTuple(r)
  {
    TupleNormalForm(o, k, op, args);
    FlattenTyped(o, k, op, args);
    ValueTyped(o, k, op, Flatten(o, k, op, args));
  }

  lemma FoldedShape(k: Kind, op: OpN, es: seq<Expr>, v: Value)
    requires NoneNested(k, op, es) && Sorted(es)
    ensures Shaped(k, op, FoldChildren(k, op, es, v))
  {
    var front := es[..Variables(es)];
    FrontShape(k, op, es, front);
    if v.Val? {
      WithConst(k, op, front, ConstOf(v));
    }
  }

  lemma FrontShape(k: Kind, op: OpN, es: seq<Expr>, front: seq<Expr>)
    requires NoneNested(k, op, es) && Sorted(es) && front == es[..Variables(es)]
    ensures NoneNested(k, op, front) && Sorted(front) && forall i :: 0 <= i < |front| ==> !front[i].Const?
  {
    forall i | 0 <= i < |front| ensures !front[i].Const? {
      if front[i].Const? && i < |front| - 1 {
        ConstantsLast(front[i], front[|front| - 1]);
      }
    }
  }

  lemma WithConst(k: Kind, op: OpN, front: seq<Expr>, c: Expr)
    requires NoneNested(k, op, front) && Sorted(front) && c.Const? && forall i :: 0 <= i < |front| ==> !front[i].Const?
    ensures Shaped(k, op, front + [c]) && Shaped(k, op, [c])
  {
    var es := front + [c];
    forall i, j | 0 <= i < j < |es| ensures DeepCompare(es[i], es[j]) <= 0 {
      if j < |front| {
        assert DeepCompare(front[i], front[j]) <= 0;
      } else {
        BeforeConst(front[i], c);
      }
    }
    NestedLast(k, op, front, c);
  }

  lemma NestedLast(k: Kind, op: OpN, front: seq<Expr>, c: Expr)
    requires NoneNested(k, op, front) && c.Const? && forall i :: 0 <= i < |front| ==> !front[i].Const?
    ensures NoneNested(k, op, front + [c]) && forall i :: 0 <= i < |front| ==> !(front + [c])[i].Const?
  {
  }

  lemma BeforeConst(x: Expr, c: Expr)
    requires c.Const? && !x.Const?
    ensures DeepCompare(x, c) <= 0
  {
    OrderExact(x, c);
  }

  // ---------------------------------------------------------------- limits

  /** Subtracting one variable from another is optimized to zero when they are the same, and also when
      neither fits the direct form; it keeps the value exactly when they are the same or one is direct. */
  lemma DifferenceExact(o: Opts, k: Kind, a: nat, b: nat)
    requires o.simplify && a < MAX_ID && b < MAX_ID && BitSize(k) > 0
    ensures var e := Binary(k, SUB, Var(k, a), Var(k, b));
      (forall env :: Eval(Optimize(o, e), env) == Eval(e, env)) <==> a == b || a < 0x20_0000 || b < 0x20_0000
  {
    var e := Binary(k, SUB, Var(k, a), Var(k, b));
    DifferenceResult(o, k, a, b);
    forall env | a == b ensures Eval(Zero(k), env) == Eval(e, env) {
      SmallMod(0, Modulus(k));
    }
    if a != b && a >= 0x20_0000 && b >= 0x20_0000 {
      var env := DifferenceSeen(k, a, b);
      assert Eval(Optimize(o, e), env) != Eval(e, env);
    }
  }

  /** The difference of two int32 variables with indirect ids is optimized to zero. */
  lemma DifferenceLost(o: Opts)
    requires o.simplify
    ensures var e := Binary(Int32, SUB, Var(Int32, 0x20_0000), Var(Int32, 0x20_0001));
      Optimize(o, e) == Zero(Int32) && Eval(e, map[0x20_0000 := 1]) == Val(Int32, 1)
  {
    DifferenceResult(o, Int32, 0x20_0000, 0x20_0001);
    CanonicalRange(Int32, 0);
    CanonicalRange(Int32, 1);
  }

  lemma DifferenceSeen(k: Kind, a: nat, b: nat) returns (env: Env)
    requires a != b && BitSize(k) > 0
    ensures Eval(Binary(k, SUB, Var(k, a), Var(k, b)), env) != Eval(Zero(k), env)
  {
    env := map[a := 1, b := 0];
    DifferenceOne(k);
    assert Eval(Binary(k, SUB, Var(k, a), Var(k, b)), env) == EvalArithmetic(SUB, k, Wrap(k, 1), Wrap(k, 0));
  }

  lemma DifferenceResult(o: Opts, k: Kind, a: nat, b: nat)
    requires o.simplify && a < MAX_ID && b < MAX_ID
    ensures var e := Binary(k, SUB, Var(k, a), Var(k, b));
      Optimize(o, e) == if a == b || (a >= 0x20_0000 && b >= 0x20_0000) then Zero(k) else e
  {
    var (x, y) := (Var(k, a), Var(k, b));
    LocalExact(k, a);
    LocalExact(k, b);
    LeavesEqualExact(x, y, o.division);
    assert Optimize(o, x) == x && Optimize(o, y) == y;
    assert TryBinary(o, SUB, x, y) == Rewrite(o, SUB, x, y);
  }

  lemma DifferenceOne(k: Kind)
    requires BitSize(k) > 0
    ensures Wrap(k, 0) == 0 && Wrap(k, Wrap(k, 1) - Wrap(k, 0)) != 0
  {
    SmallMod(0, Modulus(k));
    WrapHomomorphism(k, 1, 0);
    OneOf(k);
  }

  /** A tuple of one operand has the value of the operand exactly when the kind has the identity that
      eval_tuple_op() starts from: not for MAX on the signed kinds below 64 bits. */
  lemma IdentityExact(k: Kind, op: OpN)
    ensures (forall n: int :: Canonical(k, n) ==> EvalTupleOp(k, op, [Val(k, n)]) == Val(k, n))
      <==> op == COMMA || HasIdentity(k, op)
  {
    forall n: int | Canonical(k, n) && HasIdentity(k, op)
      ensures EvalTupleOp(k, op, [Val(k, n)]) == Val(k, n)
    {
      SingleOperand(k, op, Val(k, n));
    }
    if !HasIdentity(k, op) {
      CanonicalRange(k, 0);
      FoldOne(op, IdentityN(k, op), Val(k, 0));
      assert EvalTupleOp(k, op, [Val(k, 0)]) == TupleStep(op, IdentityN(k, op), Val(k, 0));
      assert EvalTupleOp(k, op, [Val(k, 0)]).num > 0;
    }
  }

  /** The maximum of the single int8 5 is 128. */
  lemma MaximumOfOne()
    ensures EvalTupleOp(Int8, MAX, [Val(Int8, 5)]) == Val(Int8, 128)
  {
    FoldOne(MAX, IdentityN(Int8, MAX), Val(Int8, 5));
    assert Pow2(7) == 128;
  }
}
