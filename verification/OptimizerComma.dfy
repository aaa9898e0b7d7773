/** What the optimizer makes of COMMA: it drops all constants at the end, also when the last one is the value. */
module OptimizerComma {
  import opened Values
  import opened Ir
  import opened Optimizing
  import opened OptimizerMeaning
  import opened OptimizerTuples

  /** The identity of COMMA absorbs every constant that is folded into it. */
  lemma {:induction false} TailDropped(k: Kind, es: seq<Expr>, v: Value)
    requires AllConst(es) && v.Val?
    ensures FoldTail(k, COMMA, es, v) == v
    decreases |es|
  {
    if es != [] {
      assert EvalTupleOp(k, COMMA, [ConstValue(es[|es| - 1]), v]) == v;
      TailDropped(k, es[..|es| - 1], v);
    }
  }

  /** The children that are left. */
  function Remaining(o: Opts, es: seq<Expr>): seq<Expr> { if o.fold then es[..Variables(es)] else es }

  lemma CommaRest(o: Opts, k: Kind, es: seq<Expr>, e: Expr)
    requires es != [] && Size(e) >= 1 + SizeAll(es)
    ensures SizeAll(Remaining(o, es)) <= SizeAll(es)
    ensures PartialEvalTuple(o, k, COMMA, es, e) == TupleOf(k, COMMA, Remaining(o, es), Val(k, 0), e)
  {
    TailDropped(k, es[Variables(es)..], Val(k, 0));
    ChildrenSize(o, k, COMMA, es, Val(k, 0));
    assert TailValue(o, k, COMMA, es) == Val(k, 0);
  }

  /** Without the constants from the n-th child on, the value stays: there are none, or what is now last has the value
      that the last one had. */
  predicate KeptAt(k: Kind, es: seq<Expr>, n: nat, env: Env)
    requires n <= |es|
  {
    n == |es|
    || (if n == 0 then es[|es| - 1] == Const(k, 0) else Eval(es[n - 1], env) == Eval(es[|es| - 1], env))
  }

  predicate CommaKept(o: Opts, k: Kind, es: seq<Expr>, env: Env) { !o.fold || KeptAt(k, es, Variables(es), env) }

  /** Evaluating a COMMA of children that are optimized already keeps its value exactly where CommaKept() says so,
      or where it has none. */
  lemma CommaExact(o: Opts, k: Kind, es: seq<Expr>, e: Expr, env: Env)
    requires Size(e) >= 1 + SizeAll(es)
    ensures Eval(PartialEvalTuple(o, k, COMMA, es, e), env) == Eval(Tuple(k, COMMA, es), env)
      <==> !Defined(es, env) || CommaKept(o, k, es, env)
  {
    if es != [] {
      CommaRest(o, k, es, e);
      RestValue(k, Remaining(o, es), e, env);
      RemainingExact(o, k, es, Remaining(o, es), env);
    }
  }

  lemma RemainingExact(o: Opts, k: Kind, es: seq<Expr>, rest: seq<Expr>, env: Env)
    requires es != [] && rest == Remaining(o, es)
    ensures Eval(Tuple(k, COMMA, rest), env) == Eval(Tuple(k, COMMA, es), env)
      <==> !Defined(es, env) || CommaKept(o, k, es, env)
  {
    if o.fold {
      DroppedExact(k, es, Variables(es), rest, env);
    }
  }

  lemma DroppedExact(k: Kind, es: seq<Expr>, n: nat, rest: seq<Expr>, env: Env)
    requires es != [] && n <= |es| && (forall i :: n <= i < |es| ==> es[i].Const?) && rest == es[..n]
    ensures Eval(Tuple(k, COMMA, rest), env) == Eval(Tuple(k, COMMA, es), env)
      <==> !Defined(es, env) || KeptAt(k, es, n, env)
  {
    DroppedDefined(es, n, env);
    if n == |es| {
      assert rest == es;
    } else {
      LastsCompare(k, rest, if n == 0 then Const(k, 0) else es[n - 1], es, es[|es| - 1], env);
    }
  }

  lemma LastsCompare(k: Kind, a: seq<Expr>, x: Expr, b: seq<Expr>, y: Expr, env: Env)
    requires b != [] && y == b[|b| - 1] && Defined(a, env) == Defined(b, env)
    requires x == if a == [] then Const(k, 0) else a[|a| - 1]
    ensures Eval(Tuple(k, COMMA, a), env) == Eval(Tuple(k, COMMA, b), env)
      <==> !Defined(b, env) || Eval(x, env) == Eval(y, env)
  {
    CommaValue(k, a, env);
    CommaValue(k, b, env);
  }

  lemma RestValue(k: Kind, rest: seq<Expr>, e: Expr, env: Env)
    requires Size(e) >= 1 + SizeAll(rest)
    ensures Eval(TupleOf(k, COMMA, rest, Val(k, 0), e), env) == Eval(Tuple(k, COMMA, rest), env)
  {
    CommaValue(k, rest, env);
  }

  lemma CommaValue(k: Kind, es: seq<Expr>, env: Env)
    ensures Eval(Tuple(k, COMMA, es), env) ==
      if !Defined(es, env) then Invalid else if es == [] then Val(k, 0) else Eval(es[|es| - 1], env)
  {
  }

  /** Constants are always defined. */
  lemma DroppedDefined(es: seq<Expr>, n: nat, env: Env)
    requires n <= |es| && forall i :: n <= i < |es| ==> es[i].Const?
    ensures Defined(es[..n], env) == Defined(es, env)
  {
    forall i | 0 <= i < |es| && EvalAll(es, env)[i].Invalid?
      ensures i < n && EvalAll(es[..n], env)[i].Invalid?
    {
      assert !es[i].Const?;
    }
    assert forall i :: 0 <= i < n ==> EvalAll(es[..n], env)[i] == EvalAll(es, env)[i];
  }

  /** In every store the value stays when the last child is no constant. */
  lemma CommaStays(o: Opts, k: Kind, es: seq<Expr>, e: Expr)
    requires Size(e) >= 1 + SizeAll(es) && es != [] && !es[|es| - 1].Const?
    ensures forall env :: Eval(PartialEvalTuple(o, k, COMMA, es, e), env) == Eval(Tuple(k, COMMA, es), env)
  {
    forall env
      ensures Eval(PartialEvalTuple(o, k, COMMA, es, e), env) == Eval(Tuple(k, COMMA, es), env)
    {
      CommaExact(o, k, es, e, env);
    }
  }

  // ---------------------------------------------------------------- the whole optimizer on COMMA

  /** Expressions of the value theorems, and COMMAs of the same kind that are not empty, to any depth. */
  predicate CommaArg(k: Kind, e: Expr, narrow: bool)
    decreases e, 1
  {
    if Nested(k, COMMA, e) then e.args != [] && CommaArgs(k, e.args, narrow) else Typed(e) && Exact(e, narrow)
  }

  predicate CommaArgs(k: Kind, es: seq<Expr>, narrow: bool)
    decreases es, 0
  {
    es == [] || (CommaArg(k, es[0], narrow) && CommaArgs(k, es[1..], narrow))
  }

  /** The arguments, with those of nested tuples in their place. */
  function Spread(k: Kind, e: Expr): seq<Expr>
    decreases e, 1
  {
    if Nested(k, COMMA, e) then SpreadAll(k, e.args) else [e]
  }

  function SpreadAll(k: Kind, es: seq<Expr>): seq<Expr>
    decreases es, 0
  {
    if es == [] then [] else Spread(k, es[0]) + SpreadAll(k, es[1..])
  }

  /** Both lists are as long, and each expression on the right has the value of the one on the left, if there is one. */
  ghost predicate Keeps(es: seq<Expr>, rs: seq<Expr>, env: Env) {
    |es| == |rs| && forall i :: 0 <= i < |es| ==> SameMeaning(es[i], rs[i], env)
  }

  lemma {:induction false} FlattenKeeps(o: Opts, k: Kind, es: seq<Expr>, narrow: bool, env: Env)
    requires o.division && CommaArgs(k, es, narrow)
    ensures Keeps(SpreadAll(k, es), Flatten(o, k, COMMA, es), env)
    decreases SizeAll(es), 2
  {
    if es != [] {
      ChildKeeps(o, k, es[0], narrow, env);
      FlattenKeeps(o, k, es[1..], narrow, env);
      KeepsConcat(Spread(k, es[0]), FlattenChild(o, k, COMMA, es[0]), SpreadAll(k, es[1..]), Flatten(o, k, COMMA, es[1..]),
                  env);
    }
  }

  lemma KeepsConcat(a: seq<Expr>, b: seq<Expr>, c: seq<Expr>, d: seq<Expr>, env: Env)
    requires Keeps(a, b, env) && Keeps(c, d, env)
    ensures Keeps(a + c, b + d, env)
  {
    forall i | 0 <= i < |a + c|
      ensures SameMeaning((a + c)[i], (b + d)[i], env)
    {
      if i >= |a| {
        assert SameMeaning(c[i - |a|], d[i - |a|], env);
      }
    }
  }

  lemma {:induction false} ChildKeeps(o: Opts, k: Kind, e: Expr, narrow: bool, env: Env)
    requires o.division && CommaArg(k, e, narrow)
    ensures Keeps(Spread(k, e), FlattenChild(o, k, COMMA, e), env)
    decreases Size(e), 1
  {
    if Nested(k, COMMA, e) {
      FlattenKeeps(o, k, e.args, narrow, env);
    } else {
      OptimizeMeans(o, e, narrow, env);
    }
  }

  /** Spreading nested tuples keeps the value. */
  lemma {:induction false} SpreadValue(k: Kind, es: seq<Expr>, narrow: bool, env: Env)
    requires es != [] && CommaArgs(k, es, narrow)
    ensures SpreadAll(k, es) != []
    ensures Eval(Tuple(k, COMMA, SpreadAll(k, es)), env) == Eval(Tuple(k, COMMA, es), env)
    decreases es
  {
    var (a, rest) := (Spread(k, es[0]), SpreadAll(k, es[1..]));
    ArgValue(k, es[0], narrow, env);
    assert es == [es[0]] + es[1..];
    if es[1..] == [] {
      assert rest == [] && a + rest == a && es == [es[0]];
      CommaValue(k, es, env);
    } else {
      SpreadValue(k, es[1..], narrow, env);
      CommaConcat(k, a, rest, env);
      CommaConcat(k, [es[0]], es[1..], env);
      CommaValue(k, [es[0]], env);
    }
  }

  lemma {:induction false} ArgValue(k: Kind, e: Expr, narrow: bool, env: Env)
    requires CommaArg(k, e, narrow)
    ensures Spread(k, e) != [] && Eval(Tuple(k, COMMA, Spread(k, e)), env) == Eval(e, env)
    decreases e
  {
    if Nested(k, COMMA, e) {
      SpreadValue(k, e.args, narrow, env);
    } else {
      CommaValue(k, [e], env);
    }
  }

  /** The value of the second list, where the first one has values. */
  lemma CommaConcat(k: Kind, a: seq<Expr>, b: seq<Expr>, env: Env)
    requires a != [] && b != []
    ensures Eval(Tuple(k, COMMA, a + b), env) ==
      if Eval(Tuple(k, COMMA, a), env).Invalid? then Invalid else Eval(Tuple(k, COMMA, b), env)
  {
    EvalAllConcat(a, b, env);
    CommaValue(k, a, env);
    CommaValue(k, b, env);
    CommaValue(k, a + b, env);
    assert (a + b)[|a + b| - 1] == b[|b| - 1];
    ConcatDefined(EvalAll(a, env), EvalAll(b, env));
  }

  lemma ConcatDefined(a: seq<Value>, b: seq<Value>)
    ensures Invalid in a + b <==> Invalid in a || Invalid in b
  {
  }

  /** Optimizing a COMMA keeps its value, where it has one, exactly when its optimized children end in no constant,
      or in constants that do not matter. */
  lemma OptimizeCommaExact(o: Opts, k: Kind, args: seq<Expr>, narrow: bool, env: Env)
    requires o.division && args != [] && CommaArgs(k, args, narrow) && Eval(Tuple(k, COMMA, args), env).Val?
    ensures Eval(Optimize(o, Tuple(k, COMMA, args)), env) == Eval(Tuple(k, COMMA, args), env)
      <==> !o.simplify || CommaKept(o, k, Flatten(o, k, COMMA, args), env)
  {
    var e := Tuple(k, COMMA, args);
    var es := Flatten(o, k, COMMA, args);
    SpreadValue(k, args, narrow, env);
    FlattenKeeps(o, k, args, narrow, env);
    KeptValue(k, SpreadAll(k, args), es, env);
    CommaExact(o, k, es, e, env);
    CommaValue(k, es, env);
  }

  lemma KeptValue(k: Kind, es: seq<Expr>, rs: seq<Expr>, env: Env)
    requires Keeps(es, rs, env) && Eval(Tuple(k, COMMA, es), env).Val?
    ensures Eval(Tuple(k, COMMA, rs), env) == Eval(Tuple(k, COMMA, es), env)
  {
    forall i | 0 <= i < |es|
      ensures EvalAll(rs, env)[i] == EvalAll(es, env)[i]
    {
      assert EvalAll(es, env)[i] in EvalAll(es, env);
      assert SameMeaning(es[i], rs[i], env);
    }
    assert EvalAll(rs, env) == EvalAll(es, env);
  }

  /** (v0, 5) on int8 is 5; optimized, it is v0. */
  lemma CommaDropsConstant(division: bool)
    ensures var e := Tuple(Void, COMMA, [Var(Int8, 0), Const(Int8, 5)]);
      && Optimize(Opts(true, true, division), e) == Var(Int8, 0)
      && forall env :: Eval(e, env) == Val(Int8, 5)
  {
    var o := Opts(true, true, division);
    var (x, c) := (Var(Int8, 0), Const(Int8, 5));
    var es := [x, c];
    LeavesFlat(o, x, c, es);
    assert es[..1] == [x] && Variables(es) == 1;
    CommaRest(o, Void, es, Tuple(Void, COMMA, es));
    forall env
      ensures Eval(Tuple(Void, COMMA, es), env) == Val(Int8, 5)
    {
      CommaValue(Void, es, env);
    }
  }

  lemma LeavesFlat(o: Opts, x: Expr, c: Expr, es: seq<Expr>)
    requires x.Var? && c.Const? && es == [x, c]
    ensures Flatten(o, Void, COMMA, es) == es
  {
    assert es[1..] == [c] && [c][1..] == [];
    assert Flatten(o, Void, COMMA, []) == [] && FlattenChild(o, Void, COMMA, c) == [c];
    assert Flatten(o, Void, COMMA, [c]) == [c] && FlattenChild(o, Void, COMMA, x) == [x];
  }
}
