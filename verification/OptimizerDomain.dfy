/** Which programs the optimizer leaves in the domain of the lowering theorems: a condition on the program that
    every rewrite keeps, and the tests, which a rewrite can make such that their jump is wrong. */
module OptimizerDomain {
  import opened Bits
  import opened Values
  import opened Ir
  import opened Stmts
  import opened Optimizing
  import opened OptimizerMeaning
  import opened OptimizerTuples
  import opened OptimizerAssign
  import opened OptimizerStmts
  import opened OptimizerLowered
  import opened Lowering
  import opened LoweringDomain
  import opened LoweringFunc
  import opened Flat

  predicate Ordered2(op: Op2) { op == LSS || op == LEQ || op == GTR || op == GEQ }

  /** An operation that a strict expression may hold: no division or shift but by a constant that always works;
      and a plain one: no ordered comparison of signed operands. */
  predicate OpSteady(op: Op2, x: Expr, y: Expr, strict: bool, plain: bool) {
    && (strict && (op == QUO || op == REM) ==> y.Const? && y.num != 0 && y.num != -1)
    && (strict && (op == SHL || op == SHR) ==> y.Const? && 0 <= y.num < 64)
    && (plain && Ordered2(op) ==> !IsSigned(x.kind))
  }

  predicate Boolean2(op: Op2) { op == LAND || op == LOR }

  /** No casts; the right operand of && and || is strict, and the left one of && plain. */
  predicate Steady(e: Expr, strict: bool, plain: bool)
    decreases e, 1
  {
    match e
    case Var(_, _) => true
    case Const(_, _) => true
    case Unary(_, op, x) => op != CAST && op != BITCOPY && Steady(x, strict, plain)
    case Binary(_, op, x, y) =>
      && Steady(x, strict, plain || op == LAND) && Steady(y, strict || Boolean2(op), plain)
      && OpSteady(op, x, y, strict, plain)
    case Tuple(_, _, args) => AllSteady(args, strict, plain)
  }

  predicate AllSteady(es: seq<Expr>, strict: bool, plain: bool)
    decreases es, 0
  {
    es == [] || (Steady(es[0], strict, plain) && AllSteady(es[1..], strict, plain))
  }

  lemma {:induction false} SteadyEach(es: seq<Expr>, strict: bool, plain: bool)
    ensures AllSteady(es, strict, plain) <==> forall e :: e in es ==> Steady(e, strict, plain)
  {
    if es != [] {
      SteadyEach(es[1..], strict, plain);
      assert es == [es[0]] + es[1..] && es[0] in es;
      assert forall e :: e in es[1..] ==> e in es;
      assert forall e :: e in es ==> e == es[0] || e in es[1..];
    }
  }

  lemma {:induction false} SteadyWeaker(e: Expr, s: bool, p: bool, strict: bool, plain: bool)
    requires Steady(e, s, p) && (strict ==> s) && (plain ==> p)
    ensures Steady(e, strict, plain)
    decreases e, 1
  {
    match e
    case Var(_, _) =>
    case Const(_, _) =>
    case Unary(_, _, x) => SteadyWeaker(x, s, p, strict, plain);
    case Binary(_, op, x, y) =>
      SteadyWeaker(x, s, p || op == LAND, strict, plain || op == LAND);
      SteadyWeaker(y, s || Boolean2(op), p, strict || Boolean2(op), plain);
    case Tuple(_, _, args) => AllSteadyWeaker(args, s, p, strict, plain);
  }

  lemma {:induction false} AllSteadyWeaker(es: seq<Expr>, s: bool, p: bool, strict: bool, plain: bool)
    requires AllSteady(es, s, p) && (strict ==> s) && (plain ==> p)
    ensures AllSteady(es, strict, plain)
    decreases es, 0
  {
    if es != [] {
      SteadyWeaker(es[0], s, p, strict, plain);
      AllSteadyWeaker(es[1..], s, p, strict, plain);
    }
  }

  // ---------------------------------------------------------------- every rewrite keeps it

  lemma UnarySteady(o: Opts, k: Kind, op: Op1, x: Expr, strict: bool, plain: bool)
    requires op != CAST && op != BITCOPY && Steady(x, strict, plain)
    ensures TryUnary(o, k, op, x).Some? ==> Steady(TryUnary(o, k, op, x).value, strict, plain)
  {
    if x.Unary? {
      SteadyEach([x.x, OneConst(x.x.kind)], strict, plain);
    } else if x.Binary? && IsComparison(x.op2) {
      assert Steady(NewBinary(NotComparison(x.op2), x.x, x.y), strict, plain);
    }
  }

  lemma RewriteSteady(o: Opts, op: Op2, x: Expr, y: Expr, strict: bool, plain: bool)
    requires o.division && Steady(Binary(Bool, op, x, y), strict, plain)
    ensures Rewrite(o, op, x, y).Some? ==> Steady(Rewrite(o, op, x, y).value, strict, plain)
  {
    AlwaysPure(x);
    if Boolean2(op) {
      SteadyWeaker(x, strict, plain || op == LAND, strict, plain);
      SteadyWeaker(y, true, plain, strict, plain);
    }
  }

  lemma BinarySteady(o: Opts, op: Op2, x: Expr, y: Expr, strict: bool, plain: bool)
    requires o.division && x.kind == y.kind && Steady(Binary(Bool, op, x, y), strict, plain)
    ensures TryBinary(o, op, x, y).Some? ==> Steady(TryBinary(o, op, x, y).value, strict, plain)
  {
    match PartialEvalBinary(op, x, y) {
      case None => RewriteSteady(o, op, x, y, strict, plain);
      case Some(e) =>
        if IsComparison(op) {
          assert Steady(Binary(Bool, SwapComparison(op), y, x), strict, plain);
          RewriteSteady(o, SwapComparison(op), y, x, strict, plain);
        } else {
          NoIdentity(x.kind, op);
          assert e == x && Steady(x, strict, plain);
          if e.Binary? {
            RewriteOther(o, e, strict, plain);
          }
        }
    }
  }

  lemma NoIdentity(k: Kind, op: Op2)
    ensures Boolean2(op) ==> Identity2(k, op).Invalid?
  {
  }

  lemma RewriteOther(o: Opts, e: Expr, strict: bool, plain: bool)
    requires o.division && e.Binary? && Steady(e, strict, plain)
    ensures Rewrite(o, e.op2, e.x, e.y).Some? ==> Steady(Rewrite(o, e.op2, e.x, e.y).value, strict, plain)
  {
    assert Steady(Binary(Bool, e.op2, e.x, e.y), strict, plain);
    RewriteSteady(o, e.op2, e.x, e.y, strict, plain);
  }

  lemma PartialSteady(o: Opts, k: Kind, op: OpN, es: seq<Expr>, e: Expr, strict: bool, plain: bool)
    requires Size(e) >= 1 + SizeAll(es) && AllSteady(es, strict, plain) && Steady(e, strict, plain)
    ensures Steady(PartialEvalTuple(o, k, op, es, e), strict, plain)
  {
    if es != [] {
      var sorted := Ordered(op, es);
      var v := TailValue(o, k, op, sorted);
      var rest := if o.fold then FoldChildren(k, op, sorted, v) else sorted;
      OrderedSteady(op, es, strict, plain);
      FoldedSteady(k, op, sorted, v, strict, plain);
      PartialIs(o, k, op, es, e);
      RestSteady(k, op, rest, v, e, strict, plain);
    }
  }

  lemma RestSteady(k: Kind, op: OpN, rest: seq<Expr>, v: Value, e: Expr, strict: bool, plain: bool)
    requires Size(e) >= 1 + SizeAll(rest) && AllSteady(rest, strict, plain) && Steady(e, strict, plain)
    ensures Steady(TupleOf(k, op, rest, v, e), strict, plain)
  {
    if |rest| == 1 {
      assert Steady(rest[0], strict, plain);
    }
  }

  lemma OrderedSteady(op: OpN, es: seq<Expr>, strict: bool, plain: bool)
    requires AllSteady(es, strict, plain)
    ensures AllSteady(Ordered(op, es), strict, plain)
  {
    SteadyEach(es, strict, plain);
    var s := Ordered(op, es);
    forall e | e in s ensures Steady(e, strict, plain) {
      assert e in multiset(s);
      assert e in es;
    }
    SteadyEach(s, strict, plain);
  }

  lemma FoldedSteady(k: Kind, op: OpN, es: seq<Expr>, v: Value, strict: bool, plain: bool)
    requires AllSteady(es, strict, plain)
    ensures AllSteady(FoldChildren(k, op, es, v), strict, plain)
  {
    SteadyEach(es, strict, plain);
    var r := FoldChildren(k, op, es, v);
    forall i | 0 <= i < |r| ensures Steady(r[i], strict, plain) {
      if !(v.Val? && r[i] == ConstOf(v)) {
        assert r[i] == es[i] && es[i] in es;
      }
    }
    SteadyEach(r, strict, plain);
  }

  lemma {:induction false} FlattenSteady(o: Opts, k: Kind, op: OpN, es: seq<Expr>, narrow: bool, strict: bool, plain: bool)
    requires o.division && AllTyped(es, k) && AllExact(es, narrow) && AllSteady(es, strict, plain)
    ensures AllSteady(Flatten(o, k, op, es), strict, plain)
    decreases SizeAll(es), 2
  {
    if es != [] {
      ChildSteady(o, k, op, es[0], narrow, strict, plain);
      FlattenSteady(o, k, op, es[1..], narrow, strict, plain);
      SteadyEach(FlattenChild(o, k, op, es[0]), strict, plain);
      SteadyEach(Flatten(o, k, op, es[1..]), strict, plain);
      SteadyEach(Flatten(o, k, op, es), strict, plain);
    }
  }

  lemma {:induction false} ChildSteady(o: Opts, k: Kind, op: OpN, e: Expr, narrow: bool, strict: bool, plain: bool)
    requires o.division && Typed(e) && Exact(e, narrow) && Steady(e, strict, plain)
    ensures AllSteady(FlattenChild(o, k, op, e), strict, plain)
    decreases Size(e), 1
  {
    if Nested(k, op, e) {
      FlattenSteady(o, k, op, e.args, narrow, strict, plain);
    } else {
      var c := Optimize(o, e);
      OptimizeSteady(o, e, narrow, strict, plain);
      OptimizeMeans(o, e, narrow, map[]);
      SteadyEach([c], strict, plain);
      if Nested(k, op, c) {
        FlattenSteady(o, k, op, c.args, narrow, strict, plain);
      }
    }
  }

  /** A binary operator of optimized operands. */
  lemma OperandsSteady(o: Opts, e: Expr, x: Expr, y: Expr, strict: bool, plain: bool)
    requires o.division && e.Binary? && Steady(e, strict, plain) && (x, y) == (Optimize(o, e.x), Optimize(o, e.y))
    requires x.kind == e.x.kind && y.kind == e.y.kind && x.kind == y.kind
    requires Steady(x, strict, plain || e.op2 == LAND) && Steady(y, strict || Boolean2(e.op2), plain)
    ensures Steady(Optimize(o, e), strict, plain)
  {
    assert Steady(Binary(Bool, e.op2, x, y), strict, plain);
    BinarySteady(o, e.op2, x, y, strict, plain);
  }

  lemma {:induction false} OptimizeSteady(o: Opts, e: Expr, narrow: bool, strict: bool, plain: bool)
    requires o.division && Typed(e) && Exact(e, narrow) && Steady(e, strict, plain)
    ensures Steady(Optimize(o, e), strict, plain)
    decreases Size(e), 0
  {
    match e
    case Var(_, _) =>
    case Const(_, _) =>
    case Unary(k, op, x) =>
      OptimizeSteady(o, x, narrow, strict, plain);
      UnarySteady(o, k, op, Optimize(o, x), strict, plain);
    case Binary(k, op, x, y) =>
      var m := narrow || (Compared(op) && !(op == SUB && y == OneConst(x.kind)));
      OptimizeSteady(o, x, m, strict, plain || op == LAND);
      OptimizeSteady(o, y, m, strict || Boolean2(op), plain);
      OptimizeMeans(o, x, m, map[]);
      OptimizeMeans(o, y, m, map[]);
      OperandsSteady(o, e, Optimize(o, x), Optimize(o, y), strict, plain);
    case Tuple(k, op, args) =>
      FlattenSteady(o, k, op, args, narrow, strict, plain);
      if o.simplify {
        PartialSteady(o, k, op, Flatten(o, k, op, args), e, strict, plain);
      }
  }

  // ---------------------------------------------------------------- what it is good for

  /** Steady expressions lower well; strict ones never fail, and plain ones compile to no signed < or <=. */
  lemma {:induction false} SteadyLowers(e: Expr, strict: bool, plain: bool)
    requires Typed(e) && Steady(e, strict, plain)
    ensures Lowers(e) && (strict ==> NeverFaults(e)) && (plain ==> !SignedLess(Skeleton(e)))
    decreases e, 1
  {
    match e
    case Var(_, _) =>
    case Const(_, _) =>
    case Unary(_, _, x) => SteadyLowers(x, strict, plain);
    case Binary(_, op, x, y) =>
      SteadyLowers(x, strict, plain || op == LAND);
      SteadyLowers(y, strict || Boolean2(op), plain);
      SkeletonKind(x);
    case Tuple(k, _, args) => AllSteadyLower(args, k, strict, plain);
  }

  lemma {:induction false} AllSteadyLower(es: seq<Expr>, k: Kind, strict: bool, plain: bool)
    requires AllTyped(es, k) && AllSteady(es, strict, plain)
    ensures AllShaped(es) && AllQuiet(es) && (strict ==> NoneFaults(es))
    ensures forall i :: 0 <= i < |SkeletonLeaves(es)| ==> IsLeaf(SkeletonLeaves(es)[i])
    decreases es, 0
  {
    if es != [] {
      SteadyLowers(es[0], strict, plain);
      AllSteadyLower(es[1..], k, strict, plain);
    }
  }

  lemma SkeletonKind(e: Expr)
    requires Typed(e) && Shaped(e)
    ensures Skeleton(e).kind == e.kind
  {
    var s := CState([], [], [], [], 0, 0, 0);
    CompiledShape(e, s);
    assert Erase(CompileExpr(e, s).0).kind == CompileExpr(e, s).0.kind;
  }

  // ---------------------------------------------------------------- tests

  /** A comparison or a constant, maybe negated. */
  predicate AtomTest(t: Expr) {
    match t
    case Const(_, _) => true
    case Unary(_, op, x) => op == NOT1 && AtomTest(x)
    case Binary(_, op, _, _) => IsComparison(op)
    case _ => false
  }

  /** A test that stays one under every rewrite: a right operand of && or || must not become a variable. */
  predicate BoolTest(t: Expr) {
    match t
    case Var(_, _) => true
    case Const(_, _) => true
    case Unary(_, op, x) => op == NOT1 && BoolTest(x)
    case Binary(_, op, x, y) => IsComparison(op) || (Boolean2(op) && BoolTest(x) && AtomTest(y))
    case Tuple(_, _, _) => false
  }

  lemma {:induction false} AtomIsTest(t: Expr)
    requires AtomTest(t)
    ensures BoolTest(t)
  {
    if t.Unary? {
      AtomIsTest(t.x);
    }
  }

  lemma RewrittenKept(o: Opts, op: Op2, x: Expr, y: Expr)
    requires o.division && IsComparison(op)
    ensures Rewrite(o, op, x, y).Some? ==> AtomTest(Rewrite(o, op, x, y).value)
  {
    AlwaysPure(x);
  }

  lemma SimplifiedKept(o: Opts, op: Op2, x: Expr, y: Expr)
    requires o.division && IsComparison(op)
    ensures SimplifyBinary(o, op, x, y).Some? ==> AtomTest(SimplifyBinary(o, op, x, y).value)
  {
    RewrittenKept(o, op, x, y);
    RewrittenKept(o, SwapComparison(op), y, x);
  }

  lemma ComparisonKept(o: Opts, op: Op2, x: Expr, y: Expr)
    requires o.division && IsComparison(op)
    ensures TryBinary(o, op, x, y).Some? ==> AtomTest(TryBinary(o, op, x, y).value)
  {
    SimplifiedKept(o, op, x, y);
  }

  lemma NotKept(o: Opts, k: Kind, x: Expr)
    ensures TryUnary(o, k, NOT1, x).Some? ==> AtomTest(TryUnary(o, k, NOT1, x).value)
  {
  }

  lemma {:induction false} AtomKept(o: Opts, t: Expr)
    requires o.division && AtomTest(t)
    ensures AtomTest(Optimize(o, t))
  {
    match t
    case Unary(k, _, x) =>
      AtomKept(o, x);
      NotKept(o, k, Optimize(o, x));
    case Binary(_, op, x, y) => ComparisonKept(o, op, Optimize(o, x), Optimize(o, y));
    case _ =>
  }

  lemma {:induction false} TestKept(o: Opts, t: Expr)
    requires o.division && BoolTest(t)
    ensures BoolTest(Optimize(o, t))
  {
    match t
    case Unary(k, _, x) =>
      TestKept(o, x);
      NotKept(o, k, Optimize(o, x));
      var r := Optimize(o, t);
      if AtomTest(r) {
        AtomIsTest(r);
      }
    case Binary(_, op, x, y) =>
      if IsComparison(op) {
        AtomKept(o, t);
        AtomIsTest(Optimize(o, t));
      } else {
        TestKept(o, x);
        AtomKept(o, y);
        BooleanKept(o, op, Optimize(o, x), Optimize(o, y));
      }
    case _ =>
  }

  lemma BooleanKept(o: Opts, op: Op2, x: Expr, y: Expr)
    requires o.division && Boolean2(op) && BoolTest(x) && AtomTest(y)
    ensures TryBinary(o, op, x, y).Some? ==> BoolTest(TryBinary(o, op, x, y).value)
  {
    AtomIsTest(y);
    NoIdentity(x.kind, op);
    AlwaysPure(x);
  }

  lemma {:induction false} AtomCore(t: Expr)
    requires AtomTest(t)
    ensures !Skeleton(t).Var? && IsComparison(Comparands(StripNots(Skeleton(t)).0).1)
  {
    if t.Unary? {
      AtomCore(t.x);
    }
  }

  /** The jump for such a test is one on a comparison. */
  lemma {:induction false} TestCore(t: Expr)
    requires BoolTest(t)
    ensures IsComparison(Comparands(StripNots(Skeleton(t)).0).1)
  {
    match t
    case Unary(_, _, x) => TestCore(x);
    case Binary(_, op, x, y) =>
      if Boolean2(op) {
        TestCore(x);
        AtomCore(y);
      }
    case _ =>
  }

  /** The compiled test is a signed < or <= under a number of negations that is odd or not, as given, and not
      decided at compile time. */
  predicate LessUnder(t: Expr, odd: bool) {
    var (u, negate) := StripNots(Skeleton(t));
    negate == odd && SignedLess(u) && ConstVerdict(u.x, u.op2, u.y).Invalid?
  }

  /** A test serves for `if` and `cond`, which jump when it is false, exactly when it does not compile to a
      signed < or <=; and for `for`, exactly when it does not compile to a negated one. */
  lemma TestExact(t: Expr)
    requires GoodExpr(t) && BoolTest(t)
    ensures IfOk(t) <==> !LessUnder(t, false)
    ensures TestOk(NewUnary(NOT1, Skeleton(t))) <==> !LessUnder(t, false)
    ensures TestOk(Skeleton(t)) <==> !LessUnder(t, true)
  {
    TestCore(t);
    var s := Skeleton(t);
    assert StripNots(NewUnary(NOT1, s)) == (StripNots(s).0, !StripNots(s).1);
  }

  // ---------------------------------------------------------------- statements

  /** A statement whose expressions are steady and whose tests stay tests. */
  predicate Tame(st: Stmt, sc: Scope)
    decreases st, 1
  {
    match st
    case ExprStmt(e) => Steady(e, false, false)
    case Assign(op, k, _, src) =>
      Steady(src, false, false) && (BitSize(k) >= 8 || (op == ASSIGN && BoolTest(src)))
    case Inc(_, _) => true
    case Dec(_, _) => true
    case If(test, a, b) => TameTest(test) && Tame(a, sc) && Tame(b, sc)
    case For(init, test, post, body) =>
      Tame(init, sc) && TameTest(test) && Tame(post, LoopScope(sc)) && Tame(body, LoopScope(sc))
    case Cond(clauses) => ClausesTame(clauses, sc)
    case Switch(expr, cases) =>
      Steady(expr, false, false) && DefaultCount(cases) <= 1 && CasesTame(cases, expr.kind, CaseScope(sc))
    case Block(stmts) => AllTame(stmts, sc)
    case Break => sc.breaks
    case Continue => sc.continues
    case Fallthrough => sc.fallsThrough
  }

  predicate TameTest(t: Expr) { Steady(t, false, false) && BoolTest(t) }

  predicate AllTame(ss: seq<Stmt>, sc: Scope)
    decreases ss, 0
  {
    ss == [] || (Tame(ss[0], sc) && AllTame(ss[1..], sc))
  }

  predicate ClausesTame(cs: seq<Clause>, sc: Scope)
    decreases cs, 0
  {
    cs == [] || (ClauseTame(cs[0], sc) && ClausesTame(cs[1..], sc))
  }

  predicate ClauseTame(c: Clause, sc: Scope)
    decreases c, 2
  {
    TameTest(c.test) && Tame(c.body, sc)
  }

  predicate CasesTame(cs: seq<Case>, k: Kind, sc: Scope)
    decreases cs, 0
  {
    cs == [] || (CaseTame(cs[0], k, sc) && CasesTame(cs[1..], k, sc))
  }

  predicate CaseTame(c: Case, k: Kind, sc: Scope)
    decreases c, 2
  {
    (c.Case? ==> Steady(c.expr, false, false) && c.expr.kind == k) && Tame(c.body, sc)
  }

  /** No test of the statement is optimized to one that its jump gets wrong, and no loop to one that lowering
      drops although its test is true, or whose `continue` skips a `post`. */
  predicate TestsSafe(o: Opts, st: Stmt)
    decreases st, 1
  {
    match st
    case If(test, a, b) => !LessUnder(Optimize(o, test), false) && TestsSafe(o, a) && TestsSafe(o, b)
    case For(init, test, post, body) =>
      var t := Optimize(o, test);
      && TestsSafe(o, init)
      && (t.Const? ==> t.num == 0)
      && (!t.Const? ==> !LessUnder(t, true) && (HasContinue(body) ==> OptimizeStmt(o, post) == NO_STMT))
      && (!t.Const? ==> TestsSafe(o, body) && TestsSafe(o, post))
    case Cond(clauses) => ClausesSafe(o, clauses)
    case Switch(_, cases) => CasesSafe(o, cases)
    case Block(stmts) => AllSafe(o, stmts)
    case _ => true
  }

  predicate AllSafe(o: Opts, ss: seq<Stmt>)
    decreases ss, 0
  {
    ss == [] || (TestsSafe(o, ss[0]) && AllSafe(o, ss[1..]))
  }

  predicate ClausesSafe(o: Opts, cs: seq<Clause>)
    decreases cs, 0
  {
    cs == [] || (ClauseSafe(o, cs[0]) && ClausesSafe(o, cs[1..]))
  }

  predicate ClauseSafe(o: Opts, c: Clause)
    decreases c, 2
  {
    !LessUnder(Optimize(o, c.test), false) && TestsSafe(o, c.body)
  }

  predicate CasesSafe(o: Opts, cs: seq<Case>)
    decreases cs, 0
  {
    cs == [] || (CaseSafe(o, cs[0]) && CasesSafe(o, cs[1..]))
  }

  predicate CaseSafe(o: Opts, c: Case)
    decreases c, 2
  {
    TestsSafe(o, c.body)
  }

  // ---------------------------------------------------------------- exactly when the optimized program lowers well

  lemma ExprLowerable(o: Opts, e: Expr, ks: Kinds, n: nat)
    requires o.division && OkExpr(e, ks, n) && Steady(e, false, false)
    ensures var r := Optimize(o, e);
      GoodExpr(r) && VarsBelow(r, n) && r.kind == e.kind && VarsIn(r, ks, n) && Steady(r, false, false)
  {
    OptimizeMeans(o, e, false, map[]);
    OptimizeSteady(o, e, false, false, false);
    SteadyLowers(Optimize(o, e), false, false);
    OptimizeVars(o, e, ks, n);
    VarsInBelow(Optimize(o, e), ks, n, n);
  }

  lemma TestLowerable(o: Opts, t: Expr, ks: Kinds, n: nat)
    requires o.division && OkExpr(t, ks, n) && TameTest(t)
    ensures var r := Optimize(o, t);
      && GoodExpr(r) && VarsBelow(r, n)
      && (IfOk(r) <==> !LessUnder(r, false)) && (TestOk(NewUnary(NOT1, Skeleton(r))) <==> !LessUnder(r, false))
      && (TestOk(Skeleton(r)) <==> !LessUnder(r, true))
  {
    ExprLowerable(o, t, ks, n);
    TestKept(o, t);
    TestExact(Optimize(o, t));
  }

  /** Every rewrite of an assignment lowers well. */
  lemma AssignLowerable(o: Opts, st: Stmt, ks: Kinds, n: nat, sc: Scope)
    requires o.division && st.Assign? && OkStmt(st, ks, n) && Tame(st, sc)
    ensures Lowerable(OptimizeStmt(o, st), sc, n)
  {
    var src := Optimize(o, st.src);
    ExprLowerable(o, st.src, ks, n);
    RewritesFit(o, st, src, sc);
    if TryAssign(o.division, st.op, st.kind, st.id, src).Some? {
      TriedLowerable(o.division, st.op, st.kind, st.id, src, n, sc);
    }
  }

  lemma TestNotShortened(division: bool, k: Kind, id: nat, src: Expr)
    requires BoolTest(src)
    ensures ShortenAssign(division, k, id, src).None?
  {
  }

  /** Where a rewrite of an assignment writes 2, the kind has it. */
  lemma RewritesFit(o: Opts, st: Stmt, src: Expr, sc: Scope)
    requires o.division && st.Assign? && Tame(st, sc) && src == Optimize(o, st.src)
    ensures st.op != ASSIGN || (!src.Const? && ShortenAssign(o.division, st.kind, st.id, src).Some?)
      ==> Canonical(st.kind, 2)
  {
    if BitSize(st.kind) < 8 {
      TestKept(o, st.src);
      TestNotShortened(o.division, st.kind, st.id, src);
    } else {
      WideTwo(st.kind);
    }
  }

  lemma TriedLowerable(division: bool, op: AssignOp, k: Kind, id: nat, src: Expr, n: nat, sc: Scope)
    requires id < n && GoodExpr(src) && VarsBelow(src, n) && TryAssign(division, op, k, id, src).Some?
    requires op != ASSIGN || (!src.Const? && ShortenAssign(division, k, id, src).Some?) ==> Canonical(k, 2)
    ensures Lowerable(TryAssign(division, op, k, id, src).value, sc, n)
  {
    if TryShort(division, op, k, id, src).Some? {
      ShortLowerable(division, op, k, id, src, n, sc);
    } else {
      ShortenLowerable(division, k, id, src, n, sc);
    }
  }

  lemma WideTwo(k: Kind)
    requires BitSize(k) >= 8
    ensures Canonical(k, 2)
  {
    assert Pow2(BitSize(k) - 1) == 4 * Pow2(BitSize(k) - 3);
    CanonicalRange(k, 2);
  }

  lemma ConstLowerable(op: AssignOp, k: Kind, id: nat, c: int, n: nat, sc: Scope)
    requires id < n && Canonical(k, c)
    ensures Lowerable(Assign(op, k, id, Const(k, c)), sc, n) && Lowerable(NO_STMT, sc, n)
  {
    CanonicalRange(Void, 0);
  }

  lemma SimplifyLowerable(op: AssignOp, k: Kind, id: nat, c: Expr, n: nat, sc: Scope)
    requires id < n && Typed(c) && c.Const? && SimplifyAssign(op, k, id, ConstValue(c)).Some?
    ensures Lowerable(SimplifyAssign(op, k, id, ConstValue(c)).value, sc, n)
  {
    ConstLowerable(ASSIGN, c.kind, id, c.num, n, sc);
    SimplifyForms(op, k, id, ConstValue(c));
  }

  /** The statements that (op= dst c) is simplified to. */
  lemma SimplifyForms(op: AssignOp, k: Kind, id: nat, c: Value)
    requires SimplifyAssign(op, k, id, c).Some?
    ensures c.Val? && c.kind == k
    ensures var r := SimplifyAssign(op, k, id, c).value;
      r == NO_STMT || r == Inc(k, id) || r == Dec(k, id) || r == Assign(ASSIGN, k, id, ConstOf(c))
  {
    if ToOpN(op).Some? {
      SpecialKinds(k, ToOpN(op).value);
    } else {
      IdentityKind(k, ToOp2(op).value);
    }
  }

  lemma SpecialKinds(k: Kind, op: OpN)
    ensures AbsorbingN(k, op).Val? ==> AbsorbingN(k, op).kind == k
    ensures IdentityN(k, op).Val? ==> IdentityN(k, op).kind == k
  {
  }

  lemma IdentityKind(k: Kind, op: Op2)
    ensures Identity2(k, op).Val? ==> Identity2(k, op).kind == k
  {
  }

  lemma SelfLowerable(op: AssignOp, k: Kind, id: nat, n: nat, sc: Scope)
    requires id < n && SelfAssign(op, k, id).Some? && (op != ASSIGN ==> Canonical(k, 2))
    ensures Lowerable(SelfAssign(op, k, id).value, sc, n)
  {
    CanonicalRange(k, 0);
    WrapCanonical(k, 1);
    ConstLowerable(ASSIGN, k, id, 0, n, sc);
    ConstLowerable(ASSIGN, k, id, Wrap(k, 1), n, sc);
    if op != ASSIGN {
      ConstLowerable(MUL_ASSIGN, k, id, 2, n, sc);
    }
  }

  lemma ShortLowerable(division: bool, op: AssignOp, k: Kind, id: nat, src: Expr, n: nat, sc: Scope)
    requires id < n && Typed(src) && TryShort(division, op, k, id, src).Some?
    requires op != ASSIGN ==> Canonical(k, 2)
    ensures Lowerable(TryShort(division, op, k, id, src).value, sc, n)
  {
    if src.Const? {
      SimplifyLowerable(op, k, id, src, n, sc);
    } else {
      SelfLowerable(op, k, id, n, sc);
    }
  }

  lemma ShortenLowerable(division: bool, k: Kind, id: nat, src: Expr, n: nat, sc: Scope)
    requires id < n && GoodExpr(src) && VarsBelow(src, n) && Canonical(k, 2)
    requires ShortenAssign(division, k, id, src).Some?
    ensures Lowerable(ShortenAssign(division, k, id, src).value, sc, n)
  {
    if src.Binary? {
      MadeLowerable(division, AssignOf2(src.op2).value, k, id, src.y, n, sc);
    } else {
      SecondArg(src, n);
      MadeLowerable(division, AssignOfN(src.opn).value, k, id, src.args[1], n, sc);
    }
  }

  lemma SecondArg(e: Expr, n: nat)
    requires e.Tuple? && |e.args| == 2 && GoodExpr(e) && VarsBelow(e, n)
    ensures GoodExpr(e.args[1]) && VarsBelow(e.args[1], n)
  {
    var (args, rest) := (e.args, e.args[1..]);
    assert AllTyped(args, e.kind) && AllShaped(args) && AllQuiet(args) && AllBelow(args, n);
    assert AllTyped(rest, e.kind) && AllShaped(rest) && AllQuiet(rest) && AllBelow(rest, n);
    assert rest[0] == e.args[1];
  }

  lemma MadeLowerable(division: bool, op: AssignOp, k: Kind, id: nat, src: Expr, n: nat, sc: Scope)
    requires op != ASSIGN && id < n && GoodExpr(src) && VarsBelow(src, n) && Canonical(k, 2)
    ensures Lowerable(MakeAssign(division, op, k, id, src), sc, n)
  {
    if TryShort(division, op, k, id, src).Some? {
      ShortLowerable(division, op, k, id, src, n, sc);
    }
  }

  /** On tame programs: the optimized program is in the domain of the lowering theorems exactly when its tests
      are safe. */
  lemma {:induction false} LowerableExact(o: Opts, st: Stmt, ks: Kinds, n: nat, sc: Scope)
    requires o.division && OkStmt(st, ks, n) && Tame(st, sc)
    ensures Lowerable(OptimizeStmt(o, st), sc, n) <==> TestsSafe(o, st)
    decreases st, 1
  {
    match st
    case ExprStmt(e) => ExprLowerable(o, e, ks, n);
    case Assign(_, _, _, _) => AssignLowerable(o, st, ks, n, sc);
    case If(test, a, b) =>
      TestLowerable(o, test, ks, n);
      LowerableExact(o, a, ks, n, sc);
      LowerableExact(o, b, ks, n, sc);
    case For(_, _, _, _) => LoopExact(o, st, ks, n, sc);
    case Cond(clauses) => ClausesExact(o, clauses, ks, n, sc);
    case Switch(expr, cases) =>
      ExprLowerable(o, expr, ks, n);
      CasesExact(o, cases, expr.kind, ks, n, CaseScope(sc));
    case Block(stmts) => StmtsExact(o, stmts, ks, n, sc);
    case _ =>
  }

  lemma {:induction false} LoopExact(o: Opts, st: Stmt, ks: Kinds, n: nat, sc: Scope)
    requires o.division && st.For? && OkStmt(st, ks, n) && Tame(st, sc)
    ensures Lowerable(OptimizeStmt(o, st), sc, n) <==> TestsSafe(o, st)
    decreases st, 0
  {
    TestLowerable(o, st.test, ks, n);
    LowerableExact(o, st.init, ks, n, sc);
    LowerableExact(o, st.post, ks, n, LoopScope(sc));
    LowerableExact(o, st.body, ks, n, LoopScope(sc));
    ContinueKept(o, st.body);
  }

  lemma {:induction false} StmtsExact(o: Opts, ss: seq<Stmt>, ks: Kinds, n: nat, sc: Scope)
    requires o.division && AllOk(ss, ks, n) && AllTame(ss, sc)
    ensures AllLowerable(OptimizeAll(o, ss), sc, n) <==> AllSafe(o, ss)
    decreases ss, 0
  {
    if ss != [] {
      assert OptimizeAll(o, ss)[1..] == OptimizeAll(o, ss[1..]);
      LowerableExact(o, ss[0], ks, n, sc);
      StmtsExact(o, ss[1..], ks, n, sc);
    }
  }

  lemma {:induction false} ClausesExact(o: Opts, cs: seq<Clause>, ks: Kinds, n: nat, sc: Scope)
    requires o.division && OkClauses(cs, ks, n) && ClausesTame(cs, sc)
    ensures ClausesLowerable(OptimizeClauses(o, cs), sc, n) <==> ClausesSafe(o, cs)
    decreases cs, 0
  {
    if cs != [] {
      assert OptimizeClauses(o, cs)[1..] == OptimizeClauses(o, cs[1..]);
      ClauseExact(o, cs[0], ks, n, sc);
      ClausesExact(o, cs[1..], ks, n, sc);
    }
  }

  lemma {:induction false} ClauseExact(o: Opts, c: Clause, ks: Kinds, n: nat, sc: Scope)
    requires o.division && OkClause(c, ks, n) && ClauseTame(c, sc)
    ensures ClauseLowerable(OptimizeClause(o, c), sc, n) <==> ClauseSafe(o, c)
    decreases c, 2
  {
    TestLowerable(o, c.test, ks, n);
    LowerableExact(o, c.body, ks, n, sc);
  }

  lemma {:induction false} CasesExact(o: Opts, cs: seq<Case>, k: Kind, ks: Kinds, n: nat, sc: Scope)
    requires o.division && OkCases(cs, ks, n) && CasesTame(cs, k, sc)
    ensures CasesLowerable(OptimizeCases(o, cs), k, sc, n) <==> CasesSafe(o, cs)
    ensures DefaultCount(OptimizeCases(o, cs)) == DefaultCount(cs)
    decreases cs, 0
  {
    if cs != [] {
      assert OptimizeCases(o, cs)[1..] == OptimizeCases(o, cs[1..]);
      CaseExact(o, cs[0], k, ks, n, sc);
      CasesExact(o, cs[1..], k, ks, n, sc);
    }
  }

  lemma {:induction false} CaseExact(o: Opts, c: Case, k: Kind, ks: Kinds, n: nat, sc: Scope)
    requires o.division && OkCase(c, ks, n) && CaseTame(c, k, sc)
    ensures CaseLowerable(OptimizeCase(o, c), k, sc, n) <==> CaseSafe(o, c)
    decreases c, 2
  {
    if c.Case? {
      ExprLowerable(o, c.expr, ks, n);
    }
    LowerableExact(o, c.body, ks, n, sc);
  }

  // ---------------------------------------------------------------- `continue` stays where it is

  lemma {:induction false} ContinueKept(o: Opts, st: Stmt)
    ensures HasContinue(OptimizeStmt(o, st)) == HasContinue(st)
    decreases st, 1
  {
    match st
    case Assign(op, k, id, src) => AssignStays(o.division, op, k, id, Optimize(o, src));
    case If(_, a, b) => ContinueKept(o, a); ContinueKept(o, b);
    case For(init, _, _, _) => ContinueKept(o, init);
    case Cond(clauses) => ClausesContinueKept(o, clauses);
    case Switch(_, cases) => CasesContinueKept(o, cases);
    case Block(stmts) => AllContinueKept(o, stmts);
    case _ =>
  }

  predicate Stores(st: Stmt) { st.Assign? || st.Inc? || st.Dec? || st == NO_STMT }

  lemma SimplifyStays(op: AssignOp, k: Kind, id: nat, c: Value)
    ensures SimplifyAssign(op, k, id, c).Some? ==> Stores(SimplifyAssign(op, k, id, c).value)
    ensures SelfAssign(op, k, id).Some? ==> Stores(SelfAssign(op, k, id).value)
  {
    if SimplifyAssign(op, k, id, c).Some? {
      SimplifyForms(op, k, id, c);
    }
  }

  lemma ShortStays(division: bool, op: AssignOp, k: Kind, id: nat, src: Expr)
    ensures TryShort(division, op, k, id, src).Some? ==> Stores(TryShort(division, op, k, id, src).value)
  {
    SimplifyStays(op, k, id, if src.Const? then ConstValue(src) else Invalid);
  }

  lemma AssignStays(division: bool, op: AssignOp, k: Kind, id: nat, src: Expr)
    ensures TryAssign(division, op, k, id, src).Some? ==> Stores(TryAssign(division, op, k, id, src).value)
  {
    ShortStays(division, op, k, id, src);
    if src.Binary? && AssignOf2(src.op2).Some? {
      ShortStays(division, AssignOf2(src.op2).value, k, id, src.y);
    } else if src.Tuple? && AssignOfN(src.opn).Some? && |src.args| == 2 {
      ShortStays(division, AssignOfN(src.opn).value, k, id, src.args[1]);
    }
  }

  lemma {:induction false} AllContinueKept(o: Opts, ss: seq<Stmt>)
    ensures AnyContinue(OptimizeAll(o, ss)) == AnyContinue(ss)
    decreases ss, 0
  {
    if ss != [] {
      assert OptimizeAll(o, ss)[1..] == OptimizeAll(o, ss[1..]);
      ContinueKept(o, ss[0]);
      AllContinueKept(o, ss[1..]);
    }
  }

  lemma {:induction false} ClausesContinueKept(o: Opts, cs: seq<Clause>)
    ensures ClauseContinue(OptimizeClauses(o, cs)) == ClauseContinue(cs)
    decreases cs, 0
  {
    if cs != [] {
      assert OptimizeClauses(o, cs)[1..] == OptimizeClauses(o, cs[1..]);
      BodyContinueKept(o, cs[0]);
      ClausesContinueKept(o, cs[1..]);
    }
  }

  lemma {:induction false} BodyContinueKept(o: Opts, c: Clause)
    ensures BodyContinue(OptimizeClause(o, c)) == BodyContinue(c)
    decreases c, 2
  {
    ContinueKept(o, c.body);
  }

  lemma {:induction false} CasesContinueKept(o: Opts, cs: seq<Case>)
    ensures CaseContinue(OptimizeCases(o, cs)) == CaseContinue(cs)
    decreases cs, 0
  {
    if cs != [] {
      assert OptimizeCases(o, cs)[1..] == OptimizeCases(o, cs[1..]);
      CaseContinueKept(o, cs[0]);
      CasesContinueKept(o, cs[1..]);
    }
  }

  lemma {:induction false} CaseContinueKept(o: Opts, c: Case)
    ensures CaseBodyContinue(OptimizeCase(o, c)) == CaseBodyContinue(c)
    decreases c, 2
  {
    ContinueKept(o, c.body);
  }

  // ---------------------------------------------------------------- optimize, then lower

  /** compile(Func) on a tame program with safe tests: the code for the optimized body does what the body
      itself does. */
  lemma CompileSim(o: Opts, params: seq<nat>, body: Stmt, vars: nat, ks: Kinds, n: nat, env: Env, fuel: nat)
    returns (env': Env)
    requires o.division && OkStmt(body, ks, n) && n <= 0x20_0000 && n <= vars
    requires Tame(body, TOP_SCOPE) && TestsSafe(o, body) && Exec(body, env, fuel).Done?
    ensures var code := CompileFunc(params, OptimizeStmt(o, body), vars).node;
      && Exec(body, env, fuel).outcome == Normal
      && Reaches(code, Config(0, env), Config(|code| - 1, env')) && code[|code| - 1] == Ret
      && Alike(ks, n, Exec(body, env, fuel).env, env')
  {
    LowerableExact(o, body, ks, n, TOP_SCOPE);
    env' := OptimizedSim(o, params, body, vars, ks, n, env, fuel);
  }

  /** And it stops if and only if its body ends, when that does not fault. */
  lemma CompileHalts(o: Opts, params: seq<nat>, body: Stmt, vars: nat, ks: Kinds, n: nat, env: Env)
    requires o.division && OkStmt(body, ks, n) && n <= 0x20_0000 && n <= vars
    requires Tame(body, TOP_SCOPE) && TestsSafe(o, body) && Faultless(body, env)
    ensures Stops(CompileFunc(params, OptimizeStmt(o, body), vars).node, Config(0, env)) <==> Ends(body, env)
  {
    LowerableExact(o, body, ks, n, TOP_SCOPE);
    OptimizedHalts(o, params, body, vars, ks, n, env);
  }
}
