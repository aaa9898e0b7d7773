/** The optimizer on statements: what running them keeps. */
module OptimizerStmts {
  import opened Values
  import opened Ir
  import opened Imm
  import opened Stmts
  import opened Nodes
  import opened Optimizing
  import opened OptimizerMeaning
  import opened OptimizerTuples
  import opened OptimizerAssign

  /** The kind of each local variable: a Local has one kind and one id. */
  type Kinds = nat -> Kind

  predicate VarsIn(e: Expr, ks: Kinds, n: nat)
    decreases e, 1
  {
    match e
    case Var(k, id) => id < n && ks(id) == k
    case Const(_, _) => true
    case Unary(_, _, x) => VarsIn(x, ks, n)
    case Binary(_, _, x, y) => VarsIn(x, ks, n) && VarsIn(y, ks, n)
    case Tuple(_, _, args) => AllVarsIn(args, ks, n)
  }

  predicate AllVarsIn(es: seq<Expr>, ks: Kinds, n: nat)
    decreases es, 0
  {
    es == [] || (VarsIn(es[0], ks, n) && AllVarsIn(es[1..], ks, n))
  }

  /** The stores hold the same in every variable, at the kind of the variable. */
  ghost predicate Alike(ks: Kinds, n: nat, a: Env, b: Env) {
    forall id: nat {:trigger Read(a, id)} {:trigger Read(b, id)} ::
      id < n ==> Wrap(ks(id), Read(a, id)) == Wrap(ks(id), Read(b, id))
  }

  lemma {:induction false} EvalAlike(e: Expr, ks: Kinds, n: nat, a: Env, b: Env)
    requires VarsIn(e, ks, n) && Alike(ks, n, a, b)
    ensures Eval(e, a) == Eval(e, b)
    decreases e, 1
  {
    match e
    case Var(_, id) => assert Wrap(ks(id), Read(a, id)) == Wrap(ks(id), Read(b, id));
    case Const(_, _) =>
    case Unary(_, _, x) => EvalAlike(x, ks, n, a, b);
    case Binary(_, _, x, y) => EvalAlike(x, ks, n, a, b); EvalAlike(y, ks, n, a, b);
    case Tuple(_, _, args) => EvalAllAlike(args, ks, n, a, b);
  }

  lemma {:induction false} EvalAllAlike(es: seq<Expr>, ks: Kinds, n: nat, a: Env, b: Env)
    requires AllVarsIn(es, ks, n) && Alike(ks, n, a, b)
    ensures EvalAll(es, a) == EvalAll(es, b)
    decreases es, 0
  {
    if es != [] {
      EvalAlike(es[0], ks, n, a, b);
      EvalAllAlike(es[1..], ks, n, a, b);
    }
  }

  lemma {:induction false} VarsInBelow(e: Expr, ks: Kinds, n: nat, m: nat)
    requires VarsIn(e, ks, n) && n <= m
    ensures VarsBelow(e, m)
    decreases e, 1
  {
    match e
    case Var(_, _) =>
    case Const(_, _) =>
    case Unary(_, _, x) => VarsInBelow(x, ks, n, m);
    case Binary(_, _, x, y) => VarsInBelow(x, ks, n, m); VarsInBelow(y, ks, n, m);
    case Tuple(_, _, args) => AllVarsInBelow(args, ks, n, m);
  }

  lemma {:induction false} AllVarsInBelow(es: seq<Expr>, ks: Kinds, n: nat, m: nat)
    requires AllVarsIn(es, ks, n) && n <= m
    ensures AllBelow(es, m)
    decreases es, 0
  {
    if es != [] {
      VarsInBelow(es[0], ks, n, m);
      AllVarsInBelow(es[1..], ks, n, m);
    }
  }

  // ---------------------------------------------------------------- the optimizer adds no variables

  lemma {:induction false} AllVarsInConcat(a: seq<Expr>, b: seq<Expr>, ks: Kinds, n: nat)
    ensures AllVarsIn(a + b, ks, n) <==> AllVarsIn(a, ks, n) && AllVarsIn(b, ks, n)
  {
    if a == [] {
      assert a + b == b;
    } else {
      assert (a + b)[1..] == a[1..] + b;
      AllVarsInConcat(a[1..], b, ks, n);
    }
  }

  lemma PairVarsIn(x: Expr, y: Expr, ks: Kinds, n: nat)
    ensures AllVarsIn([x, y], ks, n) <==> VarsIn(x, ks, n) && VarsIn(y, ks, n)
    ensures AllVarsIn([x], ks, n) <==> VarsIn(x, ks, n)
  {
    assert [x, y][1..] == [y] && [y][1..] == [] && [x][1..] == [] && AllVarsIn([], ks, n);
    assert AllVarsIn([y], ks, n) == VarsIn(y, ks, n);
  }

  lemma UnaryVars(o: Opts, k: Kind, op: Op1, x: Expr, ks: Kinds, n: nat)
    requires VarsIn(x, ks, n)
    ensures TryUnary(o, k, op, x).Some? ==> VarsIn(TryUnary(o, k, op, x).value, ks, n)
  {
    if x.Unary? {
      PairVarsIn(x.x, OneConst(x.x.kind), ks, n);
    }
  }

  lemma RewriteVars(o: Opts, op: Op2, x: Expr, y: Expr, ks: Kinds, n: nat)
    requires VarsIn(x, ks, n) && VarsIn(y, ks, n)
    ensures Rewrite(o, op, x, y).Some? ==> VarsIn(Rewrite(o, op, x, y).value, ks, n)
  {
    PairVarsIn(x, y, ks, n);
    PairVarsIn(x, BoolConst(false), ks, n);
    PairVarsIn(x, BoolConst(true), ks, n);
  }

  lemma BinaryVars(o: Opts, op: Op2, x: Expr, y: Expr, ks: Kinds, n: nat)
    requires VarsIn(x, ks, n) && VarsIn(y, ks, n)
    ensures TryBinary(o, op, x, y).Some? ==> VarsIn(TryBinary(o, op, x, y).value, ks, n)
  {
    match PartialEvalBinary(op, x, y) {
      case None => RewriteVars(o, op, x, y, ks, n);
      case Some(e) =>
        if e.Binary? {
          RewriteVars(o, e.op2, e.x, e.y, ks, n);
        }
    }
  }

  lemma {:induction false} InsertVars(x: Expr, es: seq<Expr>, ks: Kinds, n: nat)
    requires VarsIn(x, ks, n) && AllVarsIn(es, ks, n)
    ensures AllVarsIn(Insert(x, es), ks, n)
  {
    PairVarsIn(x, x, ks, n);
    AllVarsInConcat([x], es, ks, n);
    if es != [] && DeepCompare(x, es[0]) > 0 {
      InsertVars(x, es[1..], ks, n);
      PairVarsIn(es[0], x, ks, n);
      AllVarsInConcat([es[0]], Insert(x, es[1..]), ks, n);
    } else {
      assert Insert(x, es) == [x] + es;
    }
  }

  lemma {:induction false} SortVars(es: seq<Expr>, ks: Kinds, n: nat)
    requires AllVarsIn(es, ks, n)
    ensures AllVarsIn(Sort(es), ks, n)
  {
    if es != [] {
      SortVars(es[1..], ks, n);
      InsertVars(es[0], Sort(es[1..]), ks, n);
    }
  }

  lemma PartialVars(o: Opts, k: Kind, op: OpN, es: seq<Expr>, e: Expr, ks: Kinds, n: nat)
    requires Size(e) >= 1 + SizeAll(es) && AllVarsIn(es, ks, n) && VarsIn(e, ks, n)
    ensures VarsIn(PartialEvalTuple(o, k, op, es, e), ks, n)
  {
    if es != [] {
      var sorted := Ordered(op, es);
      var v := TailValue(o, k, op, sorted);
      var rest := if o.fold then FoldChildren(k, op, sorted, v) else sorted;
      SortVars(es, ks, n);
      FoldVars(k, op, sorted, v, ks, n);
      RestVars(k, op, rest, ks, n);
      SortSize(es);
      ChildrenSize(o, k, op, sorted, v);
      TupleOfVars(k, op, rest, v, e, ks, n);
      assert PartialEvalTuple(o, k, op, es, e) == TupleOf(k, op, rest, v, e);
    }
  }

  lemma TupleOfVars(k: Kind, op: OpN, rest: seq<Expr>, v: Value, e: Expr, ks: Kinds, n: nat)
    requires Size(e) >= 1 + SizeAll(rest)
    requires VarsIn(Tuple(k, op, rest), ks, n) && VarsIn(e, ks, n) && (|rest| == 1 ==> VarsIn(rest[0], ks, n))
    ensures VarsIn(TupleOf(k, op, rest, v, e), ks, n)
  {
  }

  lemma RestVars(k: Kind, op: OpN, rest: seq<Expr>, ks: Kinds, n: nat)
    requires AllVarsIn(rest, ks, n)
    ensures VarsIn(Tuple(k, op, rest), ks, n) && (|rest| == 1 ==> VarsIn(rest[0], ks, n))
  {
  }

  lemma FoldVars(k: Kind, op: OpN, es: seq<Expr>, v: Value, ks: Kinds, n: nat)
    requires AllVarsIn(es, ks, n)
    ensures AllVarsIn(FoldChildren(k, op, es, v), ks, n)
  {
    var i := Variables(es);
    assert es == es[..i] + es[i..];
    AllVarsInConcat(es[..i], es[i..], ks, n);
    if v.Val? {
      PairVarsIn(ConstOf(v), ConstOf(v), ks, n);
      AllVarsInConcat(es[..i], [ConstOf(v)], ks, n);
    }
  }

  lemma {:induction false} FlattenVars(o: Opts, k: Kind, op: OpN, es: seq<Expr>, ks: Kinds, n: nat)
    requires AllVarsIn(es, ks, n)
    ensures AllVarsIn(Flatten(o, k, op, es), ks, n)
    decreases SizeAll(es), 2
  {
    if es != [] {
      ChildVars(o, k, op, es[0], ks, n);
      FlattenVars(o, k, op, es[1..], ks, n);
      AllVarsInConcat(FlattenChild(o, k, op, es[0]), Flatten(o, k, op, es[1..]), ks, n);
    }
  }

  lemma {:induction false} ChildVars(o: Opts, k: Kind, op: OpN, e: Expr, ks: Kinds, n: nat)
    requires VarsIn(e, ks, n)
    ensures AllVarsIn(FlattenChild(o, k, op, e), ks, n)
    decreases Size(e), 1
  {
    if Nested(k, op, e) {
      FlattenVars(o, k, op, e.args, ks, n);
    } else {
      var c := Optimize(o, e);
      OptimizeVars(o, e, ks, n);
      PairVarsIn(c, c, ks, n);
      if Nested(k, op, c) {
        FlattenVars(o, k, op, c.args, ks, n);
      }
    }
  }

  lemma {:induction false} OptimizeVars(o: Opts, e: Expr, ks: Kinds, n: nat)
    requires VarsIn(e, ks, n)
    ensures VarsIn(Optimize(o, e), ks, n)
    decreases Size(e), 0
  {
    match e
    case Var(_, _) =>
    case Const(_, _) =>
    case Unary(k, op, x) =>
      OptimizeVars(o, x, ks, n);
      UnaryVars(o, k, op, Optimize(o, x), ks, n);
    case Binary(k, op, x, y) =>
      OptimizeVars(o, x, ks, n);
      OptimizeVars(o, y, ks, n);
      BinaryVars(o, op, Optimize(o, x), Optimize(o, y), ks, n);
    case Tuple(k, op, args) =>
      FlattenVars(o, k, op, args, ks, n);
      if o.simplify {
        PartialVars(o, k, op, Flatten(o, k, op, args), e, ks, n);
      }
  }

  // ---------------------------------------------------------------- statements

  function OptimizeStmt(o: Opts, st: Stmt): Stmt
    decreases st, 1
  {
    match st
    case ExprStmt(e) => ExprStmt(Optimize(o, e))
    case Assign(op, k, id, src) =>
      var src1 := Optimize(o, src);
      OrElse(TryAssign(o.division, op, k, id, src1), Assign(op, k, id, src1))
    case If(test, a, b) => If(Optimize(o, test), OptimizeStmt(o, a), OptimizeStmt(o, b))
    case For(init, test, post, body) =>
      For(OptimizeStmt(o, init), Optimize(o, test), OptimizeStmt(o, post), OptimizeStmt(o, body))
    case Cond(clauses) => Cond(OptimizeClauses(o, clauses))
    case Switch(expr, cases) => Switch(Optimize(o, expr), OptimizeCases(o, cases))
    case Block(stmts) => Block(OptimizeAll(o, stmts))
    case _ => st
  }

  function OptimizeAll(o: Opts, ss: seq<Stmt>): seq<Stmt>
    decreases ss, 0
  {
    if ss == [] then [] else [OptimizeStmt(o, ss[0])] + OptimizeAll(o, ss[1..])
  }

  function OptimizeClauses(o: Opts, cs: seq<Clause>): seq<Clause>
    decreases cs, 0
  {
    if cs == [] then [] else [OptimizeClause(o, cs[0])] + OptimizeClauses(o, cs[1..])
  }

  function OptimizeClause(o: Opts, c: Clause): Clause
    decreases c, 2
  {
    Clause(Optimize(o, c.test), OptimizeStmt(o, c.body))
  }

  function OptimizeCases(o: Opts, cs: seq<Case>): seq<Case>
    decreases cs, 0
  {
    if cs == [] then [] else [OptimizeCase(o, cs[0])] + OptimizeCases(o, cs[1..])
  }

  function OptimizeCase(o: Opts, c: Case): Case
    decreases c, 2
  {
    if c.Case? then Case(Optimize(o, c.expr), OptimizeStmt(o, c.body)) else Default(OptimizeStmt(o, c.body))
  }

  // ---------------------------------------------------------------- the statements it is right on

  ghost predicate OkExpr(e: Expr, ks: Kinds, n: nat) { Typed(e) && Exact(e, false) && VarsIn(e, ks, n) }

  ghost predicate OkStmt(st: Stmt, ks: Kinds, n: nat)
    decreases st, 1
  {
    match st
    case ExprStmt(e) => OkExpr(e, ks, n)
    case Assign(_, k, id, src) => id < n && ks(id) == k && OkExpr(src, ks, n)
    case Inc(k, id) => id < n && ks(id) == k
    case Dec(k, id) => id < n && ks(id) == k
    case If(test, a, b) => OkExpr(test, ks, n) && OkStmt(a, ks, n) && OkStmt(b, ks, n)
    case For(init, test, post, body) =>
      OkStmt(init, ks, n) && OkExpr(test, ks, n) && OkStmt(post, ks, n) && OkStmt(body, ks, n)
    case Cond(clauses) => OkClauses(clauses, ks, n)
    case Switch(expr, cases) => OkExpr(expr, ks, n) && OkCases(cases, ks, n)
    case Block(stmts) => AllOk(stmts, ks, n)
    case _ => true
  }

  ghost predicate AllOk(ss: seq<Stmt>, ks: Kinds, n: nat)
    decreases ss, 0
  {
    ss == [] || (OkStmt(ss[0], ks, n) && AllOk(ss[1..], ks, n))
  }

  ghost predicate OkClauses(cs: seq<Clause>, ks: Kinds, n: nat)
    decreases cs, 0
  {
    cs == [] || (OkClause(cs[0], ks, n) && OkClauses(cs[1..], ks, n))
  }

  ghost predicate OkClause(c: Clause, ks: Kinds, n: nat)
    decreases c, 2
  {
    OkExpr(c.test, ks, n) && OkStmt(c.body, ks, n)
  }

  ghost predicate OkCases(cs: seq<Case>, ks: Kinds, n: nat)
    decreases cs, 0
  {
    cs == [] || (OkCase(cs[0], ks, n) && OkCases(cs[1..], ks, n))
  }

  ghost predicate OkCase(c: Case, ks: Kinds, n: nat)
    decreases c, 2
  {
    (c.Case? ==> OkExpr(c.expr, ks, n)) && OkStmt(c.body, ks, n)
  }

  // ---------------------------------------------------------------- what running keeps

  /** The two results are the same, on the variables below n: both end, or both run out of fuel. */
  ghost predicate Matches(r: Result, q: Result, ks: Kinds, n: nat) {
    match r
    case Done(outcome, env) => q.Done? && q.outcome == outcome && Alike(ks, n, env, q.env)
    case OutOfFuel => q.OutOfFuel?
    case Fault => false
  }

  lemma ExprKeeps(o: Opts, e: Expr, ks: Kinds, n: nat, a: Env, b: Env)
    requires o.division && OkExpr(e, ks, n) && Alike(ks, n, a, b) && Eval(e, a).Val?
    ensures Eval(Optimize(o, e), b) == Eval(e, a)
  {
    OptimizeMeans(o, e, false, a);
    OptimizeVars(o, e, ks, n);
    EvalAlike(Optimize(o, e), ks, n, a, b);
  }

  lemma StoreAlike(ks: Kinds, n: nat, a: Env, b: Env, id: nat, x: int)
    requires Alike(ks, n, a, b)
    ensures Alike(ks, n, a[id := x], b[id := x])
  {
    forall j: nat {:trigger Read(a[id := x], j)} {:trigger Read(b[id := x], j)} | j < n
      ensures Wrap(ks(j), Read(a[id := x], j)) == Wrap(ks(j), Read(b[id := x], j))
    {
      assert Wrap(ks(j), Read(a, j)) == Wrap(ks(j), Read(b, j));
    }
  }

  lemma AlikeThen(ks: Kinds, n: nat, a: Env, b: Env, c: Env, id: nat)
    requires Alike(ks, n, a, b) && SameStore(ks(id), id, b, c)
    ensures Alike(ks, n, a, c)
  {
    forall j: nat {:trigger Read(c, j)} | j < n ensures Wrap(ks(j), Read(a, j)) == Wrap(ks(j), Read(c, j)) {
      assert Wrap(ks(j), Read(a, j)) == Wrap(ks(j), Read(b, j));
    }
  }

  lemma VarAlike(ks: Kinds, n: nat, a: Env, b: Env, id: nat)
    requires Alike(ks, n, a, b) && id < n
    ensures Eval(Var(ks(id), id), a) == Eval(Var(ks(id), id), b)
  {
    assert Wrap(ks(id), Read(a, id)) == Wrap(ks(id), Read(b, id));
  }

  lemma AssignOptimized(o: Opts, st: Stmt, ks: Kinds, n: nat, a: Env, b: Env, fuel: nat)
    requires o.division && st.Assign? && OkStmt(st, ks, n) && n <= 0x20_0000 && Alike(ks, n, a, b)
    requires !Exec(st, a, fuel).Fault?
    ensures Matches(Exec(st, a, fuel), Exec(OptimizeStmt(o, st), b, fuel), ks, n)
  {
    var src := Optimize(o, st.src);
    var mid := Assign(st.op, st.kind, st.id, src);
    var v := Eval(st.src, a);
    VarAlike(ks, n, a, b, st.id);
    assert v.Val?;
    ExprKeeps(o, st.src, ks, n, a, b);
    EvalTyped(st.src, a);
    OptimizeMeans(o, st.src, false, a);
    OptimizeVars(o, st.src, ks, n);
    VarsInBelow(src, ks, n, MAX_ID);
    var stored := AssignValue(st.op, Eval(Var(st.kind, st.id), a), v);
    StoreAlike(ks, n, a, b, st.id, stored.num);
    assert Exec(mid, b, fuel) == Done(Normal, b[st.id := stored.num]);
    var r := TryAssign(o.division, st.op, st.kind, st.id, src);
    if r.Some? {
      AssignKeeps(o.division, st.op, st.kind, st.id, src, b, fuel);
      AlikeThen(ks, n, a[st.id := stored.num], b[st.id := stored.num], Exec(r.value, b, fuel).env, st.id);
    }
  }

  lemma {:induction false} StmtKeeps(o: Opts, st: Stmt, ks: Kinds, n: nat, a: Env, b: Env, fuel: nat)
    requires o.division && OkStmt(st, ks, n) && n <= 0x20_0000 && Alike(ks, n, a, b)
    requires !Exec(st, a, fuel).Fault?
    ensures Matches(Exec(st, a, fuel), Exec(OptimizeStmt(o, st), b, fuel), ks, n)
    decreases fuel, st, 1
  {
    match st
    case ExprStmt(e) => ExprKeeps(o, e, ks, n, a, b);
    case Assign(_, _, _, _) => AssignOptimized(o, st, ks, n, a, b, fuel);
    case Inc(k, id) =>
      VarAlike(ks, n, a, b, id);
      StoreAlike(ks, n, a, b, id, TupleStep(ADD, Eval(Var(k, id), a), Val(k, 1)).num);
    case Dec(k, id) =>
      VarAlike(ks, n, a, b, id);
      StoreAlike(ks, n, a, b, id, EvalBinaryOp(SUB, Eval(Var(k, id), a), Val(k, 1)).num);
    case If(test, x, y) =>
      ExprKeeps(o, test, ks, n, a, b);
      StmtKeeps(o, if Truth(Eval(test, a)) then x else y, ks, n, a, b, fuel);
    case For(init, _, _, _) => ForKeeps(o, st, ks, n, a, b, fuel);
    case Cond(clauses) => ClausesKeep(o, clauses, ks, n, a, b, fuel);
    case Switch(_, _) => SwitchKeeps(o, st, ks, n, a, b, fuel);
    case Block(stmts) => BlockKeeps(o, stmts, ks, n, a, b, fuel);
    case _ =>
  }

  lemma {:induction false} ForKeeps(o: Opts, st: Stmt, ks: Kinds, n: nat, a: Env, b: Env, fuel: nat)
    requires st.For? && o.division && OkStmt(st, ks, n) && n <= 0x20_0000 && Alike(ks, n, a, b)
    requires !ExecFor(st, a, fuel).Fault?
    ensures Matches(ExecFor(st, a, fuel), ExecFor(OptimizeStmt(o, st), b, fuel), ks, n)
    decreases fuel, st, 0
  {
    StmtKeeps(o, st.init, ks, n, a, b, fuel);
    if Exec(st.init, a, fuel).Finished() {
      LoopKeeps(o, st, ks, n, Exec(st.init, a, fuel).env, Exec(OptimizeStmt(o, st).init, b, fuel).env, fuel);
    }
  }

  lemma {:induction false} LoopKeeps(o: Opts, st: Stmt, ks: Kinds, n: nat, a: Env, b: Env, fuel: nat)
    requires st.For? && o.division && OkStmt(st, ks, n) && n <= 0x20_0000 && Alike(ks, n, a, b)
    requires !Loop(st, a, fuel).Fault?
    ensures Matches(Loop(st, a, fuel), Loop(OptimizeStmt(o, st), b, fuel), ks, n)
    decreases fuel, st.body, 3
  {
    ExprKeeps(o, st.test, ks, n, a, b);
    if Truth(Eval(st.test, a)) && fuel > 0 {
      StmtKeeps(o, st.body, ks, n, a, b, fuel - 1);
      var r := Exec(st.body, a, fuel - 1);
      if r.Done? && (r.outcome == Normal || r.outcome == Continues) {
        PostKeeps(o, st, ks, n, r.env, Exec(OptimizeStmt(o, st).body, b, fuel - 1).env, fuel);
      }
    }
  }

  lemma {:induction false} PostKeeps(o: Opts, st: Stmt, ks: Kinds, n: nat, a: Env, b: Env, fuel: nat)
    requires st.For? && o.division && OkStmt(st, ks, n) && n <= 0x20_0000 && Alike(ks, n, a, b)
    requires fuel > 0 && !LoopPost(st, a, fuel).Fault?
    ensures Matches(LoopPost(st, a, fuel), LoopPost(OptimizeStmt(o, st), b, fuel), ks, n)
    decreases fuel, st.body, 2
  {
    StmtKeeps(o, st.post, ks, n, a, b, fuel - 1);
    var r := Exec(st.post, a, fuel - 1);
    AfterPost(o, st, OptimizeStmt(o, st), ks, n, a, b, fuel, r, Exec(OptimizeStmt(o, st.post), b, fuel - 1));
  }

  /** The turns behind a `post` that does the same. */
  lemma {:induction false} AfterPost(o: Opts, st: Stmt, st': Stmt, ks: Kinds, n: nat, a: Env, b: Env, fuel: nat, r: Result,
                                     q: Result)
    requires st.For? && o.division && OkStmt(st, ks, n) && n <= 0x20_0000 && st' == OptimizeStmt(o, st)
    requires fuel > 0 && r == Exec(st.post, a, fuel - 1) && q == Exec(st'.post, b, fuel - 1) && Matches(r, q, ks, n)
    requires !LoopPost(st, a, fuel).Fault?
    ensures Matches(LoopPost(st, a, fuel), LoopPost(st', b, fuel), ks, n)
    decreases fuel - 1, st.body, 4
  {
    if r.Done? && (r.outcome == Normal || r.outcome == Continues) {
      LoopKeeps(o, st, ks, n, r.env, q.env, fuel - 1);
    }
    PostMatches(st, st', ks, n, a, b, fuel, r, q);
  }

  lemma PostMatches(st: Stmt, st': Stmt, ks: Kinds, n: nat, a: Env, b: Env, fuel: nat, r: Result, q: Result)
    requires st.For? && st'.For? && fuel > 0
    requires r == Exec(st.post, a, fuel - 1) && q == Exec(st'.post, b, fuel - 1) && Matches(r, q, ks, n)
    requires r.Done? && (r.outcome == Normal || r.outcome == Continues) ==>
      Matches(Loop(st, r.env, fuel - 1), Loop(st', q.env, fuel - 1), ks, n)
    ensures Matches(LoopPost(st, a, fuel), LoopPost(st', b, fuel), ks, n)
  {
  }

  lemma {:induction false} BlockKeeps(o: Opts, ss: seq<Stmt>, ks: Kinds, n: nat, a: Env, b: Env, fuel: nat)
    requires o.division && AllOk(ss, ks, n) && n <= 0x20_0000 && Alike(ks, n, a, b)
    requires !ExecBlock(ss, a, fuel).Fault?
    ensures Matches(ExecBlock(ss, a, fuel), ExecBlock(OptimizeAll(o, ss), b, fuel), ks, n)
    decreases fuel, ss, 0
  {
    if ss != [] {
      var rest := OptimizeAll(o, ss[1..]);
      assert OptimizeAll(o, ss)[1..] == rest;
      StmtKeeps(o, ss[0], ks, n, a, b, fuel);
      var r := Exec(ss[0], a, fuel);
      if r.Finished() {
        BlockKeeps(o, ss[1..], ks, n, r.env, Exec(OptimizeStmt(o, ss[0]), b, fuel).env, fuel);
      }
    }
  }

  lemma {:induction false} ClausesKeep(o: Opts, cs: seq<Clause>, ks: Kinds, n: nat, a: Env, b: Env, fuel: nat)
    requires o.division && OkClauses(cs, ks, n) && n <= 0x20_0000 && Alike(ks, n, a, b)
    requires !ExecCond(cs, a, fuel).Fault?
    ensures Matches(ExecCond(cs, a, fuel), ExecCond(OptimizeClauses(o, cs), b, fuel), ks, n)
    decreases fuel, cs, 0
  {
    if cs != [] {
      assert OptimizeClauses(o, cs)[1..] == OptimizeClauses(o, cs[1..]);
      ExprKeeps(o, cs[0].test, ks, n, a, b);
      if Truth(Eval(cs[0].test, a)) {
        ClauseKeeps(o, cs[0], ks, n, a, b, fuel);
      } else {
        ClausesKeep(o, cs[1..], ks, n, a, b, fuel);
      }
    }
  }

  lemma {:induction false} ClauseKeeps(o: Opts, c: Clause, ks: Kinds, n: nat, a: Env, b: Env, fuel: nat)
    requires o.division && OkClause(c, ks, n) && n <= 0x20_0000 && Alike(ks, n, a, b)
    requires !ExecBody(c, a, fuel).Fault?
    ensures Matches(ExecBody(c, a, fuel), ExecBody(OptimizeClause(o, c), b, fuel), ks, n)
    decreases fuel, c, 2
  {
    StmtKeeps(o, c.body, ks, n, a, b, fuel);
  }

  // ---------------------------------------------------------------- switch

  /** The optimized cases select the same case. */
  lemma {:induction false} SelectKeeps(o: Opts, cs: seq<Case>, v: Value, ks: Kinds, n: nat, a: Env, b: Env)
    requires o.division && OkCases(cs, ks, n) && Alike(ks, n, a, b) && FirstMatch(cs, v, a).Some?
    ensures FirstMatch(OptimizeCases(o, cs), v, b) == FirstMatch(cs, v, a)
    ensures DefaultIndex(OptimizeCases(o, cs)) == DefaultIndex(cs) && |OptimizeCases(o, cs)| == |cs|
    decreases cs
  {
    CasesShape(o, cs);
    if cs != [] {
      assert OptimizeCases(o, cs)[1..] == OptimizeCases(o, cs[1..]);
      if cs[0].Case? {
        ExprKeeps(o, cs[0].expr, ks, n, a, b);
      }
      if !(cs[0].Case? && Eval(cs[0].expr, a) == v) {
        SelectKeeps(o, cs[1..], v, ks, n, a, b);
      }
    }
  }

  lemma {:induction false} CasesShape(o: Opts, cs: seq<Case>)
    ensures DefaultIndex(OptimizeCases(o, cs)) == DefaultIndex(cs) && |OptimizeCases(o, cs)| == |cs|
  {
    if cs != [] {
      assert OptimizeCases(o, cs)[1..] == OptimizeCases(o, cs[1..]);
      CasesShape(o, cs[1..]);
    }
  }

  lemma {:induction false} CasesFrom(o: Opts, cs: seq<Case>, i: nat, ks: Kinds, n: nat)
    requires i <= |cs| && OkCases(cs, ks, n)
    ensures |OptimizeCases(o, cs)| == |cs| && OptimizeCases(o, cs)[i..] == OptimizeCases(o, cs[i..])
    ensures OkCases(cs[i..], ks, n)
  {
    CasesShape(o, cs);
    if i == 0 {
      assert cs[i..] == cs;
    } else {
      assert OptimizeCases(o, cs)[1..] == OptimizeCases(o, cs[1..]);
      CasesFrom(o, cs[1..], i - 1, ks, n);
      assert cs[i..] == cs[1..][i - 1..] && OptimizeCases(o, cs)[i..] == OptimizeCases(o, cs)[1..][i - 1..];
    }
  }

  lemma SelectSame(o: Opts, cs: seq<Case>, v: Value, ks: Kinds, n: nat, a: Env, b: Env)
    requires o.division && OkCases(cs, ks, n) && Alike(ks, n, a, b) && Select(cs, v, a).Some?
    ensures Select(OptimizeCases(o, cs), v, b) == Select(cs, v, a)
  {
    SelectKeeps(o, cs, v, ks, n, a, b);
  }

  lemma {:induction false} SwitchKeeps(o: Opts, st: Stmt, ks: Kinds, n: nat, a: Env, b: Env, fuel: nat)
    requires st.Switch? && o.division && OkStmt(st, ks, n) && n <= 0x20_0000 && Alike(ks, n, a, b)
    requires !ExecSwitch(st, a, fuel).Fault?
    ensures Matches(ExecSwitch(st, a, fuel), ExecSwitch(OptimizeStmt(o, st), b, fuel), ks, n)
    decreases fuel, st, 0
  {
    var v := Eval(st.expr, a);
    var i := Select(st.cases, v, a).value;
    ExprKeeps(o, st.expr, ks, n, a, b);
    SelectSame(o, st.cases, v, ks, n, a, b);
    assert i == 0 ==> st.cases[i..] == st.cases;
    TailKeeps(o, st.cases, i, ks, n, a, b, fuel);
  }

  /** The bodies from the selected case on. */
  lemma {:induction false} TailKeeps(o: Opts, cs: seq<Case>, i: nat, ks: Kinds, n: nat, a: Env, b: Env, fuel: nat)
    requires i <= |cs| && o.division && OkCases(cs, ks, n) && n <= 0x20_0000 && Alike(ks, n, a, b)
    requires !ExecCases(cs[i..], a, fuel).Fault?
    ensures |OptimizeCases(o, cs)| == |cs|
    ensures Matches(ExecCases(cs[i..], a, fuel), ExecCases(OptimizeCases(o, cs)[i..], b, fuel), ks, n)
    decreases fuel, cs, 1
  {
    CasesFrom(o, cs, i, ks, n);
    assert i == 0 ==> cs[i..] == cs;
    CasesKeep(o, cs[i..], ks, n, a, b, fuel);
  }

  lemma {:induction false} CasesKeep(o: Opts, cs: seq<Case>, ks: Kinds, n: nat, a: Env, b: Env, fuel: nat)
    requires o.division && OkCases(cs, ks, n) && n <= 0x20_0000 && Alike(ks, n, a, b)
    requires !ExecCases(cs, a, fuel).Fault?
    ensures Matches(ExecCases(cs, a, fuel), ExecCases(OptimizeCases(o, cs), b, fuel), ks, n)
    decreases fuel, cs, 0
  {
    if cs != [] {
      assert OptimizeCases(o, cs)[1..] == OptimizeCases(o, cs[1..]);
      CaseKeeps(o, cs[0], ks, n, a, b, fuel);
      var r := ExecCase(cs[0], a, fuel);
      if r.Done? && r.outcome == FallsThrough {
        CasesKeep(o, cs[1..], ks, n, r.env, ExecCase(OptimizeCase(o, cs[0]), b, fuel).env, fuel);
      }
    }
  }

  lemma {:induction false} CaseKeeps(o: Opts, c: Case, ks: Kinds, n: nat, a: Env, b: Env, fuel: nat)
    requires o.division && OkCase(c, ks, n) && n <= 0x20_0000 && Alike(ks, n, a, b)
    requires !ExecCase(c, a, fuel).Fault?
    ensures Matches(ExecCase(c, a, fuel), ExecCase(OptimizeCase(o, c), b, fuel), ks, n)
    decreases fuel, c, 2
  {
    StmtKeeps(o, c.body, ks, n, a, b, fuel);
  }
}
