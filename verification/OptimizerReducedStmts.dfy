/** Optimized statements: every expression is reduced, and no assignment is left that the optimizer would write shorter. */
module OptimizerReducedStmts {
  import opened Values
  import opened Ir
  import opened Stmts
  import opened Monoid
  import opened Nodes
  import opened Optimizing
  import opened OptimizerAssign
  import opened OptimizerStmts
  import opened OptimizerReduced

  /** dst op= c: neither 0, 1 or -1 where that does nothing, decides the result, or is an increment. */
  predicate ConstDone(op: AssignOp, k: Kind, c: Expr) {
    && !(c == Const(k, 0) && op in {ADD_ASSIGN, SUB_ASSIGN, OR_ASSIGN, XOR_ASSIGN, SHL_ASSIGN, SHR_ASSIGN})
    && !(c == Const(k, 0) && op in {MUL_ASSIGN, AND_ASSIGN})
    && !(c == Const(k, Wrap(k, 1)) && op in {ADD_ASSIGN, SUB_ASSIGN, MUL_ASSIGN, QUO_ASSIGN})
    && !(c == Const(k, Wrap(k, -1)) && op in {ADD_ASSIGN, SUB_ASSIGN, AND_ASSIGN, OR_ASSIGN})
  }

  /** dst op= src: not an operation of dst with itself that has a shorter form, and not dst = dst op y. */
  predicate AssignDone(division: bool, op: AssignOp, k: Kind, id: nat, src: Expr) {
    var dst := Var(k, id);
    && ConstDone(op, k, src)
    && (DeepEqual(dst, src, division) ==> op in {MUL_ASSIGN, SHL_ASSIGN, SHR_ASSIGN})
    && (op == ASSIGN ==>
          && !(src.Binary? && src.op2 in {SUB, QUO, REM, SHL, SHR} && DeepEqual(dst, src.x, division))
          && !(src.Tuple? && src.opn in {ADD, MUL, AND, OR, XOR} && |src.args| == 2
               && DeepEqual(dst, src.args[0], division)))
  }

  predicate StmtReduced(o: Opts, strict: bool, st: Stmt)
    decreases st, 1
  {
    match st
    case ExprStmt(e) => Reduced(o, strict, e)
    case Assign(op, k, id, src) => Reduced(o, strict, src) && AssignDone(o.division, op, k, id, src)
    case If(test, a, b) => Reduced(o, strict, test) && StmtReduced(o, strict, a) && StmtReduced(o, strict, b)
    case For(init, test, post, body) =>
      && Reduced(o, strict, test)
      && StmtReduced(o, strict, init) && StmtReduced(o, strict, post) && StmtReduced(o, strict, body)
    case Cond(clauses) => ClausesReduced(o, strict, clauses)
    case Switch(expr, cases) => Reduced(o, strict, expr) && CasesReduced(o, strict, cases)
    case Block(stmts) => StmtsReduced(o, strict, stmts)
    case _ => true
  }

  predicate StmtsReduced(o: Opts, strict: bool, ss: seq<Stmt>)
    decreases ss, 0
  {
    ss == [] || (StmtReduced(o, strict, ss[0]) && StmtsReduced(o, strict, ss[1..]))
  }

  predicate ClausesReduced(o: Opts, strict: bool, cs: seq<Clause>)
    decreases cs, 0
  {
    cs == [] || (ClauseReduced(o, strict, cs[0]) && ClausesReduced(o, strict, cs[1..]))
  }

  predicate ClauseReduced(o: Opts, strict: bool, c: Clause)
    decreases c, 2
  {
    Reduced(o, strict, c.test) && StmtReduced(o, strict, c.body)
  }

  predicate CasesReduced(o: Opts, strict: bool, cs: seq<Case>)
    decreases cs, 0
  {
    cs == [] || (CaseReduced(o, strict, cs[0]) && CasesReduced(o, strict, cs[1..]))
  }

  predicate CaseReduced(o: Opts, strict: bool, c: Case)
    decreases c, 2
  {
    (c.Case? ==> Reduced(o, strict, c.expr)) && StmtReduced(o, strict, c.body)
  }

  // ---------------------------------------------------------------- assignments

  lemma SameVariable(k: Kind, id: nat, e: Expr, division: bool)
    requires DeepEqual(Var(k, id), e, division)
    ensures e.Var?
  {
    SameOperator(Var(k, id), e);
  }

  /** Nothing, an increment, or storing a constant. */
  predicate Brief(st: Stmt) { st == NO_STMT || st.Inc? || st.Dec? || (st.Assign? && st.op == ASSIGN && st.src.Const?) }

  lemma BriefReduced(o: Opts, strict: bool, st: Stmt)
    requires Brief(st)
    ensures StmtReduced(o, strict, st)
  {
  }

  lemma KeptReduced(o: Opts, strict: bool, op: AssignOp, k: Kind, id: nat, src: Expr)
    requires Reduced(o, strict, src) && AssignDone(o.division, op, k, id, src)
    ensures StmtReduced(o, strict, Assign(op, k, id, src))
  {
  }

  lemma ConstBrief(op: AssignOp, k: Kind, id: nat, c: Value)
    requires SimplifyAssign(op, k, id, c).Some?
    ensures Brief(SimplifyAssign(op, k, id, c).value)
  {
    if ToOpN(op).Some? {
      TupleBrief(ToOpN(op).value, op, k, id, c);
    }
  }

  lemma TupleBrief(opn: OpN, op: AssignOp, k: Kind, id: nat, c: Value)
    requires ToOpN(op) == Some(opn) && SimplifyAssign(op, k, id, c).Some?
    ensures Brief(SimplifyAssign(op, k, id, c).value)
  {
  }

  lemma ConstLeft(op: AssignOp, k: Kind, id: nat, c: Expr)
    requires c.Const? && SimplifyAssign(op, k, id, ConstValue(c)).None?
    ensures ConstDone(op, k, c)
  {
    if ToOpN(op).Some? {
      TupleLeft(ToOpN(op).value, op, k, id, c.num, c);
    }
  }

  lemma TupleLeft(opn: OpN, op: AssignOp, k: Kind, id: nat, n: int, c: Expr)
    requires c.Const? && c.num == n && ToOpN(op) == Some(opn) && SimplifyAssign(op, k, id, ConstValue(c)).None?
    ensures ConstDone(op, k, c)
  {
  }

  /** `v += v` becomes `v *= 2`, which stays; the others become brief or have no shorter form. */
  lemma SelfReduced(o: Opts, strict: bool, op: AssignOp, k: Kind, id: nat)
    ensures match SelfAssign(op, k, id)
      case Some(r) => StmtReduced(o, strict, r)
      case None => op in {MUL_ASSIGN, SHL_ASSIGN, SHR_ASSIGN}
  {
    if op == ADD_ASSIGN {
      OneOf(k);
      KeptReduced(o, strict, MUL_ASSIGN, k, id, Const(k, 2));
    } else if SelfAssign(op, k, id).Some? {
      BriefReduced(o, strict, SelfAssign(op, k, id).value);
    }
  }

  /** What is rewritten once needs no second time. */
  lemma ShortReduced(o: Opts, strict: bool, op: AssignOp, k: Kind, id: nat, src: Expr)
    requires Reduced(o, strict, src)
    ensures match TryShort(o.division, op, k, id, src)
      case Some(r) => StmtReduced(o, strict, r)
      case None => op != ASSIGN || src.Const? ==> StmtReduced(o, strict, Assign(op, k, id, src))
  {
    if src.Const? {
      if SimplifyAssign(op, k, id, ConstValue(src)).Some? {
        ConstBrief(op, k, id, ConstValue(src));
        BriefReduced(o, strict, SimplifyAssign(op, k, id, ConstValue(src)).value);
      } else {
        ConstLeft(op, k, id, src);
        KeptReduced(o, strict, op, k, id, src);
      }
    } else if DeepEqual(Var(k, id), src, o.division) {
      SelfReduced(o, strict, op, k, id);
      SameVariable(k, id, src, o.division);
      VarReduced(o, strict, op, k, id, src);
    } else if op != ASSIGN {
      KeptReduced(o, strict, op, k, id, src);
    }
  }

  lemma VarReduced(o: Opts, strict: bool, op: AssignOp, k: Kind, id: nat, src: Expr)
    requires src.Var?
    ensures op in {MUL_ASSIGN, SHL_ASSIGN, SHR_ASSIGN} ==> StmtReduced(o, strict, Assign(op, k, id, src))
  {
  }

  lemma MadeReduced(o: Opts, strict: bool, op: AssignOp, k: Kind, id: nat, src: Expr)
    requires Reduced(o, strict, src) && op != ASSIGN
    ensures StmtReduced(o, strict, MakeAssign(o.division, op, k, id, src))
  {
    ShortReduced(o, strict, op, k, id, src);
  }

  /** The operands of a tuple that starts with the variable are reduced: such a tuple is not one of constants. */
  lemma FirstVariable(o: Opts, strict: bool, k: Kind, id: nat, e: Expr)
    requires e.Tuple? && |e.args| == 2 && DeepEqual(Var(k, id), e.args[0], o.division) && Reduced(o, strict, e)
    ensures Reduced(o, strict, e.args[1])
  {
    SameVariable(k, id, e.args[0], o.division);
    assert FlattenChild(o, e.kind, e.opn, e.args[0]) == [e.args[0]];
    assert Flatten(o, e.kind, e.opn, e.args)[0] == e.args[0];
  }

  lemma AssignReduced(o: Opts, strict: bool, op: AssignOp, k: Kind, id: nat, src: Expr)
    requires Reduced(o, strict, src)
    ensures StmtReduced(o, strict, OrElse(TryAssign(o.division, op, k, id, src), Assign(op, k, id, src)))
  {
    if src.Const? || DeepEqual(Var(k, id), src, o.division) || op != ASSIGN {
      TriedReduced(o, strict, op, k, id, src);
    } else {
      StoreReduced(o, strict, k, id, src);
    }
  }

  lemma TriedReduced(o: Opts, strict: bool, op: AssignOp, k: Kind, id: nat, src: Expr)
    requires Reduced(o, strict, src) && (src.Const? || DeepEqual(Var(k, id), src, o.division) || op != ASSIGN)
    ensures StmtReduced(o, strict, OrElse(TryShort(o.division, op, k, id, src), Assign(op, k, id, src)))
  {
    ShortReduced(o, strict, op, k, id, src);
    if op == ASSIGN && DeepEqual(Var(k, id), src, o.division) {
      SelfReduced(o, strict, op, k, id);
    }
  }

  lemma ShortenedReduced(o: Opts, strict: bool, k: Kind, id: nat, src: Expr)
    requires Reduced(o, strict, src) && ShortenAssign(o.division, k, id, src).Some?
    ensures StmtReduced(o, strict, ShortenAssign(o.division, k, id, src).value)
  {
    if src.Binary? {
      MadeReduced(o, strict, AssignOf2(src.op2).value, k, id, src.y);
    } else {
      ShortenedTuple(o, strict, k, id, src, src.args[1]);
    }
  }

  lemma ShortenedTuple(o: Opts, strict: bool, k: Kind, id: nat, src: Expr, y: Expr)
    requires src.Tuple? && AssignOfN(src.opn).Some? && |src.args| == 2 && y == src.args[1]
    requires Reduced(o, strict, src) && DeepEqual(Var(k, id), src.args[0], o.division)
    ensures StmtReduced(o, strict, MakeAssign(o.division, AssignOfN(src.opn).value, k, id, y))
  {
    FirstVariable(o, strict, k, id, src);
    MadeReduced(o, strict, AssignOfN(src.opn).value, k, id, y);
  }

  lemma UnshortenedDone(division: bool, k: Kind, id: nat, src: Expr)
    requires !src.Const? && !DeepEqual(Var(k, id), src, division) && ShortenAssign(division, k, id, src).None?
    ensures AssignDone(division, ASSIGN, k, id, src)
  {
  }

  lemma StoreReduced(o: Opts, strict: bool, k: Kind, id: nat, src: Expr)
    requires Reduced(o, strict, src) && !src.Const? && !DeepEqual(Var(k, id), src, o.division)
    ensures StmtReduced(o, strict, OrElse(ShortenAssign(o.division, k, id, src), Assign(ASSIGN, k, id, src)))
  {
    if ShortenAssign(o.division, k, id, src).Some? {
      ShortenedReduced(o, strict, k, id, src);
    } else {
      UnshortenedDone(o.division, k, id, src);
      KeptReduced(o, strict, ASSIGN, k, id, src);
    }
  }

  // ---------------------------------------------------------------- statements

  /** Optimizing a statement reduces every expression in it and leaves no assignment that has a shorter form. */
  lemma {:induction false} OptimizeStmtReduced(o: Opts, strict: bool, st: Stmt, ks: Kinds, n: nat)
    requires o.fold && o.simplify && (strict ==> o.division && OkStmt(st, ks, n))
    ensures StmtReduced(o, strict, OptimizeStmt(o, st))
    decreases st, 1
  {
    match st
    case ExprStmt(e) => OptimizeReduced(o, strict, e);
    case Assign(op, k, id, src) =>
      OptimizeReduced(o, strict, src);
      AssignReduced(o, strict, op, k, id, Optimize(o, src));
    case If(test, a, b) =>
      OptimizeReduced(o, strict, test);
      OptimizeStmtReduced(o, strict, a, ks, n);
      OptimizeStmtReduced(o, strict, b, ks, n);
    case For(init, test, post, body) =>
      OptimizeReduced(o, strict, test);
      OptimizeStmtReduced(o, strict, init, ks, n);
      OptimizeStmtReduced(o, strict, post, ks, n);
      OptimizeStmtReduced(o, strict, body, ks, n);
    case Cond(clauses) => OptimizeClausesReduced(o, strict, clauses, ks, n);
    case Switch(expr, cases) =>
      OptimizeReduced(o, strict, expr);
      OptimizeCasesReduced(o, strict, cases, ks, n);
    case Block(stmts) => OptimizeAllReduced(o, strict, stmts, ks, n);
    case _ =>
  }

  lemma {:induction false} OptimizeAllReduced(o: Opts, strict: bool, ss: seq<Stmt>, ks: Kinds, n: nat)
    requires o.fold && o.simplify && (strict ==> o.division && AllOk(ss, ks, n))
    ensures StmtsReduced(o, strict, OptimizeAll(o, ss))
    decreases ss, 0
  {
    if ss != [] {
      OptimizeStmtReduced(o, strict, ss[0], ks, n);
      OptimizeAllReduced(o, strict, ss[1..], ks, n);
      assert OptimizeAll(o, ss)[1..] == OptimizeAll(o, ss[1..]);
    }
  }

  lemma {:induction false} OptimizeClausesReduced(o: Opts, strict: bool, cs: seq<Clause>, ks: Kinds, n: nat)
    requires o.fold && o.simplify && (strict ==> o.division && OkClauses(cs, ks, n))
    ensures ClausesReduced(o, strict, OptimizeClauses(o, cs))
    decreases cs, 0
  {
    if cs != [] {
      OptimizeClauseReduced(o, strict, cs[0], ks, n);
      OptimizeClausesReduced(o, strict, cs[1..], ks, n);
      assert OptimizeClauses(o, cs)[1..] == OptimizeClauses(o, cs[1..]);
    }
  }

  lemma {:induction false} OptimizeClauseReduced(o: Opts, strict: bool, c: Clause, ks: Kinds, n: nat)
    requires o.fold && o.simplify && (strict ==> o.division && OkClause(c, ks, n))
    ensures ClauseReduced(o, strict, OptimizeClause(o, c))
    decreases c, 2
  {
    OptimizeReduced(o, strict, c.test);
    OptimizeStmtReduced(o, strict, c.body, ks, n);
  }

  lemma {:induction false} OptimizeCasesReduced(o: Opts, strict: bool, cs: seq<Case>, ks: Kinds, n: nat)
    requires o.fold && o.simplify && (strict ==> o.division && OkCases(cs, ks, n))
    ensures CasesReduced(o, strict, OptimizeCases(o, cs))
    decreases cs, 0
  {
    if cs != [] {
      OptimizeCaseReduced(o, strict, cs[0], ks, n);
      OptimizeCasesReduced(o, strict, cs[1..], ks, n);
      assert OptimizeCases(o, cs)[1..] == OptimizeCases(o, cs[1..]);
    }
  }

  lemma {:induction false} OptimizeCaseReduced(o: Opts, strict: bool, c: Case, ks: Kinds, n: nat)
    requires o.fold && o.simplify && (strict ==> o.division && OkCase(c, ks, n))
    ensures CaseReduced(o, strict, OptimizeCase(o, c))
    decreases c, 2
  {
    if c.Case? {
      OptimizeReduced(o, strict, c.expr);
    }
    OptimizeStmtReduced(o, strict, c.body, ks, n);
  }
}
