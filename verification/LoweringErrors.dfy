/** The errors that lowering reports: misplaced jumps and second defaults, in what is compiled, and nothing else. */
module LoweringErrors {
  import opened Values
  import opened Ir
  import opened Stmts
  import opened Flat
  import opened Lowering
  import opened LoweringDomain
  import opened LoweringFunc

  // ---------------------------------------------------------------- which expressions compile to constants

  /** The constant that an expression compiles to. */
  function Decided(e: Expr): (c: Option<Expr>)
    ensures c.Some? ==> c.value.Const?
  {
    match e
    case Const(_, _) => Some(e)
    case Binary(_, op, x, y) =>
      var (a, b) := (Decided(x), Decided(y));
      if op != LAND && op != LOR then None
      else if a.Some? then (if Truth(ConstValue(a.value)) == (op == LAND) then b else a)
      else if b.Some? && Truth(ConstValue(b.value)) != (op == LAND) then b
      else None
    case Tuple(k, op, args) =>
      if |args| == 0 then Some(Const(k, IdentityN(k, op).num)) else if |args| == 1 then Decided(args[0]) else None
    case _ => None
  }

  ghost predicate DecidedAs(c: Expr, d: Option<Expr>) { if d.Some? then c == d.value else !c.Const? }

  lemma {:induction false} DecidedExact(e: Expr, s: CState)
    ensures DecidedAs(CompileExpr(e, s).0, Decided(e))
    decreases e
  {
    match e
    case Binary(_, op, x, y) =>
      DecidedExact(x, s);
      DecidedExact(y, CompileExpr(x, s).1);
    case Tuple(_, _, args) =>
      if |args| == 1 {
        DecidedExact(args[0], s);
        OnlyArg(args, s);
      }
    case _ =>
  }

  lemma OnlyArg(args: seq<Expr>, s: CState)
    requires |args| == 1
    ensures var c := CompileExpr(args[0], s); CompileArgs(args, s).0 == [ToVarConst(c.0, c.1).0]
  {
    var c := CompileExpr(args[0], s);
    var leaf := ToVarConst(c.0, c.1);
    assert args[1..] == [];
    assert CompileArgs(args[1..], leaf.1) == ([], leaf.1);
  }

  // ---------------------------------------------------------------- expressions report nothing

  lemma {:induction false} ExprErrors(e: Expr, s: CState)
    ensures CompileExpr(e, s).1.errors == s.errors
    decreases e, 1
  {
    match e
    case Unary(_, _, x) => ExprErrors(x, s);
    case Binary(_, _, x, y) =>
      ExprErrors(x, s);
      ExprErrors(y, CompileExpr(x, s).1);
    case Tuple(_, _, args) => ArgsErrors(args, s);
    case _ =>
  }

  lemma {:induction false} ArgsErrors(es: seq<Expr>, s: CState)
    ensures CompileArgs(es, s).1.errors == s.errors
    decreases es, 0
  {
    if es != [] {
      var c := CompileExpr(es[0], s);
      ExprErrors(es[0], s);
      ArgsErrors(es[1..], ToVarConst(c.0, c.1).1);
    }
  }

  // ---------------------------------------------------------------- the errors of statements

  function Bit(b: bool): nat { if b then 1 else 0 }

  /** How often a statement breaks, continues or falls through where the scope has no place for it, and how many of its
      switches have two defaults, in the parts that are compiled: a constant test leaves out a branch or a loop. */
  function Misplaced(st: Stmt, sc: Scope): nat
    decreases st, 1
  {
    match st
    case If(test, a, b) =>
      (match Decided(test)
       case Some(c) => if Truth(ConstValue(c)) then Misplaced(a, sc) else Misplaced(b, sc)
       case None => Misplaced(a, sc) + Misplaced(b, sc))
    case For(init, test, post, body) =>
      Misplaced(init, sc)
      + if test.Const? then 0 else Misplaced(body, LoopScope(sc)) + Misplaced(post, LoopScope(sc))
    case Cond(clauses) => MisplacedInClauses(clauses, sc)
    case Switch(_, cases) => if DefaultCount(cases) > 1 then 1 else MisplacedInCases(cases, CaseScope(sc))
    case Block(stmts) => MisplacedInAll(stmts, sc)
    case Break => Bit(!sc.breaks)
    case Continue => Bit(!sc.continues)
    case Fallthrough => Bit(!sc.fallsThrough)
    case _ => 0
  }

  function MisplacedInAll(ss: seq<Stmt>, sc: Scope): nat
    decreases ss, 0
  {
    if ss == [] then 0 else Misplaced(ss[0], sc) + MisplacedInAll(ss[1..], sc)
  }

  function MisplacedInClauses(cs: seq<Clause>, sc: Scope): nat
    decreases cs, 0
  {
    if cs == [] then 0 else MisplacedInClause(cs[0], sc) + MisplacedInClauses(cs[1..], sc)
  }

  function MisplacedInClause(c: Clause, sc: Scope): nat
    decreases c, 2
  {
    Misplaced(c.body, sc)
  }

  function MisplacedInCases(cs: seq<Case>, sc: Scope): nat
    decreases cs, 0
  {
    if cs == [] then 0 else MisplacedInCase(cs[0], sc) + MisplacedInCases(cs[1..], sc)
  }

  function MisplacedInCase(c: Case, sc: Scope): nat
    decreases c, 2
  {
    Misplaced(c.body, sc)
  }

  predicate TwoDefaults(cases: seq<Case>) {
    exists i, j :: 0 <= i < j < |cases| && cases[i].Default? && cases[j].Default?
  }

  lemma {:induction false} DefaultCountExact(cases: seq<Case>)
    ensures DefaultCount(cases) > 0 <==> exists i :: 0 <= i < |cases| && cases[i].Default?
    ensures DefaultCount(cases) > 1 <==> TwoDefaults(cases)
  {
    if cases != [] {
      var rest := cases[1..];
      DefaultCountExact(rest);
      assert forall i :: 0 < i < |cases| ==> cases[i] == rest[i - 1];
      if TwoDefaults(rest) {
        var i, j :| 0 <= i < j < |rest| && rest[i].Default? && rest[j].Default?;
        assert cases[i + 1].Default? && cases[j + 1].Default?;
      }
      if i :| 0 <= i < |rest| && rest[i].Default? {
        assert cases[i + 1].Default?;
      }
    }
  }

  /** The scope that the stacks of a state provide. */
  function ScopeOf(s: CState): Scope { Scope(s.breaks != [], s.continues != [], s.fallthroughs != []) }

  lemma JumpErrors(target: nat, test: Expr, s: CState)
    ensures CompileJumpIf(target, test, s).errors == s.errors
  {
    ExprErrors(test, s);
  }

  /** The errors of every statement, from every state. */
  lemma {:induction false} AddErrors(st: Stmt, s: CState)
    ensures CompileAdd(st, s).errors == s.errors + Misplaced(st, ScopeOf(s))
    decreases st, 3
  {
    if st.ExprStmt? {
      ExprErrors(st.e, s);
    } else {
      StmtErrors(st, s);
    }
  }

  lemma {:induction false} StmtErrors(st: Stmt, s: CState)
    ensures CompileStmt(st, s).errors == s.errors + Misplaced(st, ScopeOf(s))
    decreases st, 2
  {
    match st
    case ExprStmt(e) => ExprErrors(e, s);
    case Assign(_, _, _, src) => ExprErrors(src, s);
    case If(_, _, _) => IfErrors(st, s);
    case For(_, _, _, _) => ForErrors(st, s);
    case Cond(clauses) => CondErrors(clauses, s);
    case Switch(_, _) => SwitchErrors(st, s);
    case Block(stmts) => BlockErrors(stmts, s);
    case Break => TopErrors(s.breaks, s);
    case Continue => TopErrors(s.continues, s);
    case Fallthrough => TopErrors(s.fallthroughs, s);
    case _ =>
  }

  /** A jump to the innermost destination is emitted, or an error counted when there is none. */
  lemma TopErrors(stack: seq<nat>, s: CState)
    ensures var t := EmitGotoTop(stack, s);
      if stack == [] then t.errors == s.errors + 1 && t.node == s.node
      else t.errors == s.errors && t.node == s.node + [Goto(stack[|stack| - 1])]
  {
  }

  lemma {:induction false} CondErrors(clauses: seq<Clause>, s: CState)
    ensures CompileCond(clauses, s).errors == s.errors + MisplacedInClauses(clauses, ScopeOf(s))
    decreases clauses, 1
  {
    if clauses != [] {
      ClausesErrors(clauses, s.labels, s.(labels := s.labels + 1));
    }
  }

  lemma {:induction false} IfErrors(st: Stmt, s: CState)
    requires st.If?
    ensures CompileIf(st, s).errors == s.errors + Misplaced(st, ScopeOf(s))
    decreases st, 1
  {
    var (c, s1) := CompileExpr(st.test, s);
    ExprErrors(st.test, s);
    DecidedExact(st.test, s);
    if c.Const? {
      AddErrors(if Truth(ConstValue(c)) then st.then_ else st.else_, s1);
    } else {
      BranchErrors(st, c, s1);
    }
  }

  lemma {:induction false} BranchErrors(st: Stmt, c: Expr, s: CState)
    requires st.If?
    ensures CompileBranches(st, c, s).errors
      == s.errors + Misplaced(st.then_, ScopeOf(s)) + Misplaced(st.else_, ScopeOf(s))
    decreases st, 0
  {
    if IsConstStmt(st.else_) {
      var s1 := OneBranch(st, c, s);
      AddErrors(st.then_, s1);
    } else {
      var s1, s2 := BothBranches(st, c, s);
      AddErrors(st.then_, s1);
      AddErrors(st.else_, s2);
    }
  }

  /** The state has the same errors and the same stacks. */
  ghost predicate Alike(s: CState, t: CState) {
    t.errors == s.errors && t.breaks == s.breaks && t.continues == s.continues && t.fallthroughs == s.fallthroughs
  }

  lemma OneBranch(st: Stmt, c: Expr, s: CState) returns (s1: CState)
    requires st.If? && IsConstStmt(st.else_)
    ensures Alike(s, s1) && Alike(CompileAdd(st.then_, s1), CompileBranches(st, c, s))
  {
    s1 := EmitJump(s.(labels := s.labels + 1), s.labels, NewUnary(NOT1, c));
  }

  lemma BothBranches(st: Stmt, c: Expr, s: CState) returns (s1: CState, s2: CState)
    requires st.If? && !IsConstStmt(st.else_)
    ensures Alike(s, s1) && Alike(CompileAdd(st.then_, s1), s2) && Alike(CompileAdd(st.else_, s2), CompileBranches(st, c, s))
  {
    s1 := EmitJump(s.(labels := s.labels + 2), s.labels, NewUnary(NOT1, c));
    s2 := Emit(Emit(CompileAdd(st.then_, s1), Goto(s.labels + 1)), LabelI(s.labels));
  }

  lemma {:induction false} ForErrors(st: Stmt, s: CState)
    requires st.For?
    ensures CompileFor(st, s).errors == s.errors + Misplaced(st, ScopeOf(s))
    decreases st, 1
  {
    AddErrors(st.init, s);
    if !st.test.Const? {
      LoopErrors(st, CompileAdd(st.init, s));
    }
  }

  lemma {:induction false} LoopErrors(st: Stmt, s: CState)
    requires st.For?
    ensures CompileLoop(st, s).errors
      == s.errors + Misplaced(st.body, LoopScope(ScopeOf(s))) + Misplaced(st.post, LoopScope(ScopeOf(s)))
    decreases st, 0
  {
    var s2 := LoopEntry(s);
    LoopParts(st, s, s2);
    AddErrors(st.body, s2);
    AddErrors(st.post, CompileAdd(st.body, s2));
  }

  lemma LoopParts(st: Stmt, s: CState, s2: CState)
    requires st.For? && s2 == LoopEntry(s)
    ensures ScopeOf(s2) == LoopScope(ScopeOf(s)) && s2.errors == s.errors
    ensures ScopeOf(CompileAdd(st.body, s2)) == ScopeOf(s2)
    ensures CompileLoop(st, s).errors == CompileAdd(st.post, CompileAdd(st.body, s2)).errors
  {
    var s4 := LoopBody(st, s);
    JumpErrors(s.labels, st.test, Emit(s4, LabelI(s.labels + 1)));
    assert CompileLoop(st, s).errors == LoopTest(st, s).errors == s4.errors;
  }

  lemma {:induction false} ClausesErrors(cs: seq<Clause>, lEnd: nat, s: CState)
    requires cs != []
    ensures CompileClauses(cs, lEnd, s).errors == s.errors + MisplacedInClauses(cs, ScopeOf(s))
    decreases cs, 0
  {
    if |cs| == 1 {
      ClauseErrors(cs[0], lEnd, s);
      assert cs[1..] == [];
    } else {
      var s0 := s.(labels := s.labels + 1);
      var s2 := NextClause(cs, lEnd, s, s0);
      ClauseErrors(cs[0], s.labels, s0);
      ClausesErrors(cs[1..], lEnd, s2);
    }
  }

  lemma NextClause(cs: seq<Clause>, lEnd: nat, s: CState, s0: CState) returns (s2: CState)
    requires |cs| > 1 && s0 == s.(labels := s.labels + 1)
    ensures var s1 := CompileClause(cs[0], s.labels, s0); Alike(s1, s2) && Alike(s, s1.(errors := s.errors))
    ensures CompileClauses(cs, lEnd, s) == CompileClauses(cs[1..], lEnd, s2)
  {
    s2 := Emit(Emit(CompileClause(cs[0], s.labels, s0), Goto(lEnd)), LabelI(s.labels));
  }

  lemma {:induction false} ClauseErrors(c: Clause, next: nat, s: CState)
    ensures CompileClause(c, next, s).errors == s.errors + MisplacedInClause(c, ScopeOf(s))
    decreases c, 4
  {
    JumpErrors(next, NewUnary(NOT1, c.test), s);
    AddErrors(c.body, CompileJumpIf(next, NewUnary(NOT1, c.test), s));
  }

  lemma {:induction false} SwitchErrors(st: Stmt, s: CState)
    requires st.Switch?
    ensures CompileSwitch(st, s).errors == s.errors + Misplaced(st, ScopeOf(s))
    decreases st, 1
  {
    if DefaultCount(st.cases) <= 1 {
      var (v, s1) := ToVar(st.expr, s);
      ExprErrors(st.expr, s.(vars := s.vars + 1));
      CasesErrors(st.cases, v, FirstCase(s1.labels), s1.(labels := s1.labels + 1));
    }
  }

  lemma HeadErrors(c: Case, last: bool, v: Expr, ls: CaseLabels, s: CState)
    ensures CaseHead(c, last, v, ls, s).1.errors == s.errors
  {
    if c.Case? {
      var next := if last then (if ls.default_.Some? then ls.default_.value else ls.end) else s.labels;
      JumpErrors(next, Binary(Bool, NEQ, v, c.expr), HeadStart(last, ls, s));
    }
  }

  lemma {:induction false} CasesErrors(cs: seq<Case>, v: Expr, ls: CaseLabels, s: CState)
    ensures CompileCases(cs, v, ls, s).errors == s.errors + MisplacedInCases(cs, CaseScope(ScopeOf(s)))
    decreases cs, 0
  {
    if cs != [] {
      var last := |cs| == 1;
      var (ls1, s1) := CaseHead(cs[0], last, v, ls, s);
      HeadErrors(cs[0], last, v, ls, s);
      BodyErrors(cs[0], last, ls1, s1);
      CasesErrors(cs[1..], v, ls1, CaseBody(cs[0], last, ls1, s1));
    }
  }

  lemma {:induction false} BodyErrors(c: Case, last: bool, ls: CaseLabels, s: CState)
    requires ls.thisFall.Some?
    ensures CaseBody(c, last, ls, s).errors == s.errors + MisplacedInCase(c, CaseScope(ScopeOf(s)))
    decreases c, 4
  {
    AddErrors(c.body, EnterCase(s, ls.end, ls.thisFall.value));
  }

  lemma {:induction false} BlockErrors(ss: seq<Stmt>, s: CState)
    ensures CompileBlock(ss, s).errors == s.errors + MisplacedInAll(ss, ScopeOf(s))
    decreases ss, 0
  {
    if ss != [] {
      StmtErrors(ss[0], s);
      BlockErrors(ss[1..], CompileStmt(ss[0], s));
    }
  }

  /** The errors of a function. */
  lemma FuncErrors(params: seq<nat>, body: Stmt, vars: nat)
    ensures CompileFunc(params, body, vars).errors == Misplaced(body, TOP_SCOPE)
  {
    var s := FuncStart(params, vars);
    assert ScopeOf(s) == TOP_SCOPE && s.errors == 0;
    AddErrors(body, s);
    ReturnErrors(params, body, vars);
  }

  lemma ReturnErrors(params: seq<nat>, body: Stmt, vars: nat)
    ensures CompileFunc(params, body, vars).errors == CompileAdd(body, FuncStart(params, vars)).errors
  {
  }

  // ---------------------------------------------------------------- programs of the domain

  lemma {:induction false} LowerablePlaced(st: Stmt, sc: Scope, n: nat)
    requires Lowerable(st, sc, n)
    ensures Misplaced(st, sc) == 0
    decreases st, 1
  {
    match st
    case If(_, a, b) =>
      LowerablePlaced(a, sc, n);
      LowerablePlaced(b, sc, n);
    case For(init, test, post, body) =>
      LowerablePlaced(init, sc, n);
      if !test.Const? {
        LowerablePlaced(body, LoopScope(sc), n);
        LowerablePlaced(post, LoopScope(sc), n);
      }
    case Cond(clauses) => ClausesPlaced(clauses, sc, n);
    case Switch(expr, cases) => CasesPlaced(cases, expr.kind, CaseScope(sc), n);
    case Block(stmts) => AllPlaced(stmts, sc, n);
    case _ =>
  }

  lemma {:induction false} AllPlaced(ss: seq<Stmt>, sc: Scope, n: nat)
    requires AllLowerable(ss, sc, n)
    ensures MisplacedInAll(ss, sc) == 0
    decreases ss, 0
  {
    if ss != [] {
      LowerablePlaced(ss[0], sc, n);
      AllPlaced(ss[1..], sc, n);
    }
  }

  lemma {:induction false} ClausesPlaced(cs: seq<Clause>, sc: Scope, n: nat)
    requires ClausesLowerable(cs, sc, n)
    ensures MisplacedInClauses(cs, sc) == 0
    decreases cs, 0
  {
    if cs != [] {
      ClausePlaced(cs[0], sc, n);
      ClausesPlaced(cs[1..], sc, n);
    }
  }

  lemma {:induction false} ClausePlaced(c: Clause, sc: Scope, n: nat)
    requires ClauseLowerable(c, sc, n)
    ensures MisplacedInClause(c, sc) == 0
    decreases c, 2
  {
    LowerablePlaced(c.body, sc, n);
  }

  lemma {:induction false} CasesPlaced(cs: seq<Case>, k: Kind, sc: Scope, n: nat)
    requires CasesLowerable(cs, k, sc, n)
    ensures MisplacedInCases(cs, sc) == 0
    decreases cs, 0
  {
    if cs != [] {
      CasePlaced(cs[0], k, sc, n);
      CasesPlaced(cs[1..], k, sc, n);
    }
  }

  lemma {:induction false} CasePlaced(c: Case, k: Kind, sc: Scope, n: nat)
    requires CaseLowerable(c, k, sc, n)
    ensures MisplacedInCase(c, sc) == 0
    decreases c, 2
  {
    LowerablePlaced(c.body, sc, n);
  }

  /** A function of the domain is compiled without an error. */
  lemma LowerableErrors(params: seq<nat>, body: Stmt, vars: nat, n: nat)
    requires Lowerable(body, TOP_SCOPE, n)
    ensures CompileFunc(params, body, vars).errors == 0
  {
    FuncErrors(params, body, vars);
    LowerablePlaced(body, TOP_SCOPE, n);
  }
}
