/** The class Compiler of onejit/compiler.cpp, which updates its lists and stacks in place. Each method
    is proved to make exactly the state change that Lowering describes. */
module Compilers {
  import opened Values
  import opened Ir
  import opened Stmts
  import opened Flat
  import opened Lowering
  import opened LoweringAgain

  /** The arguments compiled when the first i of them have become `nodes`. */
  function ArgsFrom(es: seq<Expr>, i: nat, nodes: seq<Expr>, s: CState): (seq<Expr>, CState)
    requires i <= |es|
  {
    var rest := CompileArgs(es[i..], s);
    (nodes + rest.0, rest.1)
  }

  lemma ArgsStart(es: seq<Expr>, s: CState)
    ensures ArgsFrom(es, 0, [], s) == CompileArgs(es, s)
  {
    assert es[0..] == es && [] + CompileArgs(es, s).0 == CompileArgs(es, s).0;
  }

  lemma ArgsStep(es: seq<Expr>, i: nat, nodes: seq<Expr>, s: CState)
    requires i < |es|
    ensures var c := CompileExpr(es[i], s);
      var leaf := ToVarConst(c.0, c.1);
      ArgsFrom(es, i, nodes, s) == ArgsFrom(es, i + 1, nodes + [leaf.0], leaf.1)
  {
    var c := CompileExpr(es[i], s);
    var leaf := ToVarConst(c.0, c.1);
    assert es[i..][1..] == es[i + 1..];
    var rest := CompileArgs(es[i + 1..], leaf.1);
    assert CompileArgs(es[i..], s) == ([leaf.0] + rest.0, rest.1);
    assert nodes + ([leaf.0] + rest.0) == (nodes + [leaf.0]) + rest.0;
  }

  lemma ChangedStep(es: seq<Expr>, i: nat, nodes: seq<Expr>, leaf: Expr)
    requires i < |es| && |nodes| == i
    ensures nodes + [leaf] != es[..i + 1] <==> nodes != es[..i] || es[i] != leaf
  {
    assert es[..i + 1] == es[..i] + [es[i]];
    if nodes + [leaf] == es[..i + 1] {
      assert nodes == (nodes + [leaf])[..i] && es[..i] == es[..i + 1][..i];
      assert leaf == (nodes + [leaf])[i];
    }
  }

  /** A clause that is not the last one, with the jump to the end and the label behind it. */
  function ClauseStep(c: Clause, lEnd: nat, s: CState): CState {
    Emit(Emit(CompileClause(c, s.labels, s.(labels := s.labels + 1)), Goto(lEnd)), LabelI(s.labels))
  }

  lemma ClausesStep(clauses: seq<Clause>, i: nat, lEnd: nat, s: CState)
    requires i + 1 < |clauses|
    ensures CompileClauses(clauses[i..], lEnd, s)
      == CompileClauses(clauses[i + 1..], lEnd, ClauseStep(clauses[i], lEnd, s))
  {
    var rest := clauses[i..];
    assert rest[1..] == clauses[i + 1..] && rest[0] == clauses[i] && |rest| > 1;
    assert CompileClauses(rest, lEnd, s) == CompileClauses(rest[1..], lEnd, ClauseStep(rest[0], lEnd, s));
  }

  // ---------------------------------------------------------------- the compiler

  class Compiler {
    var node: seq<Instr>
    var breaks: seq<nat>
    var continues: seq<nat>
    var fallthroughs: seq<nat>
    var labels: nat
    var vars: nat
    var errors: nat

    /** An empty compiler for a function with n variables; label 0 is the address of the function. */
    constructor (n: nat)
      ensures State() == CState([], [], [], [], 1, n, 0)
    {
      node, breaks, continues, fallthroughs := [], [], [], [];
      labels, vars, errors := 1, n, 0;
    }

    ghost function State(): CState
      reads this
    {
      CState(node, breaks, continues, fallthroughs, labels, vars, errors)
    }

    method Add(i: Instr)
      modifies this
      ensures State() == Emit(old(State()), i)
    {
      node := node + [i];
    }

    method AddExpr(e: Expr)
      modifies this
      ensures State() == EmitExpr(old(State()), e)
    {
      if e != VOID_CONST {
        Add(Pure(e));
      }
    }

    method Misplaced()
      modifies this
      ensures State() == Error(old(State()))
    {
      errors := errors + 1;
    }

    method NewLabel() returns (l: nat)
      modifies this
      ensures l == old(labels) && State() == old(State()).(labels := l + 1)
    {
      l := labels;
      labels := labels + 1;
    }

    method NewVar() returns (id: nat)
      modifies this
      ensures id == old(vars) && State() == old(State()).(vars := id + 1)
    {
      id := vars;
      vars := vars + 1;
    }

    // -------------------------------------------------------------- expressions

    method Expression(e: Expr) returns (c: Expr)
      modifies this
      ensures (c, State()) == CompileExpr(e, old(State()))
      ensures Compiled(c) && Size(c) <= Size(e)
      decreases Size(e), 1
    {
      CompiledResult(e, State());
      match e
      case Unary(_, _, _) => c := UnaryNode(e);
      case Binary(_, _, _, _) => c := BinaryNode(e);
      case Tuple(_, _, _) => c := TupleNode(e);
      case _ => c := e;
    }

    method UnaryNode(e: Expr) returns (c: Expr)
      requires e.Unary?
      modifies this
      ensures (c, State()) == CompileExpr(e, old(State()))
      decreases Size(e), 0
    {
      var x := Expression(e.x);
      c := e;
      if e.x != x {
        c := NewUnary(e.op1, x);
      }
    }

    method BinaryNode(e: Expr) returns (c: Expr)
      requires e.Binary?
      modifies this
      ensures (c, State()) == CompileExpr(e, old(State()))
      decreases Size(e), 0
    {
      var x := Expression(e.x);
      var y := Expression(e.y);
      ghost var same := if x != e.x || y != e.y then NewBinary(e.op2, x, y) else e;
      if e.op2 == LAND {
        var r := SimplifyLand(x, y, same);
        if r.Some? {
          return r.value;
        }
      } else if e.op2 == LOR {
        var r := SimplifyLor(x, y, same);
        if r.Some? {
          return r.value;
        }
      }
      c := e;
      if e.x != x || e.y != y {
        c := NewBinary(e.op2, x, y);
      }
    }

    /** None says that the node stays what it is: `same`. */
    method SimplifyLand(x: Expr, y: Expr, ghost same: Expr) returns (r: Option<Expr>)
      requires Compiled(x) && Compiled(y)
      modifies this
      ensures (if r.Some? then r.value else same, State()) == SimplifyBoolean(true, x, y, same, old(State()))
      decreases Size(x) + Size(y), 3
    {
      if x.Const? {
        return Some(if Truth(ConstValue(x)) then y else x);
      }
      if y.Const? {
        if Truth(ConstValue(y)) {
          return Some(x);
        }
        AddExpr(x);
        return Some(y);
      }
      if y.Var? {
        return None;
      }
      var dst := StoreLand(x, y);
      return Some(dst);
    }

    /** The code behind `if (y.type() == VAR)`: x and y in a fresh variable. */
    method StoreLand(x: Expr, y: Expr) returns (r: Expr)
      requires Compiled(x) && Compiled(y) && !IsLeaf(y)
      modifies this
      ensures (r, State()) == StoreBoolean(true, x, y, old(State()))
      decreases Size(x) + Size(y), 2
    {
      ghost var s := State();
      LargerThanLeaf(y);
      var dst := NewVar();
      var end := NewLabel();
      if Compares(x) {
        Add(Let(ASSIGN, Bool, dst, Const(Bool, 0)));
        assert Size(NewUnary(NOT1, x)) == Size(x) + 1;
        CompiledAgain(NewUnary(NOT1, x), State());
        JumpIf(end, NewUnary(NOT1, x));
      } else {
        Add(Let(ASSIGN, Bool, dst, x));
        CompiledAgain(NewUnary(NOT1, Var(Bool, dst)), State());
        assert Size(NewUnary(NOT1, Var(Bool, dst))) == 2;
        JumpIf(end, NewUnary(NOT1, Var(Bool, dst)));
      }
      assert State() == StoreLeft(true, x, s);
      CompiledAgain(y, State());
      AssignNode(ASSIGN, Bool, dst, y);
      Add(LabelI(end));
      r := Var(Bool, dst);
    }

    method SimplifyLor(x: Expr, y: Expr, ghost same: Expr) returns (r: Option<Expr>)
      requires Compiled(x) && Compiled(y)
      modifies this
      ensures (if r.Some? then r.value else same, State()) == SimplifyBoolean(false, x, y, same, old(State()))
      decreases Size(x) + Size(y), 3
    {
      if x.Const? {
        return Some(if Truth(ConstValue(x)) then x else y);
      }
      if y.Const? {
        if Truth(ConstValue(y)) {
          AddExpr(x);
          return Some(y);
        }
        return Some(x);
      }
      if y.Var? {
        return None;
      }
      var dst := StoreLor(x, y);
      return Some(dst);
    }

    method StoreLor(x: Expr, y: Expr) returns (r: Expr)
      requires Compiled(x) && Compiled(y) && !IsLeaf(y)
      modifies this
      ensures (r, State()) == StoreBoolean(false, x, y, old(State()))
      decreases Size(x) + Size(y), 2
    {
      ghost var s := State();
      var dst := NewVar();
      var end := NewLabel();
      if Compares(x) {
        Add(Let(ASSIGN, Bool, dst, Const(Bool, 1)));
        CompiledAgain(x, State());
        JumpIf(end, x);
      } else {
        Add(Let(ASSIGN, Bool, dst, x));
        CompiledAgain(Var(Bool, dst), State());
        JumpIf(end, Var(Bool, dst));
      }
      assert State() == StoreLeft(false, x, s);
      CompiledAgain(y, State());
      AssignNode(ASSIGN, Bool, dst, y);
      Add(LabelI(end));
      r := Var(Bool, dst);
    }

    method TupleNode(e: Expr) returns (c: Expr)
      requires e.Tuple?
      modifies this
      ensures (c, State()) == CompileExpr(e, old(State()))
      decreases Size(e), 0
    {
      ghost var s := State();
      var nodes: seq<Expr> := [];
      var changed := false;
      var n := |e.args|;
      ArgsStart(e.args, s);
      for i := 0 to n
        invariant |nodes| == i && changed == (nodes != e.args[..i])
        invariant ArgsFrom(e.args, i, nodes, State()) == CompileArgs(e.args, s)
      {
        ArgSize(e.args, i);
        ArgsStep(e.args, i, nodes, State());
        var child := Expression(e.args[i]);
        var leaf := ToVarOrConst(child);
        ChangedStep(e.args, i, nodes, leaf);
        nodes := nodes + [leaf];
        changed := changed || e.args[i] != leaf;
      }
      assert e.args[..n] == e.args && e.args[n..] == [] && nodes + [] == nodes;
      if n == 0 {
        return Const(e.kind, IdentityN(e.kind, e.opn).num);
      } else if n == 1 {
        return nodes[0];
      }
      c := e;
      if changed {
        c := Tuple(e.kind, e.opn, nodes);
      }
    }

    method ToVariable(e: Expr) returns (v: Expr)
      modifies this
      ensures (v, State()) == ToVar(e, old(State()))
      decreases Size(e), 3
    {
      v := e;
      if !e.Var? {
        var id := NewVar();
        v := Var(e.kind, id);
        AssignNode(ASSIGN, e.kind, id, e);
      }
    }

    method ToVarOrConst(e: Expr) returns (v: Expr)
      requires Compiled(e)
      modifies this
      ensures (v, State()) == ToVarConst(e, old(State()))
      decreases Size(e), 4
    {
      v := e;
      if !IsLeaf(e) {
        CompiledAgain(e, State().(vars := vars + 1));
        v := ToVariable(e);
      }
    }

    method AssignNode(op: AssignOp, k: Kind, id: nat, src: Expr)
      modifies this
      ensures State() == CompileAssign(op, k, id, src, old(State()))
      decreases Size(src), 2
    {
      var c := Expression(src);
      Add(Let(op, k, id, c));
    }

    method JumpIf(target: nat, condition: Expr)
      modifies this
      ensures State() == CompileJumpIf(target, condition, old(State()))
      decreases Size(condition), 2
    {
      var test := Expression(condition);
      ghost var all := test;
      var negate := false;
      while test.Unary? && test.op1 == NOT1
        invariant StripNots(all) == (StripNots(test).0, negate != StripNots(test).1)
        decreases Size(test)
      {
        negate := !negate;
        test := test.x;
      }
      var x, op, y := test, NEQ, Const(test.kind, 0);
      if test.Binary? {
        x, op, y := test.x, test.op2, test.y;
      }
      if x.Const? && y.Const? {
        var v := EvalBinaryOp(op, ConstValue(x), ConstValue(y));
        if v.Val? {
          if negate != Truth(v) {
            Add(Goto(target));
          }
          return;
        }
      }
      var jop := ComparisonToCondJump(op, IsSigned(x.kind));
      if negate {
        jop := NegateCondJump(jop);
      }
      Add(Jump(jop, target, x, y));
    }

    // -------------------------------------------------------------- statements

    method CompileAndAdd(st: Stmt)
      modifies this
      ensures State() == CompileAdd(st, old(State()))
      decreases st, 3
    {
      if st.ExprStmt? {
        var c := Expression(st.e);
        AddExpr(c);
      } else {
        Statement(st);
      }
    }

    method Statement(st: Stmt)
      modifies this
      ensures State() == CompileStmt(st, old(State()))
      decreases st, 2
    {
      match st
      case ExprStmt(e) => var _ := Expression(e);
      case Assign(op, k, id, src) => AssignNode(op, k, id, src);
      case Inc(k, id) => Add(IncI(k, id));
      case Dec(k, id) => Add(DecI(k, id));
      case If(_, _, _) => IfNode(st);
      case For(_, _, _, _) => ForNode(st);
      case Cond(_) => CondNode(st);
      case Switch(_, _) => SwitchNode(st);
      case Block(_) => BlockNode(st);
      case Break => GotoTop(breaks);
      case Continue => GotoTop(continues);
      case Fallthrough => GotoTop(fallthroughs);
    }

    method GotoTop(stack: seq<nat>)
      modifies this
      ensures State() == EmitGotoTop(stack, old(State()))
      ensures stack == [] ==> State() == old(State()).(errors := old(State()).errors + 1)
      ensures stack != [] ==> State() == old(State()).(node := old(State()).node + [Goto(stack[|stack| - 1])])
    {
      if |stack| > 0 {
        Add(Goto(stack[|stack| - 1]));
      } else {
        Misplaced();
      }
    }

    method IfNode(st: Stmt)
      requires st.If?
      modifies this
      ensures State() == CompileIf(st, old(State()))
      decreases st, 1
    {
      var test := Expression(st.test);
      if test.Const? {
        CompileAndAdd(if Truth(ConstValue(test)) then st.then_ else st.else_);
        return;
      }
      var haveElse := !IsConstStmt(st.else_);
      var elseLabel := NewLabel();
      var endLabel := elseLabel;
      if haveElse {
        endLabel := NewLabel();
      }
      CompiledAgain(NewUnary(NOT1, test), State());
      JumpIf(elseLabel, NewUnary(NOT1, test));
      ghost var s := State();
      CompileAndAdd(st.then_);
      if haveElse {
        Add(Goto(endLabel));
        Add(LabelI(elseLabel));
        CompileAndAdd(st.else_);
      }
      Add(LabelI(endLabel));
      assert haveElse ==> State() == CompileBoth(st, elseLabel, s);
    }

    method ForNode(st: Stmt)
      requires st.For?
      modifies this
      ensures State() == CompileFor(st, old(State()))
      decreases st, 1
    {
      CompileAndAdd(st.init);
      if st.test.Const? {
        return;
      }
      ghost var s := State();
      var lLoop := NewLabel();
      var lContinue := NewLabel();
      var lBreak := NewLabel();
      Add(Goto(lContinue));
      Add(LabelI(lLoop));
      PushLoop(lBreak, lContinue);
      assert State() == LoopEntry(s);
      CompileAndAdd(st.body);
      CompileAndAdd(st.post);
      PopLoop();
      assert State() == LoopBody(st, s);
      Add(LabelI(lContinue));
      JumpIf(lLoop, st.test);
      assert State() == LoopTest(st, s);
      Add(LabelI(lBreak));
    }

    method PushLoop(lBreak: nat, lContinue: nat)
      modifies this
      ensures State() == EnterLoop(old(State()), lBreak, lContinue)
    {
      breaks := breaks + [lBreak];
      continues := continues + [lContinue];
    }

    method PopLoop()
      requires breaks != [] && continues != []
      modifies this
      ensures State() == ExitLoop(old(State()))
    {
      breaks := breaks[..|breaks| - 1];
      continues := continues[..|continues| - 1];
    }

    method PushCase(lBreak: nat, lFall: nat)
      modifies this
      ensures State() == EnterCase(old(State()), lBreak, lFall)
    {
      breaks := breaks + [lBreak];
      fallthroughs := fallthroughs + [lFall];
    }

    method PopCase()
      requires breaks != [] && fallthroughs != []
      modifies this
      ensures State() == ExitCase(old(State()))
    {
      breaks := breaks[..|breaks| - 1];
      fallthroughs := fallthroughs[..|fallthroughs| - 1];
    }

    method BlockNode(st: Stmt)
      requires st.Block?
      modifies this
      ensures State() == CompileBlock(st.stmts, old(State()))
      decreases st, 1
    {
      ghost var s := State();
      for i := 0 to |st.stmts|
        invariant CompileBlock(st.stmts, s) == CompileBlock(st.stmts[i..], State())
      {
        assert st.stmts[i..][1..] == st.stmts[i + 1..];
        Statement(st.stmts[i]);
      }
    }

    method CondNode(st: Stmt)
      requires st.Cond?
      modifies this
      ensures State() == CompileCond(st.clauses, old(State()))
      decreases st, 1
    {
      var n := |st.clauses|;
      if n == 0 {
        return;
      }
      ghost var s0 := State();
      var lEnd := NewLabel();
      ghost var s := State();
      ghost var done := CompileClauses(st.clauses, lEnd, s);
      assert s == s0.(labels := lEnd + 1) && st.clauses[0..] == st.clauses;
      assert CompileCond(st.clauses, s0) == Emit(done, LabelI(lEnd));
      var i := 0;
      while i + 1 < n
        invariant 0 <= i < n
        invariant CompileClauses(st.clauses[i..], lEnd, State()) == done
      {
        ClausesStep(st.clauses, i, lEnd, State());
        NextClause(st.clauses[i], lEnd);
        i := i + 1;
      }
      ghost var rest := st.clauses[i..];
      assert |rest| == 1 && rest[0] == st.clauses[i];
      assert CompileClauses(rest, lEnd, State()) == CompileClause(rest[0], lEnd, State());
      ClauseNode(st.clauses[i], lEnd);
      assert State() == done;
      Add(LabelI(lEnd));
    }

    method NextClause(c: Clause, lEnd: nat)
      modifies this
      ensures State() == ClauseStep(c, lEnd, old(State()))
      decreases c, 5
    {
      var lNext := NewLabel();
      ClauseNode(c, lNext);
      EndClause(lEnd, lNext);
    }

    method EndClause(lEnd: nat, lNext: nat)
      modifies this
      ensures State() == Emit(Emit(old(State()), Goto(lEnd)), LabelI(lNext))
    {
      Add(Goto(lEnd));
      Add(LabelI(lNext));
    }

    method ClauseNode(c: Clause, lNext: nat)
      modifies this
      ensures State() == CompileClause(c, lNext, old(State()))
      decreases c, 4
    {
      JumpIf(lNext, NewUnary(NOT1, c.test));
      CompileAndAdd(c.body);
    }

    method SwitchNode(st: Stmt)
      requires st.Switch?
      modifies this
      ensures State() == CompileSwitch(st, old(State()))
      decreases st, 1
    {
      var n := |st.cases|;
      var haveDefault := false;
      for i := 0 to n
        invariant DefaultCount(st.cases) == (if haveDefault then 1 else 0) + DefaultCount(st.cases[i..])
      {
        assert st.cases[i..][1..] == st.cases[i + 1..];
        if st.cases[i].Default? {
          if haveDefault {
            Misplaced();
            return;
          }
          haveDefault := true;
        }
      }
      ghost var s0 := State();
      var v := ToVariable(st.expr);
      var lBreak := NewLabel();
      var ls := FirstCase(lBreak);
      ghost var done := CompileCases(st.cases, v, ls, State());
      assert CompileSwitch(st, s0) == Emit(done, LabelI(lBreak)) && st.cases[0..] == st.cases;
      for i := 0 to n
        invariant CompileCases(st.cases[i..], v, ls, State()) == done
        invariant ls.end == lBreak
      {
        ghost var cases := st.cases[i..];
        assert cases[0] == st.cases[i] && cases[1..] == st.cases[i + 1..];
        ls := CaseStart(st.cases[i], i + 1 >= n, v, ls);
        CaseNode(st.cases[i], i + 1 >= n, ls);
      }
      Add(LabelI(lBreak));
    }

    method AddOptLabel(l: Option<nat>)
      modifies this
      ensures State() == EmitOptLabel(old(State()), l)
    {
      if l.Some? {
        Add(LabelI(l.value));
      }
    }

    /** What precedes the body of a case; the result holds the labels of the next case. */
    method CaseStart(c: Case, isLast: bool, v: Expr, ls: CaseLabels) returns (next: CaseLabels)
      modifies this
      ensures (next, State()) == CaseHead(c, isLast, v, ls, old(State()))
    {
      ghost var s := State();
      var lNext, lFall := ls.end, ls.end;
      if isLast {
        if ls.default_.Some? {
          lNext := ls.default_.value;
        }
      } else {
        lNext := NewLabel();
        lFall := NewLabel();
      }
      AddOptLabel(ls.this_);
      assert State() == HeadStart(isLast, ls, s);
      var here, lDefault := ls.thisFall, ls.default_;
      if c.Default? {
        if !isLast {
          Add(Goto(lNext));
          if here.None? {
            var l := NewLabel();
            here := Some(l);
          }
          lDefault := here;
        }
      } else {
        JumpIf(lNext, Binary(Bool, NEQ, v, c.expr));
      }
      AddOptLabel(here);
      next := CaseLabels(Some(lNext), Some(lFall), lDefault, ls.end);
    }

    /** The body of a case; ls already holds the labels of the next one. */
    method CaseNode(c: Case, isLast: bool, ls: CaseLabels)
      requires ls.thisFall.Some?
      modifies this
      ensures State() == CaseBody(c, isLast, ls, old(State()))
      decreases c, 4
    {
      PushCase(ls.end, ls.thisFall.value);
      CompileAndAdd(c.body);
      PopCase();
      if !isLast {
        Add(Goto(ls.end));
      }
    }

    // -------------------------------------------------------------- functions

    /** compile(Func): prologue, body, epilogue. */
    method Function(params: seq<nat>, body: Stmt)
      requires State() == CState([], [], [], [], 1, vars, 0)
      modifies this
      ensures State() == CompileFunc(params, body, old(vars))
    {
      Add(LabelI(0));
      if params != [] {
        Add(SetParams(params));
      }
      CompileAndAdd(body);
      if |node| == 0 || !IsReturn(node[|node| - 1]) {
        Add(Ret);
      }
    }
  }

  lemma {:induction false} ArgSize(es: seq<Expr>, i: nat)
    requires i < |es|
    ensures Size(es[i]) <= SizeAll(es)
  {
    if i > 0 {
      ArgSize(es[1..], i - 1);
    }
  }
}
