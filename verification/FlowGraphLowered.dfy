/** The flow graph of lowered code: it always resolves, and what it overlooks. */
module FlowGraphLowered {
  import opened Values
  import opened Ir
  import opened Stmts
  import opened Flat
  import opened Lowering
  import opened LoweringLabels
  import opened LoweringLimits
  import opened FlowGraphs
  import opened FlowGraphBuilder

  lemma InSomeBlock(p: seq<Instr>, l: nat)
    requires LabelI(l) in p
    ensures InCode(p, Blocks(p)) && LabelBlock(p, Blocks(p), l).Some?
  {
    var i :| 0 <= i < |p| && p[i] == LabelI(l);
    var bs := Blocks(p);
    BlockAt(p, i);
    var b := BlockOf(bs, i);
    InSlice(p, bs[b].start, bs[b].end, i);
  }

  lemma HasItsLabel(p: seq<Instr>, i: nat)
    requires InCode(p, Blocks(p)) && AllResolve(p, Blocks(p)) && i < |p| && HasLabel(p[i])
    ensures LabelI(p[i].target) in p
  {
    var bs := Blocks(p);
    BlockAt(p, i);
    var b := BlockOf(bs, i);
    assert EndsBlock(p[i]) && i == bs[b].end - 1;
    assert Resolves(p, bs, b);
  }

  /** A Goto, or a conditional jump other than ASM_JLE. */
  predicate HasLabel(i: Instr) { i.Goto? || (i.Jump? && i.op != JLE && i.op != BAD_ST3) }

  /** Building the graph succeeds exactly when every Goto and every conditional jump other than ASM_JLE has its label in the
      code. */
  lemma ResolveExact(p: seq<Instr>)
    ensures InCode(p, Blocks(p))
    ensures AllResolve(p, Blocks(p)) <==> forall i :: 0 <= i < |p| && HasLabel(p[i]) ==> LabelI(p[i].target) in p
  {
    var bs := Blocks(p);
    BlocksInCode(p);
    if AllResolve(p, bs) {
      forall i | 0 <= i < |p| && HasLabel(p[i]) ensures LabelI(p[i].target) in p {
        HasItsLabel(p, i);
      }
    } else {
      var b :| 0 <= b < |bs| && !Resolves(p, bs, b);
      var last := p[bs[b].end - 1];
      var l := JumpLabel(last).value;
      assert HasLabel(last) && l == last.target;
      if LabelI(l) in p {
        InSomeBlock(p, l);
      }
    }
  }

  lemma {:induction false} JumpCounts(p: seq<Instr>, n: nat, i: nat, l: nat)
    requires i < n <= |p| && TargetsLabel(p[i], l)
    ensures JumpsIn(p, n, l)
  {
    if i < n - 1 {
      JumpCounts(p, n - 1, i, l);
    }
  }

  /** The graph of the code of a compiled function is built without an error. */
  lemma LoweredResolves(params: seq<nat>, body: Stmt, vars: nat)
    ensures var p := CompileFunc(params, body, vars).node; InCode(p, Blocks(p)) && AllResolve(p, Blocks(p))
  {
    var t := CompileFunc(params, body, vars);
    var p := t.node;
    FuncLabels(params, body, vars);
    forall i | 0 <= i < |p| && HasLabel(p[i]) ensures LabelI(p[i].target) in p {
      var l := p[i].target;
      JumpCounts(p, |p|, i, l);
      assert JumpsTo(p, l);
      assert Count(p, l) == One(l < t.labels);
      assert LabelI(l) in multiset(p);
    }
    ResolveExact(p);
  }

  /** if (v0 > v1) v2 = 1; else v2 = 2; on int8 jumps with ASM_JLE, which is_cond_jump() does not know:
      the step to the else branch leaves its block from the start and enters no successor of it. */
  lemma ElseIsOverlooked()
    ensures var st := If(Binary(Bool, GTR, Var(Int8, 0), Var(Int8, 1)), Set(2, 1), Set(2, 2));
      var env: Env := map[0 := 0, 1 := 1];
      var p := CompileAdd(st, START).node;
      var bs := Blocks(p);
      && InCode(p, bs) && |bs| == 3 && NextList(p, bs, 0) == [2]
      && BlockOf(bs, 0) == 0 && Step(p, Config(0, env)) == Some(Config(3, env)) && BlockOf(bs, 3) == 1
  {
    var test := Binary(Bool, GTR, Var(Int8, 0), Var(Int8, 1));
    var st := If(test, Set(2, 1), Set(2, 2));
    var env: Env := map[0 := 0, 1 := 1];
    var p := [Jump(JLE, 0, Var(Int8, 0), Var(Int8, 1)), SetI(2, 1), Goto(1), LabelI(0), SetI(2, 2), LabelI(1)];
    ElseCode(test);
    ElseStep(p, env);
    ElseBlocks(p);
  }

  lemma ElseCode(test: Expr)
    requires test == Binary(Bool, GTR, Var(Int8, 0), Var(Int8, 1))
    ensures CompileAdd(If(test, Set(2, 1), Set(2, 2)), START).node ==
      [Jump(JLE, 0, Var(Int8, 0), Var(Int8, 1)), SetI(2, 1), Goto(1), LabelI(0), SetI(2, 2), LabelI(1)]
  {
    assert CompileExpr(test, START) == (test, START);
    ElseNodes(test, If(test, Set(2, 1), Set(2, 2)));
  }

  lemma ElseNodes(test: Expr, st: Stmt)
    requires test == Binary(Bool, GTR, Var(Int8, 0), Var(Int8, 1)) && CompileExpr(test, START) == (test, START)
    requires st.If? && st.test == test && st.then_ == Set(2, 1) && st.else_ == Set(2, 2)
    ensures CompileAdd(st, START).node ==
      [Jump(JLE, 0, Var(Int8, 0), Var(Int8, 1)), SetI(2, 1), Goto(1), LabelI(0), SetI(2, 2), LabelI(1)]
  {
    IfElseCode(st, START);
    ElseJump(test, START.(labels := 2));
    BothCode(st, EmitJump(START.(labels := 2), 0, NewUnary(NOT1, test)));
  }

  lemma IfElseCode(st: Stmt, s: CState)
    requires st.If? && CompileExpr(st.test, s) == (st.test, s) && !st.test.Const? && !IsConstStmt(st.else_)
    ensures CompileAdd(st, s)
      == CompileBoth(st, s.labels, EmitJump(s.(labels := s.labels + 2), s.labels, NewUnary(NOT1, st.test)))
  {
    IfBranches(st, s);
    BranchesBoth(st, st.test, s);
  }

  lemma BranchesBoth(st: Stmt, x: Expr, s: CState)
    requires st.If? && !IsConstStmt(st.else_)
    ensures CompileBranches(st, x, s)
      == CompileBoth(st, s.labels, EmitJump(s.(labels := s.labels + 2), s.labels, NewUnary(NOT1, x)))
  {
  }

  lemma ElseJump(test: Expr, s: CState)
    requires test == Binary(Bool, GTR, Var(Int8, 0), Var(Int8, 1))
    ensures EmitJump(s, 0, NewUnary(NOT1, test)).node == s.node + [Jump(JLE, 0, Var(Int8, 0), Var(Int8, 1))]
  {
    assert StripNots(NewUnary(NOT1, test)) == (test, true);
  }

  lemma BothCode(st: Stmt, s: CState)
    requires st.If? && st.then_ == Set(2, 1) && st.else_ == Set(2, 2)
    ensures CompileBoth(st, 0, s).node == s.node + [SetI(2, 1), Goto(1), LabelI(0), SetI(2, 2), LabelI(1)]
  {
  }

  lemma ElseStep(p: seq<Instr>, env: Env)
    requires p == [Jump(JLE, 0, Var(Int8, 0), Var(Int8, 1)), SetI(2, 1), Goto(1), LabelI(0), SetI(2, 2), LabelI(1)]
    requires Read(env, 0) == 0 && Read(env, 1) == 1
    ensures Step(p, Config(0, env)) == Some(Config(3, env))
  {
    SmallWord(0);
    SmallWord(1);
    FindLast(p, 3, 0);
  }

  lemma ElseBlocks(p: seq<Instr>)
    requires p == [Jump(JLE, 0, Var(Int8, 0), Var(Int8, 1)), SetI(2, 1), Goto(1), LabelI(0), SetI(2, 2), LabelI(1)]
    ensures var bs := Blocks(p);
      && bs == [Bounds(0, 3), Bounds(3, 5), Bounds(5, 6)] && InCode(p, bs) && NextList(p, bs, 0) == [2]
      && BlockOf(bs, 0) == 0 && BlockOf(bs, 3) == 1
  {
    assert LabelsEnd(p, 0) == 0 && BodyEnd(p, 2) == 3 && BodyEnd(p, 1) == 3 && BodyEnd(p, 0) == 3;
    assert LabelsEnd(p, 4) == 4 && LabelsEnd(p, 3) == 4 && BodyEnd(p, 5) == 5 && BodyEnd(p, 4) == 5;
    assert LabelsEnd(p, 6) == 6 && LabelsEnd(p, 5) == 6 && BodyEnd(p, 6) == 6;
    assert BlocksFrom(p, 6) == [];
    assert BlocksFrom(p, 5) == [Bounds(5, 6)];
    assert BlocksFrom(p, 3) == [Bounds(3, 5), Bounds(5, 6)];
    var bs := Blocks(p);
    assert bs[1..] == [Bounds(3, 5), Bounds(5, 6)];
    assert p[5..6] == [LabelI(1)];
    assert LabelBlock(p, bs, 1) == Some(2);
  }
}
