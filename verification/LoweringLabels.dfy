/** Lowered code is label-closed: each label that lowering creates stands at one place, and every
    jump goes to such a label or to a destination of the code around. */
module LoweringLabels {
  import opened Values
  import opened Ir
  import opened Stmts
  import opened Flat
  import opened Lowering

  /** How often label l stands in the code. */
  function Count(p: seq<Instr>, l: nat): nat { multiset(p)[LabelI(l)] }

  predicate TargetsLabel(i: Instr, l: nat) { (i.Goto? || i.Jump?) && i.target == l }

  /** Whether some jump among the first n instructions goes to label l. */
  predicate JumpsIn(p: seq<Instr>, n: nat, l: nat)
    requires n <= |p|
  {
    n > 0 && (TargetsLabel(p[n - 1], l) || JumpsIn(p, n - 1, l))
  }

  predicate JumpsTo(p: seq<Instr>, l: nat) { JumpsIn(p, |p|, l) }

  lemma {:induction false} JumpsPrefix(p: seq<Instr>, q: seq<Instr>, n: nat, l: nat)
    requires n <= |p| && p <= q
    ensures JumpsIn(p, n, l) == JumpsIn(q, n, l)
  {
    if n > 0 {
      JumpsPrefix(p, q, n - 1, l);
    }
  }

  predicate IsTop(stack: seq<nat>, l: nat) { Top(stack) == Some(l) }

  /** l is where `break`, `continue` or `fallthrough` goes. */
  predicate Open(s: CState, l: nat) { IsTop(s.breaks, l) || IsTop(s.continues, l) || IsTop(s.fallthroughs, l) }

  function One(b: bool): nat { if b then 1 else 0 }

  predicate New(s: CState, t: CState, l: nat) { s.labels <= l < t.labels }

  /** How many more times label l stands in t than in s, and whether t has the first jump to l. */
  function Adds(s: CState, t: CState, l: nat): int { Count(t.node, l) - Count(s.node, l) }

  predicate Leads(s: CState, t: CState, l: nat) { JumpsTo(t.node, l) && !JumpsTo(s.node, l) }

  /** From s to t, each label created there is placed once and no other, and jumps go to labels created
      there, to open destinations, or to the labels in extra. */
  ghost predicate Tracks(s: CState, t: CState, extra: set<nat>) {
    && (forall l: nat {:trigger Adds(s, t, l)} :: Adds(s, t, l) == One(New(s, t, l)))
    && JumpsLocal(s, t, extra)
    && s.labels <= t.labels && Keeps(s, t)
  }

  ghost predicate JumpsLocal(s: CState, t: CState, extra: set<nat>) {
    forall l: nat {:trigger Leads(s, t, l)} :: Leads(s, t, l) ==> New(s, t, l) || Open(s, l) || l in extra
  }

  /** What emitting one instruction changes. */
  ghost predicate Emitted(s: CState, i: Instr, t: CState) {
    && (forall l: nat {:trigger Adds(s, t, l)} :: Adds(s, t, l) == One(i == LabelI(l)))
    && (forall l: nat {:trigger Leads(s, t, l)} :: Leads(s, t, l) ==> TargetsLabel(i, l))
    && t.labels == s.labels && (i != Ret ==> Keeps(s, t))
  }

  /** The destinations stay what they were, and no return is added. */
  ghost predicate Keeps(s: CState, t: CState) {
    && s.breaks == t.breaks && s.continues == t.continues && s.fallthroughs == t.fallthroughs
    && (Ret in t.node ==> Ret in s.node)
  }

  /** Creates labels without emitting. */
  ghost predicate Created(s: CState, t: CState, n: nat) {
    t.node == s.node && t.labels == s.labels + n && Keeps(s, t)
  }

  lemma EmitTracks(s: CState, i: Instr)
    ensures Emitted(s, i, Emit(s, i))
  {
    var t := Emit(s, i);
    forall l: nat {:trigger Leads(s, t, l)} ensures Leads(s, t, l) ==> TargetsLabel(i, l) {
      JumpsPrefix(s.node, t.node, |s.node|, l);
    }
  }

  lemma TracksSelf(s: CState, t: CState, extra: set<nat>)
    requires Created(s, t, 0)
    ensures Tracks(s, t, extra)
  {
  }

  lemma TracksTrans(s: CState, mid: CState, t: CState, extra: set<nat>)
    requires Tracks(s, mid, extra) && Tracks(mid, t, extra)
    ensures Tracks(s, t, extra)
  {
    forall l: nat {:trigger Adds(s, t, l)} ensures Adds(s, t, l) == One(New(s, t, l)) {
      assert Adds(s, t, l) == Adds(s, mid, l) + Adds(mid, t, l);
    }
    forall l: nat {:trigger Leads(s, t, l)} | Leads(s, t, l) ensures New(s, t, l) || Open(s, l) || l in extra {
      assert Leads(s, mid, l) || Leads(mid, t, l);
    }
  }

  lemma TracksMore(s: CState, t: CState, extra: set<nat>, more: set<nat>)
    requires Tracks(s, t, extra) && extra <= more
    ensures Tracks(s, t, more)
  {
  }

  /** An instruction that is no label, behind code that tracks. */
  lemma ThenEmit(s: CState, mid: CState, i: Instr, extra: set<nat>)
    requires Tracks(s, mid, extra) && !i.LabelI? && i != Ret
    requires i.Goto? || i.Jump? ==> i.target in extra || Open(s, i.target)
    ensures Tracks(s, Emit(mid, i), extra)
  {
    var t := Emit(mid, i);
    EmitTracks(mid, i);
    forall l: nat {:trigger Adds(s, t, l)} ensures Adds(s, t, l) == One(New(s, t, l)) {
      assert Adds(s, t, l) == Adds(s, mid, l) + Adds(mid, t, l);
    }
    forall l: nat {:trigger Leads(s, t, l)} | Leads(s, t, l) ensures New(s, t, l) || Open(s, l) || l in extra {
      assert Leads(s, mid, l) || Leads(mid, t, l);
    }
  }

  /** A label that was created at s and jumped to is placed at the end. */
  lemma ThenPlace(s: CState, s0: CState, t: CState, extra: set<nat>)
    requires Created(s, s0, 1) && Tracks(s0, t, extra + {s.labels})
    ensures Tracks(s, Emit(t, LabelI(s.labels)), extra)
  {
    var u := Emit(t, LabelI(s.labels));
    EmitTracks(t, LabelI(s.labels));
    forall l: nat {:trigger Adds(s, u, l)} ensures Adds(s, u, l) == One(New(s, u, l)) {
      assert Adds(s, u, l) == Adds(s0, t, l) + Adds(t, u, l);
    }
    forall l: nat {:trigger Leads(s, u, l)} | Leads(s, u, l) ensures New(s, u, l) || Open(s, l) || l in extra {
      assert Leads(s0, t, l) || Leads(t, u, l);
    }
  }

  // ---------------------------------------------------------------- expressions

  lemma EmitJumpTracks(s: CState, target: nat, test: Expr)
    ensures Tracks(s, EmitJump(s, target, test), {target})
  {
    TracksSelf(s, s, {target});
    ThenEmit(s, s, Goto(target), {target});
    var (stripped, negate) := StripNots(test);
    var (x, op, y) := Comparands(stripped);
    ThenEmit(s, s, Jump(JumpOp(op, x.kind, negate), target, x, y), {target});
  }

  lemma {:induction false} ExprTracks(e: Expr, s: CState)
    ensures Tracks(s, CompileExpr(e, s).1, {})
    decreases e, 1
  {
    match e
    case Var(_, _) => TracksSelf(s, s, {});
    case Const(_, _) => TracksSelf(s, s, {});
    case Unary(_, _, x) => ExprTracks(x, s);
    case Binary(_, op, x, y) =>
      ExprTracks(x, s);
      var (cx, s1) := CompileExpr(x, s);
      ExprTracks(y, s1);
      var (cy, s2) := CompileExpr(y, s1);
      var same := if cx != x || cy != y then NewBinary(op, cx, cy) else e;
      BooleanTracks(op == LAND, cx, cy, same, s2);
      TracksTrans(s, s1, s2, {});
      TracksTrans(s, s2, SimplifyBoolean(op == LAND, cx, cy, same, s2).1, {});
    case Tuple(_, _, args) => ArgsTracks(args, s);
  }

  lemma {:induction false} ArgsTracks(es: seq<Expr>, s: CState)
    ensures Tracks(s, CompileArgs(es, s).1, {})
    decreases es, 0
  {
    if es == [] {
      TracksSelf(s, s, {});
    } else {
      ExprTracks(es[0], s);
      var c := CompileExpr(es[0], s);
      var leaf := ToVarConst(c.0, c.1);
      LeafTracks(c.0, c.1);
      TracksTrans(s, c.1, leaf.1, {});
      ArgsTracks(es[1..], leaf.1);
      TracksTrans(s, leaf.1, CompileArgs(es[1..], leaf.1).1, {});
    }
  }

  lemma LeafTracks(c: Expr, s: CState)
    ensures Tracks(s, ToVarConst(c, s).1, {})
  {
    var s0 := s.(vars := s.vars + 1);
    TracksSelf(s, s, {});
    TracksSelf(s, s0, {});
    ThenEmit(s, s0, Let(ASSIGN, c.kind, s.vars, c), {});
  }

  lemma BooleanTracks(land: bool, x: Expr, y: Expr, same: Expr, s: CState)
    ensures Tracks(s, SimplifyBoolean(land, x, y, same, s).1, {})
  {
    TracksSelf(s, s, {});
    ThenEmit(s, s, Pure(x), {});
    StoreTracks(land, x, y, s);
  }

  lemma StoreTracks(land: bool, x: Expr, y: Expr, s: CState)
    ensures Tracks(s, StoreBoolean(land, x, y, s).1, {})
  {
    var s0 := s.(vars := s.vars + 1, labels := s.labels + 1);
    var s2 := StoreLeft(land, x, s);
    var s3 := Emit(s2, Let(ASSIGN, Bool, s.vars, y));
    LeftTracks(land, x, s);
    ThenEmit(s0, s2, Let(ASSIGN, Bool, s.vars, y), {s.labels});
    assert {} + {s.labels} == {s.labels};
    ThenPlace(s, s0, s3, {});
  }

  lemma LeftTracks(land: bool, x: Expr, s: CState)
    ensures Tracks(s.(vars := s.vars + 1, labels := s.labels + 1), StoreLeft(land, x, s), {s.labels})
  {
    var s0 := s.(vars := s.vars + 1, labels := s.labels + 1);
    var first := if Compares(x) then Const(Bool, if land then 0 else 1) else x;
    var decider := if Compares(x) then x else Var(Bool, s.vars);
    var test := if land then NewUnary(NOT1, decider) else decider;
    assert StoreLeft(land, x, s) == EmitJump(Emit(s0, Let(ASSIGN, Bool, s.vars, first)), s.labels, test);
    LetJumpTracks(s0, Let(ASSIGN, Bool, s.vars, first), s.labels, test);
  }

  lemma LetJumpTracks(s: CState, i: Instr, target: nat, test: Expr)
    requires i.Let?
    ensures Tracks(s, EmitJump(Emit(s, i), target, test), {target})
  {
    TracksSelf(s, s, {target});
    ThenEmit(s, s, i, {target});
    EmitJumpTracks(Emit(s, i), target, test);
    TracksTrans(s, Emit(s, i), EmitJump(Emit(s, i), target, test), {target});
  }

  lemma JumpIfTracks(target: nat, test: Expr, s: CState)
    ensures Tracks(s, CompileJumpIf(target, test, s), {target})
  {
    var c := CompileExpr(test, s);
    ExprTracks(test, s);
    TracksMore(s, c.1, {}, {target});
    EmitJumpTracks(c.1, target, c.0);
    TracksTrans(s, c.1, EmitJump(c.1, target, c.0), {target});
  }

  // ---------------------------------------------------------------- statements

  lemma {:induction false} StmtTracks(st: Stmt, s: CState)
    ensures Tracks(s, CompileStmt(st, s), {})
    decreases st, 2
  {
    TracksSelf(s, s, {});
    match st
    case ExprStmt(e) => ExprTracks(e, s);
    case Assign(op, k, id, src) => AssignTracks(op, k, id, src, s);
    case Inc(k, id) => ThenEmit(s, s, IncI(k, id), {});
    case Dec(k, id) => ThenEmit(s, s, DecI(k, id), {});
    case If(_, _, _) => IfTracks(st, s);
    case For(_, _, _, _) => ForTracks(st, s);
    case Cond(clauses) => CondTracks(clauses, s);
    case Switch(_, _) => SwitchTracks(st, s);
    case Block(stmts) => BlockTracks(stmts, s);
    case Break => GotoTopTracks(s.breaks, s);
    case Continue => GotoTopTracks(s.continues, s);
    case Fallthrough => GotoTopTracks(s.fallthroughs, s);
  }

  lemma GotoTopTracks(stack: seq<nat>, s: CState)
    requires stack == s.breaks || stack == s.continues || stack == s.fallthroughs
    ensures Tracks(s, EmitGotoTop(stack, s), {})
  {
    TracksSelf(s, s, {});
    TracksSelf(s, Error(s), {});
    if stack != [] {
      ThenEmit(s, s, Goto(stack[|stack| - 1]), {});
    }
  }

  lemma AssignTracks(op: AssignOp, k: Kind, id: nat, src: Expr, s: CState)
    ensures Tracks(s, CompileAssign(op, k, id, src, s), {})
  {
    ExprTracks(src, s);
    var c := CompileExpr(src, s);
    ThenEmit(s, c.1, Let(op, k, id, c.0), {});
  }

  lemma {:induction false} AddTracks(st: Stmt, s: CState)
    ensures Tracks(s, CompileAdd(st, s), {})
    decreases st, 3
  {
    if st.ExprStmt? {
      ExprTracks(st.e, s);
      var c := CompileExpr(st.e, s);
      ThenEmit(s, c.1, Pure(c.0), {});
    } else {
      StmtTracks(st, s);
    }
  }

  lemma {:induction false} BlockTracks(stmts: seq<Stmt>, s: CState)
    ensures Tracks(s, CompileBlock(stmts, s), {})
    decreases stmts, 0
  {
    if stmts == [] {
      TracksSelf(s, s, {});
    } else {
      var s1 := CompileStmt(stmts[0], s);
      StmtTracks(stmts[0], s);
      BlockTracks(stmts[1..], s1);
      TracksTrans(s, s1, CompileBlock(stmts[1..], s1), {});
    }
  }

  lemma {:induction false} IfTracks(st: Stmt, s: CState)
    requires st.If?
    ensures Tracks(s, CompileIf(st, s), {})
    decreases st, 1
  {
    ExprTracks(st.test, s);
    var c := CompileExpr(st.test, s);
    if c.0.Const? {
      AddTracks(if Truth(ConstValue(c.0)) then st.then_ else st.else_, c.1);
    } else {
      BranchesTrack(st, c.0, c.1);
    }
    TracksTrans(s, c.1, CompileIf(st, s), {});
  }

  /** A jump and the statement behind it. */
  lemma {:induction false} GuardedTracks(st: Stmt, l: nat, test: Expr, s: CState)
    ensures Tracks(s, CompileAdd(st, EmitJump(s, l, test)), {l})
    decreases st, 4
  {
    var s1 := EmitJump(s, l, test);
    EmitJumpTracks(s, l, test);
    AddTracks(st, s1);
    TracksMore(s1, CompileAdd(st, s1), {}, {l});
    TracksTrans(s, s1, CompileAdd(st, s1), {l});
  }

  lemma {:induction false} BranchesTrack(st: Stmt, x: Expr, s: CState)
    requires st.If?
    ensures Tracks(s, CompileBranches(st, x, s), {})
    decreases st, 0, 1
  {
    if IsConstStmt(st.else_) {
      var s0 := s.(labels := s.labels + 1);
      var s2 := CompileAdd(st.then_, EmitJump(s0, s.labels, NewUnary(NOT1, x)));
      GuardedTracks(st.then_, s.labels, NewUnary(NOT1, x), s0);
      assert {} + {s.labels} == {s.labels};
      ThenPlace(s, s0, s2, {});
    } else {
      ElseTracks(st, x, s);
    }
  }

  lemma {:induction false} ElseTracks(st: Stmt, x: Expr, s: CState)
    requires st.If? && !IsConstStmt(st.else_)
    ensures Tracks(s, CompileBranches(st, x, s), {})
    decreases st, 0, 0
  {
    var s0 := s.(labels := s.labels + 2);
    var s2 := CompileAdd(st.then_, EmitJump(s0, s.labels, NewUnary(NOT1, x)));
    var s4 := Emit(Emit(s2, Goto(s.labels + 1)), LabelI(s.labels));
    var s5 := CompileAdd(st.else_, s4);
    GuardedTracks(st.then_, s.labels, NewUnary(NOT1, x), s0);
    AddTracks(st.else_, s4);
    ForkTracks(s, s0, s2, s5);
    assert CompileBranches(st, x, s) == Emit(s5, LabelI(s.labels + 1));
  }

  /** Two labels are created, the first is placed between the parts and the second at the end. */
  lemma ForkTracks(s: CState, s0: CState, s2: CState, s5: CState)
    requires Created(s, s0, 2) && Tracks(s0, s2, {s.labels})
    requires Tracks(Emit(Emit(s2, Goto(s.labels + 1)), LabelI(s.labels)), s5, {})
    ensures Tracks(s, Emit(s5, LabelI(s.labels + 1)), {})
  {
    var s3 := Emit(s2, Goto(s.labels + 1));
    var s4 := Emit(s3, LabelI(s.labels));
    var t := Emit(s5, LabelI(s.labels + 1));
    EmitTracks(s2, Goto(s.labels + 1));
    EmitTracks(s3, LabelI(s.labels));
    EmitTracks(s5, LabelI(s.labels + 1));
    forall l: nat {:trigger Adds(s, t, l)} ensures Adds(s, t, l) == One(New(s, t, l)) {
      assert Adds(s, t, l) == Adds(s0, s2, l) + Adds(s2, s3, l) + Adds(s3, s4, l) + Adds(s4, s5, l) + Adds(s5, t, l);
    }
    forall l: nat {:trigger Leads(s, t, l)} | Leads(s, t, l) ensures New(s, t, l) || Open(s, l) {
      assert Leads(s0, s2, l) || Leads(s2, s3, l) || Leads(s3, s4, l) || Leads(s4, s5, l) || Leads(s5, t, l);
    }
  }

  lemma {:induction false} ForTracks(st: Stmt, s: CState)
    requires st.For?
    ensures Tracks(s, CompileFor(st, s), {})
    decreases st, 1
  {
    var s1 := CompileAdd(st.init, s);
    AddTracks(st.init, s);
    if !st.test.Const? {
      LoopTracks(st, s1);
      TracksTrans(s, s1, CompileLoop(st, s1), {});
    }
  }

  lemma {:induction false} LoopTracks(st: Stmt, s: CState)
    requires st.For?
    ensures Tracks(s, CompileLoop(st, s), {})
    decreases st, 0, 1
  {
    LoopBodyTracks(st, s);
    assert LoopTest(st, s) == CompileJumpIf(s.labels, st.test, Emit(LoopBody(st, s), LabelI(s.labels + 1)));
    LoopTestTracks(st.test, s, LoopBody(st, s), LoopTest(st, s));
    assert CompileLoop(st, s) == Emit(LoopTest(st, s), LabelI(s.labels + 2));
  }

  /** The test between the labels of `continue` and `break`. */
  lemma LoopTestTracks(test: Expr, s: CState, s4: CState, s6: CState)
    requires BodyPlaced(s, s4) && s6 == CompileJumpIf(s.labels, test, Emit(s4, LabelI(s.labels + 1)))
    ensures Tracks(s, Emit(s6, LabelI(s.labels + 2)), {})
  {
    JumpIfTracks(s.labels, test, Emit(s4, LabelI(s.labels + 1)));
    LoopGlue(s, s4, s6);
  }

  lemma {:induction false} LoopBodyTracks(st: Stmt, s: CState)
    requires st.For?
    ensures BodyPlaced(s, LoopBody(st, s))
    decreases st, 0, 0
  {
    var s2 := LoopEntry(s);
    var s3 := CompileAdd(st.body, s2);
    AddTracks(st.body, s2);
    AddTracks(st.post, s3);
    TracksTrans(s2, s3, CompileAdd(st.post, s3), {});
    LoopBodyGlue(s, s2, CompileAdd(st.post, s3), LoopBody(st, s));
  }

  /** What the jump to the test, the body and `post` place and jump to. */
  ghost predicate BodyPlaced(s: CState, t: CState) {
    && (forall l: nat {:trigger Adds(s, t, l)} ::
          Adds(s, t, l) == One(l == s.labels || s.labels + 3 <= l < t.labels))
    && JumpsLocal(s, t, {}) && s.labels + 3 <= t.labels && Keeps(s, t)
  }

  lemma LoopBodyGlue(s: CState, s2: CState, s3: CState, t: CState)
    requires s2 == LoopEntry(s) && Tracks(s2, s3, {})
    requires t.node == s3.node && t.labels == s3.labels && Keeps(s, t)
    ensures BodyPlaced(s, t)
  {
    var s1 := LoopGoto(s);
    EmitTracks(s.(labels := s.labels + 3), Goto(s.labels + 1));
    EmitTracks(s1, LabelI(s.labels));
    var s0 := s.(labels := s.labels + 3);
    var s1' := Emit(s1, LabelI(s.labels));
    forall l: nat {:trigger Adds(s, t, l)}
      ensures Adds(s, t, l) == One(l == s.labels || s.labels + 3 <= l < t.labels)
    {
      assert Adds(s, t, l) == Adds(s0, s1, l) + Adds(s1, s1', l) + Adds(s2, s3, l);
    }
    forall l: nat {:trigger Leads(s, t, l)} | Leads(s, t, l) ensures New(s, t, l) || Open(s, l) {
      assert Leads(s0, s1, l) || Leads(s1, s1', l) || Leads(s2, s3, l);
    }
  }

  lemma LoopGlue(s: CState, s4: CState, s6: CState)
    requires BodyPlaced(s, s4) && Tracks(Emit(s4, LabelI(s.labels + 1)), s6, {s.labels})
    ensures Tracks(s, Emit(s6, LabelI(s.labels + 2)), {})
  {
    var s5 := Emit(s4, LabelI(s.labels + 1));
    var t := Emit(s6, LabelI(s.labels + 2));
    EmitTracks(s4, LabelI(s.labels + 1));
    EmitTracks(s6, LabelI(s.labels + 2));
    forall l: nat {:trigger Adds(s, t, l)} ensures Adds(s, t, l) == One(New(s, t, l)) {
      assert Adds(s, t, l) == Adds(s, s4, l) + Adds(s4, s5, l) + Adds(s5, s6, l) + Adds(s6, t, l);
    }
    forall l: nat {:trigger Leads(s, t, l)} | Leads(s, t, l) ensures New(s, t, l) || Open(s, l) {
      assert Leads(s, s4, l) || Leads(s4, s5, l) || Leads(s5, s6, l) || Leads(s6, t, l);
    }
  }

  lemma {:induction false} CondTracks(clauses: seq<Clause>, s: CState)
    ensures Tracks(s, CompileCond(clauses, s), {})
    decreases clauses, 1
  {
    if clauses == [] {
      TracksSelf(s, s, {});
    } else {
      var s0 := s.(labels := s.labels + 1);
      ClausesTrack(clauses, s.labels, s0);
      assert {} + {s.labels} == {s.labels};
      ThenPlace(s, s0, CompileClauses(clauses, s.labels, s0), {});
    }
  }

  lemma {:induction false} ClausesTrack(clauses: seq<Clause>, lEnd: nat, s: CState)
    requires clauses != []
    ensures Tracks(s, CompileClauses(clauses, lEnd, s), {lEnd})
    decreases clauses, 0
  {
    if |clauses| == 1 {
      ClauseTracks(clauses[0], lEnd, s);
    } else {
      var s0 := s.(labels := s.labels + 1);
      var s1 := CompileClause(clauses[0], s.labels, s0);
      var s2 := Emit(s1, Goto(lEnd));
      var s3 := Emit(s2, LabelI(s.labels));
      ClauseTracks(clauses[0], s.labels, s0);
      TracksMore(s0, s1, {s.labels}, {lEnd} + {s.labels});
      ThenEmit(s0, s1, Goto(lEnd), {lEnd} + {s.labels});
      ThenPlace(s, s0, s2, {lEnd});
      ClausesTrack(clauses[1..], lEnd, s3);
      TracksTrans(s, s3, CompileClauses(clauses[1..], lEnd, s3), {lEnd});
    }
  }

  lemma {:induction false} ClauseTracks(c: Clause, next: nat, s: CState)
    ensures Tracks(s, CompileClause(c, next, s), {next})
    decreases c, 5
  {
    var s1 := CompileJumpIf(next, NewUnary(NOT1, c.test), s);
    JumpIfTracks(next, NewUnary(NOT1, c.test), s);
    AddTracks(c.body, s1);
    TracksMore(s1, CompileAdd(c.body, s1), {}, {next});
    TracksTrans(s, s1, CompileAdd(c.body, s1), {next});
  }

  lemma {:induction false} SwitchTracks(st: Stmt, s: CState)
    requires st.Switch?
    ensures Tracks(s, CompileSwitch(st, s), {})
    decreases st, 1
  {
    if DefaultCount(st.cases) > 1 {
      TracksSelf(s, Error(s), {});
    } else {
      var v := ToVar(st.expr, s);
      var m := v.1.labels;
      var s1 := v.1.(labels := m + 1);
      ToVarTracks(st.expr, s);
      CasesTrack(st.cases, v.0, FirstCase(m), s1);
      SwitchEnds(st, s, v.0, v.1, s1, CompileCases(st.cases, v.0, FirstCase(m), s1));
    }
  }

  lemma SwitchEnds(st: Stmt, s: CState, x: Expr, s0: CState, s1: CState, t: CState)
    requires st.Switch? && DefaultCount(st.cases) <= 1 && ToVar(st.expr, s) == (x, s0) && Tracks(s, s0, {})
    requires s1 == s0.(labels := s0.labels + 1) && t == CompileCases(st.cases, x, FirstCase(s0.labels), s1)
    requires CasesTracked(st.cases, FirstCase(s0.labels), s1, t)
    ensures Tracks(s, CompileSwitch(st, s), {})
  {
    SwitchGlue(st.cases, s0, s1, t);
    TracksTrans(s, s0, Emit(t, LabelI(s0.labels)), {});
  }

  lemma ToVarTracks(e: Expr, s: CState)
    ensures Tracks(s, ToVar(e, s).1, {})
  {
    var s0 := s.(vars := s.vars + 1);
    TracksSelf(s, s, {});
    TracksSelf(s, s0, {});
    AssignTracks(ASSIGN, e.kind, s.vars, e, s0);
    TracksTrans(s, s0, CompileAssign(ASSIGN, e.kind, s.vars, e, s0), {});
  }

  lemma SwitchGlue(cases: seq<Case>, s: CState, s0: CState, t: CState)
    requires Created(s, s0, 1) && CasesTracked(cases, FirstCase(s.labels), s0, t)
    ensures Tracks(s, Emit(t, LabelI(s.labels)), {})
  {
    assert {} + {s.labels} == {s.labels};
    assert Known(FirstCase(s.labels)) == {s.labels};
    ThenPlace(s, s0, t, {});
  }

  /** The labels that one case hands to the next are placed there. */
  function Pending(ls: CaseLabels, l: nat): nat { One(ls.this_ == Some(l)) + One(ls.thisFall == Some(l)) }

  /** The labels from outside that the code of the cases may jump to. */
  function Known(ls: CaseLabels): set<nat> { {ls.end} + OptSet(ls.default_) + OptSet(ls.thisFall) }

  function OptSet(o: Option<nat>): set<nat> { if o.Some? then {o.value} else {} }

  /** What an optional label changes. */
  ghost predicate OptEmitted(s: CState, o: Option<nat>, t: CState) {
    && (forall l: nat {:trigger Adds(s, t, l)} :: Adds(s, t, l) == One(o == Some(l)))
    && (forall l: nat {:trigger Leads(s, t, l)} :: !Leads(s, t, l))
    && t.labels == s.labels && Keeps(s, t)
  }

  lemma OptLabelTracks(s: CState, o: Option<nat>)
    ensures OptEmitted(s, o, EmitOptLabel(s, o))
  {
    if o.Some? {
      EmitTracks(s, LabelI(o.value));
    }
  }

  /** What the code in front of a body places and hands on. */
  ghost predicate HeadTracked(last: bool, ls: CaseLabels, s: CState, ls1: CaseLabels, t: CState) {
    && HeadPlaces(last, ls, s, ls1, t) && JumpsLocal(s, t, Known(ls))
    && (if last then ls1.thisFall == Some(ls.end)
        else ls1.this_ == Some(s.labels) && ls1.thisFall == Some(s.labels + 1) && s.labels + 2 <= t.labels)
    && (ls1.default_ == ls.default_ || ls1.default_ == ls.thisFall
        || (ls1.default_.Some? && New(s, t, ls1.default_.value)))
    && ls1.end == ls.end && s.labels <= t.labels && Keeps(s, t)
  }

  ghost predicate HeadPlaces(last: bool, ls: CaseLabels, s: CState, ls1: CaseLabels, t: CState) {
    forall l: nat {:trigger Adds(s, t, l)} ::
      Adds(s, t, l) + (if last then 0 else Pending(ls1, l)) == One(New(s, t, l)) + Pending(ls, l)
  }

  lemma HeadTracks(c: Case, last: bool, v: Expr, ls: CaseLabels, s: CState)
    ensures HeadTracked(last, ls, s, CaseHead(c, last, v, ls, s).0, CaseHead(c, last, v, ls, s).1)
  {
    if c.Case? {
      TestTracks(c, last, v, ls, s);
    } else if last {
      var s1 := HeadStart(true, ls, s);
      OptLabelTracks(s, ls.this_);
      OptLabelTracks(s1, ls.thisFall);
      TwoLabels(s, ls, s1, EmitOptLabel(s1, ls.thisFall));
    } else {
      DefaultTracks(c, v, ls, s);
    }
  }

  lemma TwoLabels(s: CState, ls: CaseLabels, s1: CState, t: CState)
    requires OptEmitted(s, ls.this_, s1) && OptEmitted(s1, ls.thisFall, t)
    ensures forall ls1 :: HeadPlaces(true, ls, s, ls1, t)
    ensures JumpsLocal(s, t, Known(ls))
  {
    forall l: nat {:trigger Adds(s, t, l)} ensures Adds(s, t, l) == One(New(s, t, l)) + Pending(ls, l) {
      assert Adds(s, t, l) == Adds(s, s1, l) + Adds(s1, t, l);
    }
    forall l: nat {:trigger Leads(s, t, l)} ensures !Leads(s, t, l) {
      assert Leads(s, t, l) ==> Leads(s, s1, l) || Leads(s1, t, l);
    }
  }

  lemma TestTracks(c: Case, last: bool, v: Expr, ls: CaseLabels, s: CState)
    requires c.Case?
    ensures HeadTracked(last, ls, s, CaseHead(c, last, v, ls, s).0, CaseHead(c, last, v, ls, s).1)
  {
    var head := CaseHead(c, last, v, ls, s);
    var next := if last then (if ls.default_.Some? then ls.default_.value else ls.end) else s.labels;
    var test := Binary(Bool, NEQ, v, c.expr);
    var s0 := if last then s else s.(labels := s.labels + 2);
    var s1 := HeadStart(last, ls, s);
    var s2 := CompileJumpIf(next, test, s1);
    OptLabelTracks(s0, ls.this_);
    JumpIfTracks(next, test, s1);
    OptLabelTracks(s2, ls.thisFall);
    assert head.1 == EmitOptLabel(s2, ls.thisFall);
    TestGlue(last, ls, s, s0, s1, s2, next, head.0, head.1);
  }

  lemma TestGlue(last: bool, ls: CaseLabels, s: CState, s0: CState, s1: CState, s2: CState, next: nat, ls1: CaseLabels,
                 t: CState)
    requires Created(s, s0, if last then 0 else 2) && OptEmitted(s0, ls.this_, s1)
    requires Tracks(s1, s2, {next}) && OptEmitted(s2, ls.thisFall, t)
    requires next in Known(ls) || (!last && next == s.labels)
    requires !last ==> ls1.this_ == Some(s.labels) && ls1.thisFall == Some(s.labels + 1)
    ensures HeadPlaces(last, ls, s, ls1, t) && JumpsLocal(s, t, Known(ls)) && s0.labels <= t.labels && Keeps(s, t)
  {
    forall l: nat {:trigger Adds(s, t, l)}
      ensures Adds(s, t, l) + (if last then 0 else Pending(ls1, l)) == One(New(s, t, l)) + Pending(ls, l)
    {
      assert Adds(s, t, l) == Adds(s0, s1, l) + Adds(s1, s2, l) + Adds(s2, t, l);
    }
    forall l: nat {:trigger Leads(s, t, l)} | Leads(s, t, l) ensures New(s, t, l) || Open(s, l) || l in Known(ls) {
      assert Leads(s0, s1, l) || Leads(s1, s2, l) || Leads(s2, t, l);
    }
  }

  lemma DefaultTracks(c: Case, v: Expr, ls: CaseLabels, s: CState)
    requires c.Default?
    ensures HeadTracked(false, ls, s, CaseHead(c, false, v, ls, s).0, CaseHead(c, false, v, ls, s).1)
  {
    var head := CaseHead(c, false, v, ls, s);
    var s0 := s.(labels := s.labels + 2);
    var s1 := HeadStart(false, ls, s);
    var s2 := Emit(s1, Goto(s.labels));
    var s3 := if ls.thisFall.Some? then s2 else s2.(labels := s2.labels + 1);
    var here := if ls.thisFall.Some? then ls.thisFall.value else s2.labels;
    OptLabelTracks(s0, ls.this_);
    EmitTracks(s1, Goto(s.labels));
    EmitTracks(s3, LabelI(here));
    assert head.1 == Emit(s3, LabelI(here));
    DefaultGlue(ls, s, s0, s1, s2, s3, here, head.0, head.1);
  }

  lemma DefaultGlue(ls: CaseLabels, s: CState, s0: CState, s1: CState, s2: CState, s3: CState, here: nat,
                    ls1: CaseLabels, t: CState)
    requires Created(s, s0, 2) && OptEmitted(s0, ls.this_, s1) && Emitted(s1, Goto(s.labels), s2)
    requires Created(s2, s3, if ls.thisFall.Some? then 0 else 1) && Emitted(s3, LabelI(here), t)
    requires here == if ls.thisFall.Some? then ls.thisFall.value else s2.labels
    requires ls1.this_ == Some(s.labels) && ls1.thisFall == Some(s.labels + 1)
    ensures HeadPlaces(false, ls, s, ls1, t) && JumpsLocal(s, t, Known(ls))
  {
    forall l: nat {:trigger Adds(s, t, l)}
      ensures Adds(s, t, l) + Pending(ls1, l) == One(New(s, t, l)) + Pending(ls, l)
    {
      assert Adds(s, t, l) == Adds(s0, s1, l) + Adds(s1, s2, l) + Adds(s3, t, l);
    }
    forall l: nat {:trigger Leads(s, t, l)} | Leads(s, t, l) ensures New(s, t, l) || Open(s, l) || l in Known(ls) {
      assert Leads(s0, s1, l) || Leads(s1, s2, l) || Leads(s3, t, l);
    }
  }

  lemma {:induction false} BodyTracks(c: Case, last: bool, ls: CaseLabels, s: CState)
    requires ls.thisFall.Some?
    ensures Tracks(s, CaseBody(c, last, ls, s), {ls.end, ls.thisFall.value})
    decreases c, 4
  {
    var s0 := EnterCase(s, ls.end, ls.thisFall.value);
    var s1 := CompileAdd(c.body, s0);
    AddTracks(c.body, s0);
    BodyGlue(ls, s, s0, s1, ExitCase(s1));
    ThenEmit(s, ExitCase(s1), Goto(ls.end), {ls.end, ls.thisFall.value});
  }

  lemma BodyGlue(ls: CaseLabels, s: CState, s0: CState, s1: CState, t: CState)
    requires ls.thisFall.Some? && s0 == EnterCase(s, ls.end, ls.thisFall.value) && Tracks(s0, s1, {})
    requires t.node == s1.node && t.labels == s1.labels && Keeps(s, t)
    ensures Tracks(s, t, {ls.end, ls.thisFall.value})
  {
    forall l: nat {:trigger Adds(s, t, l)} ensures Adds(s, t, l) == One(New(s, t, l)) {
      assert Adds(s, t, l) == Adds(s0, s1, l);
    }
    forall l: nat {:trigger Leads(s, t, l)} | Leads(s, t, l)
      ensures New(s, t, l) || Open(s, l) || l in {ls.end, ls.thisFall.value}
    {
      assert Leads(s0, s1, l);
    }
  }

  /** The cases place what they create and what is pending. */
  ghost predicate CasesTracked(cases: seq<Case>, ls: CaseLabels, s: CState, t: CState) {
    && (forall l: nat {:trigger Adds(s, t, l)} ::
          Adds(s, t, l) == One(New(s, t, l)) + (if cases == [] then 0 else Pending(ls, l)))
    && JumpsLocal(s, t, Known(ls)) && s.labels <= t.labels && Keeps(s, t)
  }

  lemma {:induction false} CasesTrack(cases: seq<Case>, v: Expr, ls: CaseLabels, s: CState)
    ensures CasesTracked(cases, ls, s, CompileCases(cases, v, ls, s))
    decreases cases, 0
  {
    if cases != [] {
      var last := |cases| == 1;
      var head := CaseHead(cases[0], last, v, ls, s);
      var t := CaseBody(cases[0], last, head.0, head.1);
      HeadTracks(cases[0], last, v, ls, s);
      BodyTracks(cases[0], last, head.0, head.1);
      CasesTrack(cases[1..], v, head.0, t);
      CasesGlue(cases, ls, s, head.0, head.1, t, CompileCases(cases[1..], v, head.0, t));
    }
  }

  lemma CasesGlue(cases: seq<Case>, ls: CaseLabels, s: CState, ls1: CaseLabels, s1: CState, s2: CState, t: CState)
    requires cases != [] && HeadTracked(|cases| == 1, ls, s, ls1, s1)
    requires ls1.thisFall.Some? && Tracks(s1, s2, {ls1.end, ls1.thisFall.value})
    requires CasesTracked(cases[1..], ls1, s2, t)
    ensures CasesTracked(cases, ls, s, t)
  {
    forall l: nat {:trigger Adds(s, t, l)} ensures Adds(s, t, l) == One(New(s, t, l)) + Pending(ls, l) {
      assert Adds(s, t, l) == Adds(s, s1, l) + Adds(s1, s2, l) + Adds(s2, t, l);
    }
    forall l: nat {:trigger Leads(s, t, l)} | Leads(s, t, l) ensures New(s, t, l) || Open(s, l) || l in Known(ls) {
      assert Leads(s, s1, l) || Leads(s1, s2, l) || Leads(s2, t, l);
    }
  }

  // ---------------------------------------------------------------- whole functions

  lemma {:induction false} CountUnique(p: seq<Instr>)
    requires forall l: nat :: Count(p, l) <= 1
    ensures UniqueLabels(p)
  {
    if p != [] {
      var q := p[..|p| - 1];
      assert p == q + [p[|p| - 1]];
      forall l: nat ensures Count(q, l) <= 1 {
        assert Count(p, l) <= 1;
      }
      CountUnique(q);
      if p[|p| - 1].LabelI? {
        assert Count(p, p[|p| - 1].index) <= 1;
      }
    }
  }

  /** In the code of a whole function, each label that was created stands at exactly one place, no
      other label stands anywhere, every jump goes to a label that stands, and the only return is
      the last instruction. */
  lemma FuncLabels(params: seq<nat>, body: Stmt, vars: nat)
    ensures var t := CompileFunc(params, body, vars);
      && (forall l: nat :: Count(t.node, l) == One(l < t.labels))
      && (forall l: nat :: JumpsTo(t.node, l) ==> l < t.labels)
      && UniqueLabels(t.node)
      && t.breaks == [] && t.continues == [] && t.fallthroughs == []
      && t.node == FuncBody(params, body, vars).node + [Ret] && Ret !in FuncBody(params, body, vars).node
  {
    var s := CState([], [], [], [], 1, vars, 0);
    var s2 := FuncBody(params, body, vars);
    FuncTracks(params, body, vars);
    FuncGlue(s, Emit(s, LabelI(0)), s2, Emit(s2, Ret));
    assert CompileFunc(params, body, vars) == Emit(s2, Ret);
    CountUnique(Emit(s2, Ret).node);
  }

  lemma FuncTracks(params: seq<nat>, body: Stmt, vars: nat)
    ensures var s := CState([], [], [], [], 1, vars, 0);
      Emitted(s, LabelI(0), Emit(s, LabelI(0))) && Tracks(Emit(s, LabelI(0)), FuncBody(params, body, vars), {})
  {
    var s := CState([], [], [], [], 1, vars, 0);
    var s0 := Emit(s, LabelI(0));
    var s1 := FuncStart(params, vars);
    EmitTracks(s, LabelI(0));
    TracksSelf(s0, s0, {});
    ThenEmit(s0, s0, SetParams(params), {});
    AddTracks(body, s1);
    TracksTrans(s0, s1, CompileAdd(body, s1), {});
  }

  lemma FuncGlue(s: CState, s0: CState, s2: CState, t: CState)
    requires s.node == [] && s.labels == 1 && s.breaks == [] && s.continues == [] && s.fallthroughs == []
    requires Emitted(s, LabelI(0), s0) && Tracks(s0, s2, {}) && t == Emit(s2, Ret)
    ensures forall l: nat :: Count(t.node, l) == One(l < t.labels)
    ensures forall l: nat :: JumpsTo(t.node, l) ==> l < t.labels
    ensures Ret !in s2.node && t.breaks == [] && t.continues == [] && t.fallthroughs == []
  {
    EmitTracks(s2, Ret);
    forall l: nat ensures Count(t.node, l) == One(l < t.labels) {
      assert Count(t.node, l) == Adds(s, s0, l) + Adds(s0, s2, l) + Adds(s2, t, l);
    }
    forall l: nat | JumpsTo(t.node, l) ensures l < t.labels {
      assert Leads(s, s0, l) || Leads(s0, s2, l) || Leads(s2, t, l);
    }
  }
}
