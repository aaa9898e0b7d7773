/** Rewriting assignments: try_optimize(OpStmt2), make_assign() and simplify_assign() of
    onejit/optimizer.cpp, and the tables of onejit/opstmt.cpp they use. */
module OptimizerAssign {
  import opened Bits
  import opened Values
  import opened Ir
  import opened Imm
  import opened Stmts
  import opened Monoid
  import opened Nodes
  import opened Optimizing
  import opened OptimizerMeaning

  /** to_assign_op(). */
  function AssignOf2(op: Op2): Option<AssignOp> {
    match op
    case SUB => Some(SUB_ASSIGN)
    case QUO => Some(QUO_ASSIGN)
    case REM => Some(REM_ASSIGN)
    case SHL => Some(SHL_ASSIGN)
    case SHR => Some(SHR_ASSIGN)
    case _ => None
  }

  function AssignOfN(op: OpN): Option<AssignOp> {
    match op
    case ADD => Some(ADD_ASSIGN)
    case MUL => Some(MUL_ASSIGN)
    case AND => Some(AND_ASSIGN)
    case OR => Some(OR_ASSIGN)
    case XOR => Some(XOR_ASSIGN)
    case _ => None
  }

  /** The tables undo each other: op= stands for an operator exactly when the operator stands for op=. */
  lemma AssignTables(op: AssignOp, op2: Op2, opn: OpN)
    ensures AssignOf2(op2) == Some(op) <==> ToOp2(op) == Some(op2)
    ensures AssignOfN(opn) == Some(op) <==> ToOpN(op) == Some(opn)
    ensures op == ASSIGN <==> ToOp2(op) == None && ToOpN(op) == None
  {
  }

  /** (op= dst const). */
  function SimplifyAssign(op: AssignOp, k: Kind, id: nat, c: Value): Option<Stmt> {
    if ToOpN(op).Some? then
      var opn := ToOpN(op).value;
      if SameValue(c, AbsorbingN(k, opn)) then Some(Assign(ASSIGN, k, id, ConstOf(AbsorbingN(k, opn))))
      else if SameValue(c, IdentityN(k, opn)) then Some(NO_STMT)
      else if opn == ADD && SameValue(c, Val(k, Wrap(k, 1))) then Some(Inc(k, id))
      else if opn == ADD && SameValue(c, Val(k, Wrap(k, -1))) then Some(Dec(k, id))
      else None
    else if ToOp2(op).Some? then
      var op2 := ToOp2(op).value;
      if SameValue(c, Identity2(k, op2)) then Some(NO_STMT)
      else if op2 == SUB && SameValue(c, Val(k, Wrap(k, 1))) then Some(Dec(k, id))
      else if op2 == SUB && SameValue(c, Val(k, Wrap(k, -1))) then Some(Inc(k, id))
      else None
    else None
  }

  /** (op= dst dst). */
  function SelfAssign(op: AssignOp, k: Kind, id: nat): Option<Stmt> {
    match op
    case ADD_ASSIGN => Some(Assign(MUL_ASSIGN, k, id, Const(k, 2)))
    case SUB_ASSIGN => Some(Assign(ASSIGN, k, id, Zero(k)))
    case REM_ASSIGN => Some(Assign(ASSIGN, k, id, Zero(k)))
    case XOR_ASSIGN => Some(Assign(ASSIGN, k, id, Zero(k)))
    case QUO_ASSIGN => Some(Assign(ASSIGN, k, id, OneConst(k)))
    case AND_ASSIGN => Some(NO_STMT)
    case OR_ASSIGN => Some(NO_STMT)
    case ASSIGN => Some(NO_STMT)
    case _ => None
  }

  /** (= dst (op dst y)) becomes (op= dst y), which is tried again. */
  function ShortenAssign(division: bool, k: Kind, id: nat, src: Expr): Option<Stmt> {
    var dst := Var(k, id);
    if src.Binary? && AssignOf2(src.op2).Some? && DeepEqual(dst, src.x, division) then
      Some(MakeAssign(division, AssignOf2(src.op2).value, k, id, src.y))
    else if src.Tuple? && AssignOfN(src.opn).Some? && |src.args| == 2 && DeepEqual(dst, src.args[0], division) then
      Some(MakeAssign(division, AssignOfN(src.opn).value, k, id, src.args[1]))
    else None
  }

  function MakeAssign(division: bool, op: AssignOp, k: Kind, id: nat, src: Expr): Stmt
    requires op != ASSIGN
  {
    match TryShort(division, op, k, id, src)
    case Some(st) => st
    case None => Assign(op, k, id, src)
  }

  function TryShort(division: bool, op: AssignOp, k: Kind, id: nat, src: Expr): Option<Stmt> {
    if src.Const? then SimplifyAssign(op, k, id, ConstValue(src))
    else if DeepEqual(Var(k, id), src, division) then SelfAssign(op, k, id)
    else None
  }

  function TryAssign(division: bool, op: AssignOp, k: Kind, id: nat, src: Expr): Option<Stmt> {
    if src.Const? || DeepEqual(Var(k, id), src, division) || op != ASSIGN then TryShort(division, op, k, id, src)
    else ShortenAssign(division, k, id, src)
  }

  // ---------------------------------------------------------------- stores

  /** The stores agree, where the kind of a variable decides which bits of it count. */
  ghost predicate SameStore(k: Kind, id: nat, a: Env, b: Env) {
    && (forall j: nat :: j != id ==> Read(a, j) == Read(b, j))
    && Wrap(k, Read(a, id)) == Wrap(k, Read(b, id))
  }

  /** Running r does what running st does. */
  ghost predicate SameEffect(st: Stmt, r: Stmt, k: Kind, id: nat, env: Env, fuel: nat) {
    Exec(st, env, fuel).Done? ==>
      && Exec(r, env, fuel).Done? && Exec(r, env, fuel).outcome == Exec(st, env, fuel).outcome
      && SameStore(k, id, Exec(st, env, fuel).env, Exec(r, env, fuel).env)
  }

  /** What a rewritten assignment leaves in a variable of value v. */
  function Left(r: Stmt, v: Value, env: Env): Value {
    match r
    case Assign(op, _, _, src) => AssignValue(op, v, Eval(src, env))
    case Inc(k, _) => TupleStep(ADD, v, Val(k, 1))
    case Dec(k, _) => EvalBinaryOp(SUB, v, Val(k, 1))
    case _ => v
  }

  predicate Rewritten(r: Stmt, k: Kind, id: nat) {
    match r
    case Assign(_, k1, id1, _) => k1 == k && id1 == id
    case Inc(k1, id1) => k1 == k && id1 == id
    case Dec(k1, id1) => k1 == k && id1 == id
    case _ => r == NO_STMT
  }

  lemma LeftKeeps(st: Stmt, r: Stmt, k: Kind, id: nat, env: Env, fuel: nat)
    requires st.Assign? && Rewritten(st, k, id) && Rewritten(r, k, id)
    requires var v := Eval(Var(k, id), env); Left(st, v, env).Val? ==> Left(r, v, env) == Left(st, v, env)
    ensures SameEffect(st, r, k, id, env, fuel)
  {
    WrapCanonical(k, Read(env, id));
  }

  lemma SimplifyAssignKeeps(op: AssignOp, k: Kind, id: nat, n: int, env: Env, fuel: nat)
    requires Canonical(k, n) && SimplifyAssign(op, k, id, Val(k, n)).Some?
    ensures SameEffect(Assign(op, k, id, Const(k, n)), SimplifyAssign(op, k, id, Val(k, n)).value, k, id, env, fuel)
  {
    var v := Eval(Var(k, id), env);
    WrapCanonical(k, Read(env, id));
    if ToOpN(op).Some? {
      SimplifyTupleKeeps(op, k, id, n, env, fuel);
    } else {
      BinaryConst(k, ToOp2(op).value, v.num, n);
      LeftKeeps(Assign(op, k, id, Const(k, n)), SimplifyAssign(op, k, id, Val(k, n)).value, k, id, env, fuel);
    }
  }

  lemma SimplifyTupleKeeps(op: AssignOp, k: Kind, id: nat, n: int, env: Env, fuel: nat)
    requires Canonical(k, n) && ToOpN(op).Some? && SimplifyAssign(op, k, id, Val(k, n)).Some?
    ensures SameEffect(Assign(op, k, id, Const(k, n)), SimplifyAssign(op, k, id, Val(k, n)).value, k, id, env, fuel)
  {
    var (r, v) := (SimplifyAssign(op, k, id, Val(k, n)).value, Wrap(k, Read(env, id)));
    WrapCanonical(k, Read(env, id));
    TupleForm(op, k, id, n, r);
    TupleLeft(op, k, id, n, r, v, env);
    LeftKeeps(Assign(op, k, id, Const(k, n)), r, k, id, env, fuel);
  }

  lemma TupleLeft(op: AssignOp, k: Kind, id: nat, n: int, r: Stmt, v: int, env: Env)
    requires Canonical(k, n) && Canonical(k, v) && ToOpN(op).Some? && SimplifyAssign(op, k, id, Val(k, n)) == Some(r)
    ensures Left(r, Val(k, v), env) == TupleStep(ToOpN(op).value, Val(k, v), Val(k, n))
  {
    StepConst(k, ToOpN(op).value, v, n);
  }

  lemma TupleForm(op: AssignOp, k: Kind, id: nat, n: int, r: Stmt)
    requires ToOpN(op).Some? && SimplifyAssign(op, k, id, Val(k, n)) == Some(r)
    ensures Rewritten(r, k, id)
  {
  }

  lemma StepConst(k: Kind, op: OpN, v: int, n: int)
    requires op in {ADD, MUL, AND, OR, XOR} && Canonical(k, v) && Canonical(k, n)
    ensures var r := TupleStep(op, Val(k, v), Val(k, n));
      && (SameValue(Val(k, n), AbsorbingN(k, op)) ==> r == AbsorbingN(k, op))
      && (SameValue(Val(k, n), IdentityN(k, op)) ==> r == Val(k, v))
      && (op == ADD && n == Wrap(k, 1) ==> r == TupleStep(ADD, Val(k, v), Val(k, 1)))
      && (op == ADD && n == Wrap(k, -1) ==> r == EvalBinaryOp(SUB, Val(k, v), Val(k, 1)))
  {
    StepIdentity(k, op, Val(k, v));
    if SameValue(Val(k, n), AbsorbingN(k, op)) {
      Absorbs(k, op, Val(k, n), Val(k, v));
    }
    PlusMinusOne(k, v);
  }

  lemma PlusMinusOne(k: Kind, v: int)
    ensures TupleStep(ADD, Val(k, v), Val(k, Wrap(k, 1))) == TupleStep(ADD, Val(k, v), Val(k, 1))
    ensures TupleStep(ADD, Val(k, v), Val(k, Wrap(k, -1))) == EvalBinaryOp(SUB, Val(k, v), Val(k, 1))
  {
    WrapPlus(k, 1, v);
    WrapPlus(k, -1, v);
  }

  lemma WrapPlus(k: Kind, d: int, v: int)
    ensures Wrap(k, v + Wrap(k, d)) == Wrap(k, v + d)
  {
    ReduceSum(Modulus(k), IsSigned(k), d, v);
  }

  lemma BinaryConst(k: Kind, op: Op2, v: int, n: int)
    requires Canonical(k, v) && Canonical(k, n)
    ensures var r := EvalBinaryOp(op, Val(k, v), Val(k, n));
      && (r.Val? && SameValue(Val(k, n), Identity2(k, op)) ==> r == Val(k, v))
      && (op == SUB && n == Wrap(k, 1) ==> r == EvalBinaryOp(SUB, Val(k, v), Val(k, 1)))
      && (op == SUB && n == Wrap(k, -1) ==> r == TupleStep(ADD, Val(k, v), Val(k, 1)))
  {
    if SameValue(Val(k, n), Identity2(k, op)) {
      RightIdentity(k, op, v);
    }
    SubOne(k, v);
  }

  lemma SubOne(k: Kind, v: int)
    ensures EvalBinaryOp(SUB, Val(k, v), Val(k, Wrap(k, 1))) == EvalBinaryOp(SUB, Val(k, v), Val(k, 1))
    ensures EvalBinaryOp(SUB, Val(k, v), Val(k, Wrap(k, -1))) == TupleStep(ADD, Val(k, v), Val(k, 1))
  {
    WrapMinus(k, 1, v);
    WrapMinus(k, -1, v);
  }

  lemma SelfAssignKeeps(op: AssignOp, k: Kind, id: nat, env: Env, fuel: nat)
    requires SelfAssign(op, k, id).Some?
    ensures SameEffect(Assign(op, k, id, Var(k, id)), SelfAssign(op, k, id).value, k, id, env, fuel)
  {
    var r := SelfAssign(op, k, id).value;
    WrapCanonical(k, Read(env, id));
    SelfLeft(op, k, id, r, Wrap(k, Read(env, id)), env);
    LeftKeeps(Assign(op, k, id, Var(k, id)), r, k, id, env, fuel);
  }

  lemma SelfLeft(op: AssignOp, k: Kind, id: nat, r: Stmt, n: int, env: Env)
    requires SelfAssign(op, k, id) == Some(r) && Canonical(k, n) && Eval(Var(k, id), env) == Val(k, n)
    ensures Rewritten(r, k, id)
    ensures var (st, v) := (Assign(op, k, id, Var(k, id)), Val(k, n));
      Left(st, v, env).Val? ==> Left(r, v, env) == Left(st, v, env)
  {
    if op == SUB_ASSIGN || op == QUO_ASSIGN || op == REM_ASSIGN {
      SelfOp(ToOp2(op).value, k, n);
    } else if op != ASSIGN {
      SelfTuple(k, n);
    }
  }

  lemma SelfTuple(k: Kind, v: int)
    ensures TupleStep(ADD, Val(k, v), Val(k, v)) == TupleStep(MUL, Val(k, v), Val(k, 2))
    ensures TupleStep(AND, Val(k, v), Val(k, v)) == TupleStep(OR, Val(k, v), Val(k, v)) == Val(k, v)
    ensures TupleStep(XOR, Val(k, v), Val(k, v)) == Val(k, 0)
  {
    assert v + v == v * 2;
    SelfOperand(v);
  }

  // ---------------------------------------------------------------- all rewrites

  /** A variable with a direct form is deeply equal to itself only. */
  lemma DirectEqual(k: Kind, id: nat, e: Expr, division: bool)
    requires id < 0x20_0000 && VarsBelow(e, MAX_ID) && DeepEqual(Var(k, id), e, division)
    ensures e == Var(k, id)
  {
    LocalExact(k, id);
    SameOperator(Var(k, id), e);
    DirectSame(Var(k, id), e);
  }

  lemma ShortKeeps(division: bool, op: AssignOp, k: Kind, id: nat, src: Expr, env: Env, fuel: nat)
    requires id < 0x20_0000 && VarsBelow(src, MAX_ID) && Typed(src) && src.kind == k
    requires TryShort(division, op, k, id, src).Some?
    ensures SameEffect(Assign(op, k, id, src), TryShort(division, op, k, id, src).value, k, id, env, fuel)
  {
    if src.Const? {
      SimplifyAssignKeeps(op, k, id, src.num, env, fuel);
    } else {
      DirectEqual(k, id, src, division);
      SelfAssignKeeps(op, k, id, env, fuel);
    }
  }

  lemma MakeAssignKeeps(division: bool, op: AssignOp, k: Kind, id: nat, src: Expr, env: Env, fuel: nat)
    requires op != ASSIGN && id < 0x20_0000 && VarsBelow(src, MAX_ID) && Typed(src) && src.kind == k
    ensures SameEffect(Assign(op, k, id, src), MakeAssign(division, op, k, id, src), k, id, env, fuel)
  {
    if TryShort(division, op, k, id, src).Some? {
      ShortKeeps(division, op, k, id, src, env, fuel);
    }
  }

  lemma ShortenBinaryKeeps(division: bool, k: Kind, id: nat, src: Expr, env: Env, fuel: nat)
    requires id < 0x20_0000 && VarsBelow(src, MAX_ID) && Typed(src) && src.kind == k
    requires src.Binary? && AssignOf2(src.op2).Some? && DeepEqual(Var(k, id), src.x, division)
    ensures SameEffect(Assign(ASSIGN, k, id, src), MakeAssign(division, AssignOf2(src.op2).value, k, id, src.y),
                       k, id, env, fuel)
  {
    var v := Eval(Var(k, id), env);
    var op := AssignOf2(src.op2).value;
    AssignTables(op, src.op2, ADD);
    DirectEqual(k, id, src.x, division);
    assert Eval(src, env) == EvalBinaryOp(src.op2, v, Eval(src.y, env));
    MakeAssignKeeps(division, op, k, id, src.y, env, fuel);
    assert Exec(Assign(op, k, id, src.y), env, fuel) == Store(env, id, Eval(src, env));
  }

  /** dst = dst op y stores what dst op= y stores. */
  lemma ShortenKeeps(division: bool, k: Kind, id: nat, src: Expr, env: Env, fuel: nat)
    requires id < 0x20_0000 && VarsBelow(src, MAX_ID) && Typed(src) && src.kind == k
    requires ShortenAssign(division, k, id, src).Some?
    ensures SameEffect(Assign(ASSIGN, k, id, src), ShortenAssign(division, k, id, src).value, k, id, env, fuel)
  {
    var v := Eval(Var(k, id), env);
    WrapCanonical(k, Read(env, id));
    if src.Binary? {
      ShortenBinaryKeeps(division, k, id, src, env, fuel);
    } else {
      var op := AssignOfN(src.opn).value;
      var y := src.args[1];
      AssignTables(op, SUB, src.opn);
      PairOperands(k, src.opn, src, env);
      DirectEqual(k, id, src.args[0], division);
      MakeAssignKeeps(division, op, k, id, y, env, fuel);
      assert Exec(Assign(op, k, id, y), env, fuel) == Store(env, id, TupleStep(src.opn, v, Eval(y, env)));
    }
  }

  lemma PairOperands(k: Kind, op: OpN, e: Expr, env: Env)
    requires e.Tuple? && |e.args| == 2 && e.kind == k && e.opn == op && op in {ADD, MUL, AND, OR, XOR} && Typed(e)
    ensures var (x, y) := (e.args[0], e.args[1]);
      && Typed(x) && Typed(y) && x.kind == k && y.kind == k
      && (VarsBelow(e, MAX_ID) ==> VarsBelow(x, MAX_ID) && VarsBelow(y, MAX_ID))
      && (CanonicalOf(k, Eval(x, env)) ==> Eval(e, env) == TupleStep(op, Eval(x, env), Eval(y, env)))
  {
    var (x, y) := (e.args[0], e.args[1]);
    assert e.args == [x, y] && e.args[1..] == [y] && [y][1..] == [];
    assert AllTyped(e.args, k) && AllTyped([y], k);
    assert VarsBelow(e, MAX_ID) ==> AllBelow(e.args, MAX_ID) && AllBelow([y], MAX_ID);
    var (v, w) := (Eval(x, env), Eval(y, env));
    assert EvalAll([y], env) == [w];
    assert EvalAll(e.args, env) == [v] + [w];
    FoldConcat(op, IdentityN(k, op), [v], [w]);
    if CanonicalOf(k, v) {
      StepIdentity(k, op, v);
      FoldOne(op, IdentityN(k, op), v);
      FoldOne(op, v, w);
    }
  }

  /** Every rewrite of an assignment to a variable that has a direct form leaves the same store, unless
      the assignment divides by zero. */
  lemma AssignKeeps(division: bool, op: AssignOp, k: Kind, id: nat, src: Expr, env: Env, fuel: nat)
    requires id < 0x20_0000 && VarsBelow(src, MAX_ID) && Typed(src) && src.kind == k
    requires TryAssign(division, op, k, id, src).Some?
    ensures SameEffect(Assign(op, k, id, src), TryAssign(division, op, k, id, src).value, k, id, env, fuel)
  {
    if src.Const? || DeepEqual(Var(k, id), src, division) || op != ASSIGN {
      ShortKeeps(division, op, k, id, src, env, fuel);
    } else {
      ShortenKeeps(division, k, id, src, env, fuel);
    }
  }

  function OrElse(r: Option<Stmt>, st: Stmt): Stmt { if r.Some? then r.value else st }

  /** Copying a variable to another is optimized away when neither has a direct form: the rewrite is
      right exactly when they are the same variable or one is direct. */
  lemma CopyExact(division: bool, k: Kind, a: nat, b: nat)
    requires a < MAX_ID && b < MAX_ID && BitSize(k) > 0
    ensures var st := Assign(ASSIGN, k, a, Var(k, b));
      var r := OrElse(TryAssign(division, ASSIGN, k, a, Var(k, b)), st);
      (forall env, fuel :: SameEffect(st, r, k, a, env, fuel)) <==> a == b || a < 0x20_0000 || b < 0x20_0000
  {
    var st := Assign(ASSIGN, k, a, Var(k, b));
    var r := OrElse(TryAssign(division, ASSIGN, k, a, Var(k, b)), st);
    CopyResult(division, k, a, b);
    if a != b && a >= 0x20_0000 && b >= 0x20_0000 {
      CopyLost(k, a, b);
      assert !SameEffect(st, r, k, a, map[a := 1, b := 0], 0);
    } else if a == b {
      forall env: Env, fuel: nat ensures SameEffect(st, r, k, a, env, fuel) {
        SelfAssignKeeps(ASSIGN, k, a, env, fuel);
      }
    }
  }

  /** An assignment between variables stays, or is dropped where their nodes look equal. */
  lemma CopyResult(division: bool, k: Kind, a: nat, b: nat)
    requires a < MAX_ID && b < MAX_ID
    ensures TryAssign(division, ASSIGN, k, a, Var(k, b))
      == if a == b || (a >= 0x20_0000 && b >= 0x20_0000) then Some(NO_STMT) else None
  {
    LocalExact(k, a);
    LocalExact(k, b);
    LeavesEqualExact(Var(k, a), Var(k, b), division);
  }

  /** A store in which the dropped copy is missed. */
  lemma CopyLost(k: Kind, a: nat, b: nat)
    requires a != b && BitSize(k) > 0
    ensures !SameEffect(Assign(ASSIGN, k, a, Var(k, b)), NO_STMT, k, a, map[a := 1, b := 0], 0)
  {
    var env: Env := map[a := 1, b := 0];
    OneOf(k);
    SmallMod(0, Modulus(k));
    assert Exec(Assign(ASSIGN, k, a, Var(k, b)), env, 0) == Done(Normal, env[a := 0]);
    assert Exec(NO_STMT, env, 0) == Done(Normal, env);
  }
}
