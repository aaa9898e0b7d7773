/** What lowering makes of `continue`: the code of a loop is that of the loop with `post` moved to the end of
    its body, where `continue` jumps over it. */
module LoweringContinue {
  import opened Values
  import opened Ir
  import opened Stmts
  import opened Flat
  import opened Lowering
  import opened LoweringDomain
  import opened LoweringExprs
  import opened LoweringStmts

  /** A statement, in the form in which a block gives it to compile_add(). */
  function Wrapped(st: Stmt): Stmt { If(Const(Bool, 1), st, NO_STMT) }

  function Moved(st: Stmt): Stmt
    requires st.For?
  {
    For(st.init, st.test, NO_STMT, Block([Wrapped(st.body), Wrapped(st.post)]))
  }

  lemma WrappedCode(st: Stmt, s: CState)
    ensures CompileStmt(Wrapped(st), s) == CompileAdd(st, s)
  {
    var w := Wrapped(st);
    assert CompileExpr(w.test, s) == (w.test, s);
    assert CompileStmt(w, s) == CompileIf(w, s);
  }

  lemma WrappedRun(st: Stmt, env: Env, fuel: nat)
    ensures Exec(Wrapped(st), env, fuel) == Exec(st, env, fuel)
  {
    var w := Wrapped(st);
    assert Exec(w, env, fuel) == ExecIf(w, env, fuel);
  }

  lemma PairCode(a: Stmt, b: Stmt, s: CState)
    ensures CompileAdd(Block([Wrapped(a), Wrapped(b)]), s) == CompileAdd(b, CompileAdd(a, s))
  {
    var (x, y) := (Wrapped(a), Wrapped(b));
    WrappedCode(a, s);
    WrappedCode(b, CompileAdd(a, s));
    assert [x, y][1..] == [y] && [y][1..] == [];
    assert CompileBlock([y], CompileAdd(a, s)) == CompileAdd(b, CompileAdd(a, s));
    assert CompileBlock([x, y], s) == CompileAdd(b, CompileAdd(a, s));
    assert CompileAdd(Block([x, y]), s) == CompileStmt(Block([x, y]), s) == CompileBlock([x, y], s);
  }

  lemma PairRun(a: Stmt, b: Stmt, env: Env, fuel: nat)
    ensures var r := Exec(a, env, fuel);
      Exec(Block([Wrapped(a), Wrapped(b)]), env, fuel) == if r.Finished() then Exec(b, r.env, fuel) else r
  {
    var r := Exec(a, env, fuel);
    WrappedRun(a, env, fuel);
    BlockRun([Wrapped(a), Wrapped(b)], env, fuel);
    if r.Finished() {
      WrappedRun(b, r.env, fuel);
    }
  }

  lemma BlockRun(ss: seq<Stmt>, env: Env, fuel: nat)
    requires |ss| == 2
    ensures var r := Exec(ss[0], env, fuel);
      Exec(Block(ss), env, fuel) == if r.Finished() then Exec(ss[1], r.env, fuel) else r
  {
    var r := Exec(ss[0], env, fuel);
    if r.Finished() {
      LastRun(ss[1..], r.env, fuel);
    }
  }

  lemma LastRun(ss: seq<Stmt>, env: Env, fuel: nat)
    requires |ss| == 1
    ensures ExecBlock(ss, env, fuel) == Exec(ss[0], env, fuel)
  {
    var r := Exec(ss[0], env, fuel);
    if r.Finished() {
      assert ExecBlock(ss[1..], r.env, fuel) == r;
    }
  }

  /** The two loops lower to the same code, from every state. */
  lemma MovedCode(st: Stmt, s: CState)
    requires st.For?
    ensures CompileAdd(Moved(st), s) == CompileAdd(st, s)
  {
    var m := Moved(st);
    var s1 := CompileAdd(st.init, s);
    PairCode(st.body, st.post, LoopEntry(s1));
    assert CompileAdd(NO_STMT, CompileAdd(m.body, LoopEntry(s1))) == CompileAdd(m.body, LoopEntry(s1));
    assert LoopBody(m, s1) == LoopBody(st, s1);
    assert LoopTest(m, s1) == LoopTest(st, s1);
    assert CompileLoop(m, s1) == CompileLoop(st, s1);
    assert CompileAdd(m, s) == CompileStmt(m, s) == CompileFor(m, s);
    assert CompileAdd(st, s) == CompileStmt(st, s) == CompileFor(st, s);
  }

  /** So the code of any loop whose parts are in the domain does what the moved loop does, also with a
      `continue` in front of a `post`. */
  lemma MovedSim(st: Stmt, s: CState, p: seq<Instr>, n: nat, env: Env, fenv: Env, fuel: nat, sc: Scope)
    returns (env': Env)
    requires st.For? && Lowerable(Moved(st), sc, n) && n <= s.vars && Ready(s, p, sc)
    requires Inside(CompileAdd(st, s), p) && Agree(n, env, fenv) && Exec(Moved(st), env, fuel).Done?
    ensures Follows(p, At(s, fenv), Exec(Moved(st), env, fuel), s, CompileAdd(st, s), n, env')
  {
    MovedCode(st, s);
    env' := AddSim(Moved(st), s, p, n, env, fenv, fuel, sc);
  }

  /** Running the statement changes nothing and goes on. */
  ghost predicate NoEffect(st: Stmt, env: Env, fuel: nat) {
    Exec(st, env, fuel) == Done(Normal, env) || Exec(st, env, fuel) == Done(Continues, env)
  }

  /** Behind a `continue` the source runs `post` and then the loop, the code the loop at once. From a given
      store that is the same, whatever the loop around, exactly when `post` has no effect there. */
  lemma ContinueExact(post: Stmt, env: Env, fuel: nat)
    ensures (forall init, test, body :: IsTest(test) ==> SameTurn(For(init, test, post, body), env, fuel))
      <==> NoEffect(post, env, fuel)
  {
    if NoEffect(post, env, fuel) {
      forall init, test, body ensures SameTurn(For(init, test, post, body), env, fuel) {
        assert LoopPost(For(init, test, post, body), env, fuel + 1) == Loop(For(init, test, post, body), env, fuel);
      }
    } else {
      var test := EffectSeen(post, NO_STMT, env, fuel);
    }
  }

  ghost predicate SameTurn(st: Stmt, env: Env, fuel: nat)
    requires st.For?
  {
    LoopPost(st, env, fuel + 1) == Loop(st, env, fuel)
  }

  /** A loop that ends at its test tells whether `post` changes the store or leaves the function. */
  lemma FalseTurn(post: Stmt, body: Stmt, env: Env, fuel: nat)
    ensures var r := Exec(post, env, fuel);
      SameTurn(For(NO_STMT, Const(Bool, 0), post, body), env, fuel) ==>
        r.Done? && r.outcome != FallsThrough && r.env == env
  {
    var st := For(NO_STMT, Const(Bool, 0), post, body);
    assert Loop(st, env, fuel) == Done(Normal, env);
    var r := Exec(post, env, fuel);
    if r.Done? && r.outcome != Breaks {
      assert Loop(st, r.env, fuel) == Done(Normal, r.env);
    }
  }

  /** A loop that fails in its test tells whether `post` breaks out of it. */
  lemma FaultTurn(post: Stmt, body: Stmt, env: Env, fuel: nat)
    ensures SameTurn(For(NO_STMT, FAULT, post, body), env, fuel) ==>
      !(Exec(post, env, fuel).Done? && Exec(post, env, fuel).outcome == Breaks)
  {
    FaultIsTest(env);
    assert Loop(For(NO_STMT, FAULT, post, body), env, fuel) == Fault;
  }

  /** The same for a given body: the turns of all loops around it that end in `continue` are right exactly when `post`
      has no effect in any store in which the body continues. */
  lemma TurnsExact(body: Stmt, post: Stmt)
    ensures (forall init, test, env: Env, fuel: nat :: IsTest(test) && Continued(body, env, fuel) ==>
               SameTurn(For(init, test, post, body), Exec(body, env, fuel).env, fuel))
      <==> Harmless(body, post)
  {
    if Harmless(body, post) {
      forall init, test, env: Env, fuel: nat | Continued(body, env, fuel)
        ensures SameTurn(For(init, test, post, body), Exec(body, env, fuel).env, fuel)
      {
        ContinueExact(post, Exec(body, env, fuel).env, fuel);
      }
    } else {
      var env: Env, fuel: nat :| Continued(body, env, fuel) && !NoEffect(post, Exec(body, env, fuel).env, fuel);
      var test := EffectSeen(post, body, Exec(body, env, fuel).env, fuel);
      assert !SameTurn(For(NO_STMT, test, post, body), Exec(body, env, fuel).env, fuel);
    }
  }

  /** A test on which an effect of `post` shows. */
  lemma EffectSeen(post: Stmt, body: Stmt, env: Env, fuel: nat) returns (test: Expr)
    requires !NoEffect(post, env, fuel)
    ensures IsTest(test) && !SameTurn(For(NO_STMT, test, post, body), env, fuel)
  {
    FaultIsTest(env);
    BoolIsTest(0);
    FalseTurn(post, body, env, fuel);
    FaultTurn(post, body, env, fuel);
    test := if SameTurn(For(NO_STMT, Const(Bool, 0), post, body), env, fuel) then FAULT else Const(Bool, 0);
  }

  ghost predicate Continued(body: Stmt, env: Env, fuel: nat) {
    Exec(body, env, fuel).Done? && Exec(body, env, fuel).outcome == Continues
  }

  ghost predicate Harmless(body: Stmt, post: Stmt) {
    forall env: Env, fuel: nat :: Continued(body, env, fuel) ==> NoEffect(post, Exec(body, env, fuel).env, fuel)
  }

  /** The tests that the IR can hold. */
  predicate IsTest(e: Expr) { Typed(e) && e.kind == Bool }

  /** 1 / 0 == 0 on uint8. */
  const FAULT: Expr := Binary(Bool, EQL, Binary(Uint8, QUO, Const(Uint8, 1), Const(Uint8, 0)), Const(Uint8, 0))

  lemma FaultIsTest(env: Env)
    ensures IsTest(FAULT) && Eval(FAULT, env).Invalid?
  {
    SmallWordIs(0);
    SmallWordIs(1);
  }

  lemma SmallWordIs(n: int)
    requires 0 <= n < 0x100
    ensures Canonical(Uint8, n)
  {
    CanonicalRange(Uint8, n);
  }

  lemma BoolIsTest(n: int)
    requires n == 0 || n == 1
    ensures IsTest(Const(Bool, n))
  {
    CanonicalRange(Bool, n);
  }

  /** It has none behind a body without a `continue` of its own, and when it is empty. */
  lemma HarmlessForms(body: Stmt, post: Stmt)
    requires !HasContinue(body) || post == NO_STMT
    ensures Harmless(body, post)
  {
    forall env: Env, fuel: nat | Continued(body, env, fuel)
      ensures NoEffect(post, Exec(body, env, fuel).env, fuel)
    {
      ExecContinues(body, env, fuel);
    }
  }
}
