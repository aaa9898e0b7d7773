/** When a whole loop does what its code does, for every loop around a body and a `post`. */
module LoweringLoops {
  import opened Values
  import opened Ir
  import opened Stmts
  import opened LoweringContinue

  // ---------------------------------------------------------------- stores that read the same, and more fuel

  /** No expression tells the stores apart. */
  ghost predicate SameReads(a: Env, b: Env) {
    forall k: Kind, id: nat :: Wrap(k, Read(a, id)) == Wrap(k, Read(b, id))
  }

  /** q is what r is, up to what can be read, or r has run out of fuel. */
  ghost predicate Alike(r: Result, q: Result) {
    match r
    case Done(o, env) => q.Done? && q.outcome == o && SameReads(env, q.env)
    case Fault => q.Fault?
    case OutOfFuel => true
  }

  lemma {:induction false} EvalSame(e: Expr, a: Env, b: Env)
    requires SameReads(a, b)
    ensures Eval(e, a) == Eval(e, b)
    decreases e, 1
  {
    match e
    case Unary(_, _, x) => EvalSame(x, a, b);
    case Binary(_, _, x, y) =>
      EvalSame(x, a, b);
      EvalSame(y, a, b);
    case Tuple(_, _, args) => EvalAllSame(args, a, b);
    case _ =>
  }

  lemma {:induction false} EvalAllSame(es: seq<Expr>, a: Env, b: Env)
    requires SameReads(a, b)
    ensures EvalAll(es, a) == EvalAll(es, b)
    decreases es, 0
  {
    if es != [] {
      EvalSame(es[0], a, b);
      EvalAllSame(es[1..], a, b);
    }
  }

  lemma StoreSame(a: Env, b: Env, id: nat, v: Value)
    requires SameReads(a, b)
    ensures Alike(Store(a, id, v), Store(b, id, v))
  {
    if v.Val? {
      var (x, y) := (a[id := v.num], b[id := v.num]);
      forall k: Kind, i: nat ensures Wrap(k, Read(x, i)) == Wrap(k, Read(y, i)) {
        assert Wrap(k, Read(a, i)) == Wrap(k, Read(b, i));
      }
    }
  }

  /** On stores that read the same, and with more fuel, every statement does the same. */
  lemma {:induction false} ExecAlike(st: Stmt, a: Env, b: Env, f: nat, g: nat)
    requires SameReads(a, b) && f <= g
    ensures Alike(Exec(st, a, f), Exec(st, b, g))
    decreases f, st, 1
  {
    match st
    case ExprStmt(e) => EvalSame(e, a, b);
    case Assign(op, k, id, src) =>
      EvalSame(src, a, b);
      EvalSame(Var(k, id), a, b);
      StoreSame(a, b, id, AssignValue(op, Eval(Var(k, id), a), Eval(src, a)));
    case Inc(k, id) =>
      EvalSame(Var(k, id), a, b);
      StoreSame(a, b, id, TupleStep(ADD, Eval(Var(k, id), a), Val(k, 1)));
    case Dec(k, id) =>
      EvalSame(Var(k, id), a, b);
      StoreSame(a, b, id, EvalBinaryOp(SUB, Eval(Var(k, id), a), Val(k, 1)));
    case If(_, _, _) => IfAlike(st, a, b, f, g);
    case For(_, _, _, _) => ForAlike(st, a, b, f, g);
    case Cond(clauses) => CondAlike(clauses, a, b, f, g);
    case Switch(_, _) => SwitchAlike(st, a, b, f, g);
    case Block(stmts) => BlockAlike(stmts, a, b, f, g);
    case _ =>
  }

  lemma {:induction false} IfAlike(st: Stmt, a: Env, b: Env, f: nat, g: nat)
    requires st.If? && SameReads(a, b) && f <= g
    ensures Alike(ExecIf(st, a, f), ExecIf(st, b, g))
    decreases f, st, 0
  {
    EvalSame(st.test, a, b);
    if Eval(st.test, a).Val? {
      ExecAlike(if Truth(Eval(st.test, a)) then st.then_ else st.else_, a, b, f, g);
    }
  }

  lemma {:induction false} ForAlike(st: Stmt, a: Env, b: Env, f: nat, g: nat)
    requires st.For? && SameReads(a, b) && f <= g
    ensures Alike(ExecFor(st, a, f), ExecFor(st, b, g))
    decreases f, st, 0
  {
    ExecAlike(st.init, a, b, f, g);
    var r := Exec(st.init, a, f);
    if r.Finished() {
      LoopAlike(st, r.env, Exec(st.init, b, g).env, f, g);
    }
  }

  lemma {:induction false} LoopAlike(st: Stmt, a: Env, b: Env, f: nat, g: nat)
    requires st.For? && SameReads(a, b) && f <= g
    ensures Alike(Loop(st, a, f), Loop(st, b, g))
    decreases f, st.body, 2
  {
    EvalSame(st.test, a, b);
    if f > 0 {
      ExecAlike(st.body, a, b, f - 1, g - 1);
      var r := Exec(st.body, a, f - 1);
      if GoesOn(r) {
        PostAlike(st, r.env, Exec(st.body, b, g - 1).env, f, g);
      }
    }
  }

  lemma {:induction false} PostAlike(st: Stmt, a: Env, b: Env, f: nat, g: nat)
    requires st.For? && SameReads(a, b) && 0 < f <= g
    ensures Alike(LoopPost(st, a, f), LoopPost(st, b, g))
    decreases f, st.body, 1
  {
    ExecAlike(st.post, a, b, f - 1, g - 1);
    var r := Exec(st.post, a, f - 1);
    if GoesOn(r) {
      LoopAlike(st, r.env, Exec(st.post, b, g - 1).env, f - 1, g - 1);
    }
  }

  lemma {:induction false} CondAlike(clauses: seq<Clause>, a: Env, b: Env, f: nat, g: nat)
    requires SameReads(a, b) && f <= g
    ensures Alike(ExecCond(clauses, a, f), ExecCond(clauses, b, g))
    decreases f, clauses
  {
    if clauses != [] {
      EvalSame(clauses[0].test, a, b);
      ClauseAlike(clauses[0], a, b, f, g);
      CondAlike(clauses[1..], a, b, f, g);
    }
  }

  lemma {:induction false} ClauseAlike(c: Clause, a: Env, b: Env, f: nat, g: nat)
    requires SameReads(a, b) && f <= g
    ensures Alike(ExecBody(c, a, f), ExecBody(c, b, g))
    decreases f, c
  {
    ExecAlike(c.body, a, b, f, g);
  }

  lemma {:induction false} CaseAlike(c: Case, a: Env, b: Env, f: nat, g: nat)
    requires SameReads(a, b) && f <= g
    ensures Alike(ExecCase(c, a, f), ExecCase(c, b, g))
    decreases f, c
  {
    ExecAlike(c.body, a, b, f, g);
  }

  lemma {:induction false} SwitchAlike(st: Stmt, a: Env, b: Env, f: nat, g: nat)
    requires st.Switch? && SameReads(a, b) && f <= g
    ensures Alike(ExecSwitch(st, a, f), ExecSwitch(st, b, g))
    decreases f, st, 0
  {
    EvalSame(st.expr, a, b);
    var v := Eval(st.expr, a);
    FirstSame(st.cases, v, a, b);
    if v.Val? && Select(st.cases, v, a).Some? {
      var i := Select(st.cases, v, a).value;
      assert i == 0 ==> st.cases[i..] == st.cases;
      CasesAlike(st.cases[i..], a, b, f, g);
    }
  }

  lemma {:induction false} FirstSame(cases: seq<Case>, v: Value, a: Env, b: Env)
    requires SameReads(a, b)
    ensures FirstMatch(cases, v, a) == FirstMatch(cases, v, b)
  {
    if cases != [] {
      if cases[0].Case? {
        EvalSame(cases[0].expr, a, b);
      }
      FirstSame(cases[1..], v, a, b);
    }
  }

  lemma {:induction false} CasesAlike(cases: seq<Case>, a: Env, b: Env, f: nat, g: nat)
    requires SameReads(a, b) && f <= g
    ensures Alike(ExecCases(cases, a, f), ExecCases(cases, b, g))
    decreases f, cases, 0
  {
    if cases != [] {
      CaseAlike(cases[0], a, b, f, g);
      var r := ExecCase(cases[0], a, f);
      if r.Done? && r.outcome == FallsThrough {
        CasesAlike(cases[1..], r.env, ExecCase(cases[0], b, g).env, f, g);
      }
    }
  }

  lemma {:induction false} BlockAlike(stmts: seq<Stmt>, a: Env, b: Env, f: nat, g: nat)
    requires SameReads(a, b) && f <= g
    ensures Alike(ExecBlock(stmts, a, f), ExecBlock(stmts, b, g))
    decreases f, stmts
  {
    if stmts != [] {
      ExecAlike(stmts[0], a, b, f, g);
      var r := Exec(stmts[0], a, f);
      if r.Finished() {
        BlockAlike(stmts[1..], r.env, Exec(stmts[0], b, g).env, f, g);
      }
    }
  }

  // ---------------------------------------------------------------- loops that come back to where they were

  /** Behind a turn from env that ended in `continue` with env1: `post` has no effect, or it has none that shows, because
      the turn has changed nothing that can be read and `post` neither, or `post` does not end. */
  ghost predicate Unnoticed(post: Stmt, env: Env, env1: Env, fuel: nat) {
    NoEffect(post, env1, fuel) || (SameReads(env, env1) && ComesBack(post, env, env1, fuel))
  }

  /** `post` does not end, or leads back to what env reads. */
  ghost predicate ComesBack(post: Stmt, env: Env, env1: Env, fuel: nat) {
    var r := Exec(post, env1, fuel);
    r.OutOfFuel? || (GoesOn(r) && SameReads(env, r.env))
  }

  predicate GoesOn(r: Result) { r.Done? && (r.outcome == Normal || r.outcome == Continues) }

  ghost predicate Enters(test: Expr, env: Env) { Eval(test, env).Val? && Truth(Eval(test, env)) }

  /** A loop whose turn leads back to where it started runs forever. */
  lemma {:induction false} LoopStuck(st: Stmt, env: Env, e: Env, fuel: nat, f: nat)
    requires st.For? && Enters(st.test, env) && SameReads(env, e) && f <= fuel + 1
    requires Continued(st.body, env, fuel) && ComesBack(st.post, env, Exec(st.body, env, fuel).env, fuel)
    ensures Loop(st, e, f).OutOfFuel?
    decreases f
  {
    EvalSame(st.test, env, e);
    if f > 0 {
      var env1 := Exec(st.body, env, fuel).env;
      ExecAlike(st.body, e, env, f - 1, fuel);
      var r := Exec(st.body, e, f - 1);
      if r.Done? {
        ExecAlike(st.post, r.env, env1, f - 1, fuel);
        var q := Exec(st.post, r.env, f - 1);
        if q.Done? {
          LoopStuck(st, env, q.env, fuel, f - 1);
        }
      }
    }
  }

  /** So does the moved loop when the turn has changed nothing that can be read. */
  lemma {:induction false} MovedStuck(st: Stmt, env: Env, e: Env, fuel: nat, f: nat)
    requires st.For? && Enters(st.test, env) && SameReads(env, e) && f <= fuel + 1
    requires Continued(st.body, env, fuel) && SameReads(env, Exec(st.body, env, fuel).env)
    ensures Loop(Moved(st), e, f).OutOfFuel?
    decreases f
  {
    EvalSame(st.test, env, e);
    if f > 0 {
      ExecAlike(st.body, e, env, f - 1, fuel);
      var r := Exec(st.body, e, f - 1);
      MovedTurn(st, e, f);
      if r.Done? {
        MovedStuck(st, env, r.env, fuel, f - 1);
      }
    }
  }

  /** A turn of the moved loop that ends in `continue`. */
  lemma MovedTurn(st: Stmt, env: Env, fuel: nat)
    requires st.For? && fuel > 0 && Enters(st.test, env)
    ensures var r := Exec(st.body, env, fuel - 1);
      && (r.OutOfFuel? ==> Loop(Moved(st), env, fuel).OutOfFuel?)
      && (r.Done? && r.outcome == Continues ==> Loop(Moved(st), env, fuel) == Loop(Moved(st), r.env, fuel - 1))
  {
    var m := Moved(st);
    var r := Exec(st.body, env, fuel - 1);
    PairRun(st.body, st.post, env, fuel - 1);
    if r.Done? && r.outcome == Continues {
      assert Exec(NO_STMT, r.env, fuel - 1) == Done(Normal, r.env);
      assert LoopPost(m, r.env, fuel) == Loop(m, r.env, fuel - 1);
    }
  }

  // ---------------------------------------------------------------- the exact condition

  /** For a body and a `post`: every loop around them does on every store, with every fuel, what its code does, exactly
      when no effect of `post` behind a `continue` can be noticed. */
  lemma LoopsExact(body: Stmt, post: Stmt)
    ensures (forall init, test, env: Env, fuel: nat :: IsTest(test) ==>
               var st := For(init, test, post, body); Exec(Moved(st), env, fuel) == Exec(st, env, fuel))
      <==> Hidden(body, post)
  {
    if Hidden(body, post) {
      forall init, test, env: Env, fuel: nat | IsTest(test)
        ensures var st := For(init, test, post, body); Exec(Moved(st), env, fuel) == Exec(st, env, fuel)
      {
        HiddenAgrees(For(init, test, post, body), env, fuel);
      }
    } else {
      var env: Env, fuel: nat :|
        Continued(body, env, fuel) && !Unnoticed(post, env, Exec(body, env, fuel).env, fuel);
      var test := Noticed(body, post, env, fuel);
      NoInit(For(NO_STMT, test, post, body), env, fuel + 1);
    }
  }

  lemma NoInit(st: Stmt, env: Env, fuel: nat)
    requires st.For? && st.init == NO_STMT
    ensures Exec(st, env, fuel) == Loop(st, env, fuel) && Exec(Moved(st), env, fuel) == Loop(Moved(st), env, fuel)
  {
    assert Exec(NO_STMT, env, fuel) == Done(Normal, env);
    assert Exec(st, env, fuel) == ExecFor(st, env, fuel) && Exec(Moved(st), env, fuel) == ExecFor(Moved(st), env, fuel);
  }

  ghost predicate Hidden(body: Stmt, post: Stmt) {
    forall env: Env, fuel: nat :: Continued(body, env, fuel) ==> Unnoticed(post, env, Exec(body, env, fuel).env, fuel)
  }

  lemma HiddenAgrees(st: Stmt, env: Env, fuel: nat)
    requires st.For? && Hidden(st.body, st.post)
    ensures Exec(Moved(st), env, fuel) == Exec(st, env, fuel)
  {
    var m := Moved(st);
    var r := Exec(st.init, env, fuel);
    if r.Finished() {
      HiddenLoop(st, r.env, fuel);
    }
    assert Exec(m, env, fuel) == ExecFor(m, env, fuel) && Exec(st, env, fuel) == ExecFor(st, env, fuel);
  }

  lemma {:induction false} HiddenLoop(st: Stmt, env: Env, fuel: nat)
    requires st.For? && Hidden(st.body, st.post)
    ensures Loop(Moved(st), env, fuel) == Loop(st, env, fuel)
    decreases fuel
  {
    var m := Moved(st);
    if fuel > 0 && Enters(st.test, env) {
      var r := Exec(st.body, env, fuel - 1);
      if r.Done? && r.outcome == Continues {
        HiddenTurn(st, env, r.env, fuel);
        HiddenLoop(st, r.env, fuel - 1);
      } else {
        PairRun(st.body, st.post, env, fuel - 1);
        forall e: Env ensures LoopPost(m, e, fuel) == Loop(st, e, fuel - 1) {
          assert Exec(NO_STMT, e, fuel - 1) == Done(Normal, e);
          HiddenLoop(st, e, fuel - 1);
        }
      }
    }
  }

  lemma HiddenTurn(st: Stmt, env: Env, env1: Env, fuel: nat)
    requires st.For? && fuel > 0 && Enters(st.test, env) && Hidden(st.body, st.post)
    requires Exec(st.body, env, fuel - 1) == Done(Continues, env1)
    ensures Loop(Moved(st), env1, fuel - 1) == Loop(st, env1, fuel - 1) ==> Loop(Moved(st), env, fuel) == Loop(st, env, fuel)
  {
    assert Continued(st.body, env, fuel - 1) && Unnoticed(st.post, env, env1, fuel - 1);
    MovedTurn(st, env, fuel);
    if !NoEffect(st.post, env1, fuel - 1) {
      LoopStuck(st, env, env, fuel - 1, fuel);
      MovedStuck(st, env, env, fuel - 1, fuel);
    }
  }

  /** So a loop agrees with its code when all its turns are right. */
  lemma MovedAgrees(st: Stmt, env: Env, fuel: nat)
    requires st.For? && Harmless(st.body, st.post)
    ensures Exec(Moved(st), env, fuel) == Exec(st, env, fuel)
  {
    HiddenAgrees(st, env, fuel);
  }

  // ---------------------------------------------------------------- tests on which an effect shows

  /** The variable with the value that it has in env. */
  function Holds(k: Kind, id: nat, env: Env): Expr { Binary(Bool, EQL, Var(k, id), Const(k, Wrap(k, Read(env, id)))) }

  lemma HoldsThere(k: Kind, id: nat, env: Env, e: Env)
    ensures Eval(Holds(k, id, env), e) == FromBool(Wrap(k, Read(e, id)) == Wrap(k, Read(env, id)))
  {
  }

  /** A test that is true where env reads the same, and false in e. */
  lemma Apart(env: Env, e: Env) returns (test: Expr)
    requires !SameReads(env, e)
    ensures IsTest(test) && Eval(test, env) == FromBool(true) && Eval(test, e) == FromBool(false)
    ensures forall d: Env :: Eval(test, d) == FromBool(true) || Eval(test, d) == FromBool(false)
  {
    var k: Kind, id: nat :| Wrap(k, Read(env, id)) != Wrap(k, Read(e, id));
    test := Holds(k, id, env);
    WrapCanonical(k, Read(env, id));
    forall d: Env ensures Eval(test, d) == FromBool(true) || Eval(test, d) == FromBool(false) {
      HoldsThere(k, id, env, d);
    }
    HoldsThere(k, id, env, env);
    HoldsThere(k, id, env, e);
  }

  ghost predicate Differs(body: Stmt, post: Stmt, test: Expr, env: Env, fuel: nat) {
    var st := For(NO_STMT, test, post, body);
    Loop(Moved(st), env, fuel + 1) != Loop(st, env, fuel + 1)
  }

  lemma LoopTurn(st: Stmt, env: Env, fuel: nat)
    requires st.For? && Enters(st.test, env) && Continued(st.body, env, fuel)
    ensures var env1 := Exec(st.body, env, fuel).env;
      && Loop(st, env, fuel + 1) == LoopPost(st, env1, fuel + 1)
      && Loop(Moved(st), env, fuel + 1) == Loop(Moved(st), env1, fuel)
  {
    MovedTurn(st, env, fuel + 1);
  }

  /** A test on which a noticeable effect of `post` shows. */
  lemma Noticed(body: Stmt, post: Stmt, env: Env, fuel: nat) returns (test: Expr)
    requires Continued(body, env, fuel) && !Unnoticed(post, env, Exec(body, env, fuel).env, fuel)
    ensures IsTest(test) && Differs(body, post, test, env, fuel)
  {
    var env1 := Exec(body, env, fuel).env;
    var r := Exec(post, env1, fuel);
    if SameReads(env, env1) {
      test := NoticedEnd(body, post, env, env1, fuel, r);
    } else if r.Done? && r.outcome == Breaks {
      test := NoticedBreak(body, post, env, env1, fuel);
    } else if GoesOn(r) {
      test := NoticedStore(body, post, env, env1, fuel, r);
    } else {
      test := Apart(env, env1);
      LoopTurn(For(NO_STMT, test, post, body), env, fuel);
    }
  }

  /** The moved loop stays where it is for ever, the source goes on to something else. */
  lemma NoticedEnd(body: Stmt, post: Stmt, env: Env, env1: Env, fuel: nat, r: Result) returns (test: Expr)
    requires Exec(body, env, fuel) == Done(Continues, env1) && SameReads(env, env1)
    requires r == Exec(post, env1, fuel) && !ComesBack(post, env, env1, fuel)
    ensures IsTest(test) && Differs(body, post, test, env, fuel)
  {
    if GoesOn(r) {
      test := Apart(env, r.env);
    } else {
      test := Const(Bool, 1);
      BoolIsTest(1);
    }
    EndDiffers(body, post, test, env, env1, fuel, r);
  }

  lemma EndDiffers(body: Stmt, post: Stmt, test: Expr, env: Env, env1: Env, fuel: nat, r: Result)
    requires Enters(test, env) && Exec(body, env, fuel) == Done(Continues, env1) && SameReads(env, env1)
    requires r == Exec(post, env1, fuel) && !r.OutOfFuel? && (GoesOn(r) ==> Eval(test, r.env) == FromBool(false))
    ensures Differs(body, post, test, env, fuel)
  {
    var st := For(NO_STMT, test, post, body);
    LoopTurn(st, env, fuel);
    MovedStuck(st, env, env, fuel, fuel + 1);
  }

  /** The source breaks, the code goes on to a test that fails. */
  lemma NoticedBreak(body: Stmt, post: Stmt, env: Env, env1: Env, fuel: nat) returns (test: Expr)
    requires Exec(body, env, fuel) == Done(Continues, env1) && !SameReads(env, env1)
    requires Exec(post, env1, fuel).Done? && Exec(post, env1, fuel).outcome == Breaks
    ensures IsTest(test) && Differs(body, post, test, env, fuel)
  {
    var x := Apart(env, env1);
    test := Binary(Bool, LOR, x, FAULT);
    FaultIsTest(env1);
    LoopTurn(For(NO_STMT, test, post, body), env, fuel);
  }

  /** The code ends with what the body left, the source with what `post` made of it, or not at all. */
  lemma NoticedStore(body: Stmt, post: Stmt, env: Env, env1: Env, fuel: nat, r: Result) returns (test: Expr)
    requires Exec(body, env, fuel) == Done(Continues, env1) && !SameReads(env, env1)
    requires r == Exec(post, env1, fuel) && GoesOn(r) && r.env != env1
    ensures IsTest(test) && Differs(body, post, test, env, fuel)
  {
    if SameReads(env, r.env) {
      test := Apart(env, env1);
      BackDiffers(body, post, test, env, env1, fuel, r);
    } else {
      test := ApartBoth(env, env1, r.env);
      StoresDiffer(body, post, test, env, env1, fuel, r);
    }
  }

  lemma BackDiffers(body: Stmt, post: Stmt, test: Expr, env: Env, env1: Env, fuel: nat, r: Result)
    requires Enters(test, env) && Exec(body, env, fuel) == Done(Continues, env1) && Eval(test, env1) == FromBool(false)
    requires r == Exec(post, env1, fuel) && GoesOn(r) && SameReads(env, r.env)
    ensures Differs(body, post, test, env, fuel)
  {
    var st := For(NO_STMT, test, post, body);
    LoopStuck(st, env, env, fuel, fuel + 1);
    LoopTurn(st, env, fuel);
  }

  lemma StoresDiffer(body: Stmt, post: Stmt, test: Expr, env: Env, env1: Env, fuel: nat, r: Result)
    requires Enters(test, env) && Exec(body, env, fuel) == Done(Continues, env1) && Eval(test, env1) == FromBool(false)
    requires r == Exec(post, env1, fuel) && GoesOn(r) && r.env != env1 && Eval(test, r.env) == FromBool(false)
    ensures Differs(body, post, test, env, fuel)
  {
    LoopTurn(For(NO_STMT, test, post, body), env, fuel);
  }

  /** A test that is true where env reads the same, and false in both other stores. */
  lemma ApartBoth(env: Env, d: Env, e: Env) returns (test: Expr)
    requires !SameReads(env, d) && !SameReads(env, e)
    ensures IsTest(test)
    ensures Eval(test, env) == FromBool(true) && Eval(test, d) == FromBool(false) && Eval(test, e) == FromBool(false)
  {
    var x := Apart(env, d);
    var y := Apart(env, e);
    test := Binary(Bool, LAND, x, y);
    assert Eval(x, e) == FromBool(true) || Eval(x, e) == FromBool(false);
  }
}
