/** The whole of Compiler::compile(Func): optimize, then lower. */
module OptimizerLowered {
  import opened Ir
  import opened Values
  import opened Stmts
  import opened Optimizing
  import opened OptimizerStmts
  import opened Flat
  import opened Lowering
  import opened LoweringDomain
  import opened LoweringFunc
  import opened LoweringDiverges

  /** compile(Func) where the optimized body lowers well: its code does what the body itself does. */
  lemma OptimizedSim(o: Opts, params: seq<nat>, body: Stmt, vars: nat, ks: Kinds, n: nat, env: Env, fuel: nat)
    returns (env': Env)
    requires o.division && OkStmt(body, ks, n) && n <= 0x20_0000 && n <= vars
    requires Lowerable(OptimizeStmt(o, body), TOP_SCOPE, n) && Exec(body, env, fuel).Done?
    ensures var code := CompileFunc(params, OptimizeStmt(o, body), vars).node;
      && Exec(body, env, fuel).outcome == Normal
      && Reaches(code, Config(0, env), Config(|code| - 1, env')) && code[|code| - 1] == Ret
      && Alike(ks, n, Exec(body, env, fuel).env, env')
  {
    StmtKeeps(o, body, ks, n, env, env, fuel);
    env' := MatchSim(params, OptimizeStmt(o, body), vars, ks, n, env, fuel, Exec(body, env, fuel));
  }

  /** The code of a body whose run matches r leaves what r leaves. */
  lemma MatchSim(params: seq<nat>, st: Stmt, vars: nat, ks: Kinds, n: nat, env: Env, fuel: nat, r: Result)
    returns (env': Env)
    requires Lowerable(st, TOP_SCOPE, n) && n <= vars && r.Done? && Matches(r, Exec(st, env, fuel), ks, n)
    ensures var code := CompileFunc(params, st, vars).node;
      && r.outcome == Normal
      && Reaches(code, Config(0, env), Config(|code| - 1, env')) && code[|code| - 1] == Ret
      && Alike(ks, n, r.env, env')
  {
    env' := FuncSim(params, st, vars, n, env, fuel);
    AlikeBehind(ks, n, r.env, Exec(st, env, fuel).env, env');
  }

  lemma AlikeBehind(ks: Kinds, n: nat, a: Env, b: Env, c: Env)
    requires Alike(ks, n, a, b) && Agree(n, b, c)
    ensures Alike(ks, n, a, c)
  {
    forall id: nat {:trigger Read(c, id)} | id < n ensures Wrap(ks(id), Read(a, id)) == Wrap(ks(id), Read(c, id)) {
      assert Read(b, id) == Read(c, id);
      assert Wrap(ks(id), Read(a, id)) == Wrap(ks(id), Read(b, id));
    }
  }

  /** The same for stopping: when the body does not fault, its optimized code stops if and only if the body ends. */
  lemma OptimizedHalts(o: Opts, params: seq<nat>, body: Stmt, vars: nat, ks: Kinds, n: nat, env: Env)
    requires o.division && OkStmt(body, ks, n) && n <= 0x20_0000 && n <= vars
    requires Lowerable(OptimizeStmt(o, body), TOP_SCOPE, n) && Faultless(body, env)
    ensures Stops(CompileFunc(params, OptimizeStmt(o, body), vars).node, Config(0, env)) <==> Ends(body, env)
  {
    var st := OptimizeStmt(o, body);
    forall fuel: nat ensures Matches(Exec(body, env, fuel), Exec(st, env, fuel), ks, n) {
      StmtKeeps(o, body, ks, n, env, env, fuel);
    }
    MatchHalts(params, body, st, vars, ks, n, env);
  }

  lemma MatchHalts(params: seq<nat>, body: Stmt, st: Stmt, vars: nat, ks: Kinds, n: nat, env: Env)
    requires Lowerable(st, TOP_SCOPE, n) && n <= vars
    requires forall fuel: nat :: Matches(Exec(body, env, fuel), Exec(st, env, fuel), ks, n)
    ensures Stops(CompileFunc(params, st, vars).node, Config(0, env)) <==> Ends(body, env)
  {
    EndsToo(body, st, ks, n, env);
    HaltsExact(params, st, vars, n, env);
  }

  lemma EndsToo(body: Stmt, st: Stmt, ks: Kinds, n: nat, env: Env)
    requires forall fuel: nat :: Matches(Exec(body, env, fuel), Exec(st, env, fuel), ks, n)
    ensures Faultless(st, env) && (Ends(st, env) <==> Ends(body, env))
  {
    forall fuel: nat
      ensures !Exec(st, env, fuel).Fault? && Exec(st, env, fuel).Done? == Exec(body, env, fuel).Done?
    {
      assert Matches(Exec(body, env, fuel), Exec(st, env, fuel), ks, n);
    }
    EndsAlso(body, st, env);
    EndsAlso(st, body, env);
  }

  lemma EndsAlso(a: Stmt, b: Stmt, env: Env)
    requires forall fuel: nat :: Exec(b, env, fuel).Done? == Exec(a, env, fuel).Done?
    ensures Ends(a, env) ==> Ends(b, env)
  {
    if Ends(a, env) {
      var fuel: nat :| Exec(a, env, fuel).Done?;
      assert Exec(b, env, fuel).Done?;
    }
  }
}
