/** The class Optimizer of onejit/optimizer.cpp and onejit/optimizer_tuple.cpp. It works in one buffer of
    nodes that grows and is truncated again; each method is proved to give what Optimizing describes
    and to leave what was in the buffer before. */
module Optimizers {
  import opened Values
  import opened Ir
  import opened Nodes
  import opened Optimizing

  function OptimizedAll(o: Opts, es: seq<Expr>): (r: seq<Expr>)
    ensures |r| == |es|
  {
    if es == [] then [] else [Optimize(o, es[0])] + OptimizedAll(o, es[1..])
  }

  lemma {:induction false} OptimizedMore(o: Opts, es: seq<Expr>, i: nat)
    requires i < |es|
    ensures OptimizedAll(o, es[..i + 1]) == OptimizedAll(o, es[..i]) + [Optimize(o, es[i])]
  {
    if i > 0 {
      OptimizedMore(o, es[1..], i - 1);
      assert es[..i + 1][1..] == es[1..][..i] && es[..i][1..] == es[1..][..i - 1];
    }
  }

  lemma FlattenFirst(o: Opts, k: Kind, op: OpN, es: seq<Expr>, i: nat)
    requires 0 < i <= |es|
    ensures Flatten(o, k, op, es[..i]) == FlattenChild(o, k, op, es[0]) + Flatten(o, k, op, es[1..][..i - 1])
  {
    assert es[..i][1..] == es[1..][..i - 1];
  }

  /** Flattening one more child. */
  lemma {:induction false} FlattenMore(o: Opts, k: Kind, op: OpN, es: seq<Expr>, i: nat)
    requires i < |es|
    ensures Flatten(o, k, op, es[..i + 1]) == Flatten(o, k, op, es[..i]) + FlattenChild(o, k, op, es[i])
  {
    if i > 0 {
      FlattenMore(o, k, op, es[1..], i - 1);
      FlattenFirst(o, k, op, es, i);
      FlattenFirst(o, k, op, es, i + 1);
    } else {
      assert es[..1] == [es[0]] && [es[0]][1..] == [] && Flatten(o, k, op, []) == [];
      assert Flatten(o, k, op, [es[0]]) == FlattenChild(o, k, op, es[0]) + [];
    }
  }

  /** The buffer `after` has the first i flattened children behind `before`. */
  ghost predicate Flattened(before: seq<Expr>, after: seq<Expr>, o: Opts, k: Kind, op: OpN, es: seq<Expr>, i: nat) {
    i <= |es| && after == before + Flatten(o, k, op, es[..i])
  }

  lemma FlattenedNext(before: seq<Expr>, mid: seq<Expr>, after: seq<Expr>, o: Opts, k: Kind, op: OpN, es: seq<Expr>, i: nat)
    requires i < |es| && Flattened(before, mid, o, k, op, es, i) && after == mid + FlattenChild(o, k, op, es[i])
    ensures Flattened(before, after, o, k, op, es, i + 1)
  {
    FlattenMore(o, k, op, es, i);
  }

  lemma SortMore(es: seq<Expr>, i: nat)
    requires i < |es|
    ensures Sort(es[i..]) == Insert(es[i], Sort(es[i + 1..]))
  {
    assert es[i..][1..] == es[i + 1..];
  }

  class Optimizer {
    const opts: Opts
    var nodes: seq<Expr>

    constructor (opts: Opts)
      ensures nodes == [] && this.opts == opts
    {
      this.opts := opts;
      nodes := [];
    }

    /** optimize(Func, Node, Opt): with no flag set nothing is done. */
    method Run(e: Expr) returns (r: Expr)
      modifies this`nodes
      ensures r == if opts.fold || opts.simplify then Optimize(opts, e) else e
    {
      r := e;
      if opts.fold || opts.simplify {
        nodes := [];
        r := OptimizeNode(e);
      }
    }

    method OptimizeNode(e: Expr) returns (r: Expr)
      modifies this`nodes
      ensures r == Optimize(opts, e) && nodes == old(nodes)
      decreases Size(e), 1
    {
      match e
      case Tuple(_, _, _) => r := OptimizeTuple(e);
      case Unary(k, op, x) =>
        var start := |nodes|;
        RestSize([x]);
        OptimizeChildren([x]);
        ShowOne(x);
        var r1 := TryUnary(opts, k, op, nodes[start]);
        r := if r1.Some? then r1.value else Unary(k, op, nodes[start]);
        nodes := nodes[..start];
      case Binary(k, op, x, y) =>
        var start := |nodes|;
        PairSize(x, y);
        OptimizeChildren([x, y]);
        ShowTwo(x, y);
        var r1 := TryBinary(opts, op, nodes[start], nodes[start + 1]);
        r := if r1.Some? then r1.value else Binary(k, op, nodes[start], nodes[start + 1]);
        nodes := nodes[..start];
      case _ => r := e;
    }

    lemma ShowOne(x: Expr)
      ensures OptimizedAll(opts, [x]) == [Optimize(opts, x)]
    {
      assert [x][1..] == [];
    }

    lemma ShowTwo(x: Expr, y: Expr)
      ensures OptimizedAll(opts, [x, y]) == [Optimize(opts, x), Optimize(opts, y)]
    {
      ShowOne(y);
      assert [x, y][1..] == [y];
    }

    /** Appends the optimized children to the buffer. */
    method OptimizeChildren(es: seq<Expr>)
      modifies this`nodes
      ensures nodes == old(nodes) + OptimizedAll(opts, es)
      decreases SizeAll(es), 3
    {
      ghost var before := nodes;
      var start := |nodes|;
      nodes := nodes + seq(|es|, i => VOID_CONST);
      for i := 0 to |es|
        invariant |nodes| == start + |es| && nodes[..start + i] == before + OptimizedAll(opts, es[..i])
      {
        ChildSize(es, i);
        OptimizedMore(opts, es, i);
        var c := OptimizeNode(es[i]);
        nodes := nodes[start + i := c];
        assert nodes[..start + i + 1] == nodes[..start + i] + [c];
      }
      assert es[..|es|] == es && nodes[..start + |es|] == nodes;
    }

    method OptimizeTuple(e: Expr) returns (r: Expr)
      requires e.Tuple?
      modifies this`nodes
      ensures r == Optimize(opts, e) && nodes == old(nodes)
      decreases Size(e), 0
    {
      r := e;
      if opts.simplify {
        var start := |nodes|;
        FlattenToBuffer(e.kind, e.opn, e.args);
        r := PartialEval(e, start);
        nodes := nodes[..start];
      }
    }

    /** flatten_children_tobuf(). */
    method FlattenToBuffer(k: Kind, op: OpN, es: seq<Expr>)
      modifies this`nodes
      ensures nodes == old(nodes) + Flatten(opts, k, op, es)
      decreases SizeAll(es), 3
    {
      ghost var before := nodes;
      for i := 0 to |es|
        invariant Flattened(before, nodes, opts, k, op, es, i)
      {
        ghost var mid := nodes;
        ChildSize(es, i);
        ChildToBuffer(k, op, es[i]);
        FlattenedNext(before, mid, nodes, opts, k, op, es, i);
      }
      assert es[..|es|] == es;
    }

    method ChildToBuffer(k: Kind, op: OpN, e: Expr)
      modifies this`nodes
      ensures nodes == old(nodes) + FlattenChild(opts, k, op, e)
      decreases Size(e), 2
    {
      var child := e;
      if Nested(k, op, child) {
        FlattenToBuffer(k, op, child.args);
      } else {
        child := OptimizeNode(child);
        if Nested(k, op, child) {
          FlattenToBuffer(k, op, child.args);
        } else {
          nodes := nodes + [child];
        }
      }
    }

    /** std::sort() of the nodes from `start` on; SortUnique says that the algorithm does not matter. */
    method SortFrom(start: nat)
      requires start <= |nodes|
      modifies this`nodes
      ensures |nodes| == |old(nodes)|
      ensures nodes[..start] == old(nodes)[..start] && nodes[start..] == Sort(old(nodes)[start..])
    {
      ghost var before := nodes;
      var i := |nodes|;
      NothingSorted(nodes);
      while i > start
        invariant start <= i && SortedFrom(before, nodes, i)
      {
        i := i - 1;
        InsertFrom(i, before);
      }
    }

    method InsertFrom(i: nat, ghost before: seq<Expr>)
      requires i < |nodes| && SortedFrom(before, nodes, i + 1)
      modifies this`nodes
      ensures SortedFrom(before, nodes, i)
    {
      SortTurn(before, nodes, i);
      nodes := nodes[..i] + Insert(nodes[i], nodes[i + 1..]);
    }

    /** partial_eval_tuple() of the nodes from `start` on. */
    method PartialEval(e: Expr, start: nat) returns (r: Expr)
      requires e.Tuple? && start <= |nodes| && Size(e) >= 1 + SizeAll(nodes[start..])
      modifies this`nodes
      ensures r == PartialEvalTuple(opts, e.kind, e.opn, old(nodes)[start..], e)
      ensures |nodes| >= start && nodes[..start] == old(nodes)[..start]
    {
      if |nodes| == start {
        return Const(e.kind, IdentityN(e.kind, e.opn).num);
      }
      ghost var es := nodes[start..];
      if |nodes| - start > 1 && IsCommutative(e.opn) {
        SortFrom(start);
      }
      ghost var sorted := Ordered(e.opn, es);
      var v := IdentityN(e.kind, e.opn);
      if opts.fold {
        v := FoldInPlace(e.kind, e.opn, start);
      }
      ghost var rest := if opts.fold then FoldChildren(e.kind, e.opn, sorted, v) else sorted;
      assert nodes[start..] == rest && v == TailValue(opts, e.kind, e.opn, sorted);
      r := Rebuild(e, v, nodes[start..]);
    }

    /** A constant, the only child, or a new tuple. */
    method Rebuild(e: Expr, v: Value, rest: seq<Expr>) returns (r: Expr)
      requires e.Tuple?
      ensures r == if |rest| == 0 then (if v.Val? then ConstOf(v) else e)
        else if |rest| == 1 then rest[0]
        else Tuple(e.kind, e.opn, rest)
    {
      if |rest| == 0 {
        return if v.Val? then ConstOf(v) else e;
      } else if |rest| == 1 {
        return rest[0];
      }
      return Tuple(e.kind, e.opn, rest);
    }

    /** Puts one constant in the place of the trailing ones, or none. */
    method FoldInPlace(k: Kind, op: OpN, start: nat) returns (v: Value)
      requires start <= |nodes|
      modifies this`nodes
      ensures v == FoldTail(k, op, old(nodes)[start..][Variables(old(nodes)[start..])..], IdentityN(k, op))
      ensures |nodes| >= start && nodes[..start] == old(nodes)[..start]
      ensures nodes[start..] == FoldChildren(k, op, old(nodes)[start..], v)
    {
      var n;
      ghost var es := nodes[start..];
      n, v := FoldConstants(k, op, start);
      if n < |nodes| - start && Differs(v, IdentityN(k, op)) {
        assert nodes[start..start + n] == es[..n];
        if SameValue(v, AbsorbingN(k, op)) && AllVars(nodes[start..start + n]) {
          nodes := nodes[..start] + [ConstOf(v)];
        } else {
          nodes := nodes[..start + n] + [ConstOf(v)];
          assert nodes[start..] == es[..n] + [ConstOf(v)];
        }
      } else {
        nodes := nodes[..start + n];
        assert nodes[start..] == es[..n];
      }
    }

    /** The loop over the trailing constants: how many nodes are left, and their combined value. */
    method FoldConstants(k: Kind, op: OpN, start: nat) returns (n: nat, v: Value)
      requires start <= |nodes|
      ensures n == Variables(nodes[start..]) && v == FoldTail(k, op, nodes[start..][n..], IdentityN(k, op))
    {
      var es := nodes[start..];
      n := |es|;
      v := IdentityN(k, op);
      ghost var m := Variables(es);
      assert es[..n] == es && es[m..n] == es[m..];
      while n != 0 && es[n - 1].Const?
        invariant m <= n <= |es| && Folding(k, op, es, m, n, v)
      {
        FoldTurn(k, op, es, m, n, v);
        v := EvalTupleOp(k, op, [ConstValue(es[n - 1]), v]);
        n := n - 1;
      }
      assert Variables(es[..n]) == n;
      assert es[n..n] == [];
    }
  }

  /** The loop over trailing constants has joined those from n on to v. */
  ghost predicate Folding(k: Kind, op: OpN, es: seq<Expr>, m: nat, n: nat, v: Value)
    requires m == Variables(es) && m <= n <= |es|
  {
    Variables(es[..n]) == m && FoldTail(k, op, es[m..n], v) == FoldTail(k, op, es[m..], IdentityN(k, op))
  }

  lemma FoldTurn(k: Kind, op: OpN, es: seq<Expr>, m: nat, n: nat, v: Value)
    requires m == Variables(es) && m <= n <= |es| && n > 0 && es[n - 1].Const? && Folding(k, op, es, m, n, v)
    ensures m < n && Folding(k, op, es, m, n - 1, EvalTupleOp(k, op, [ConstValue(es[n - 1]), v]))
  {
    assert es[..n][..n - 1] == es[..n - 1];
    assert es[m..n][..n - m - 1] == es[m..n - 1] && es[m..n][n - m - 1] == es[n - 1];
  }

  predicate SortedFrom(before: seq<Expr>, now: seq<Expr>, i: nat) {
    i <= |now| == |before| && now[..i] == before[..i] && now[i..] == Sort(before[i..])
  }

  lemma NothingSorted(es: seq<Expr>)
    ensures SortedFrom(es, es, |es|)
  {
  }

  lemma SortTurn(before: seq<Expr>, now: seq<Expr>, i: nat)
    requires i < |now| && SortedFrom(before, now, i + 1)
    ensures SortedFrom(before, now[..i] + Insert(now[i], now[i + 1..]), i)
  {
    assert now[i] == now[..i + 1][i] == before[..i + 1][i] == before[i];
    assert now[..i] == now[..i + 1][..i] == before[..i + 1][..i] == before[..i];
    SortMore(before, i);
  }
}
