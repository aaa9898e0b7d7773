/** deep_equal() on nodes of one buffer, which may share parts: onejit/ir/node.cpp. */
module SharedNodes {
  import opened Values
  import opened Ir
  import opened Imm
  import opened Nodes
  import opened Codec
  import opened ExprCodec

  /** is_allowed(), as Nodes.Allowed has it. */
  predicate HeaderAllowed(h: Header, division: bool) { division || !(h.type_ == 9 && (h.op == 2 || h.op == 3)) }

  /** Two nodes of the buffer, `depth` levels deep. The same node is equal to itself, whatever it holds further down. */
  predicate NodesEqual(code: seq<nat>, a: Ref, b: Ref, division: bool, depth: nat)
    decreases depth, 1
  {
    if a.Direct? || b.Direct? then a == b
    else
      var n := Children(code, a.off);
      && HeaderAt(code, a.off) == HeaderAt(code, b.off) && HeaderAllowed(HeaderAt(code, a.off), division)
      && (a == b || (depth > 0 && n == Children(code, b.off) && ChildrenEqual(code, a.off, b.off, 0, n, division, depth - 1)))
  }

  predicate ChildrenEqual(code: seq<nat>, a: nat, b: nat, i: nat, n: nat, division: bool, depth: nat)
    decreases depth, 2, n - i
  {
    i >= n
    || (NodesEqual(code, Child(code, a, i), Child(code, b, i), division, depth)
        && ChildrenEqual(code, a, b, i + 1, n, division, depth))
  }

  /** No node has words of its own: every leaf is direct. */
  predicate NoData(t: Tree)
    decreases t, 1
  {
    match t
    case Leaf(_) => true
    case Node(_, data, children) => data == [] && AllNoData(children)
  }

  predicate AllNoData(ts: seq<Tree>)
    decreases ts, 0
  {
    ts == [] || (NoData(ts[0]) && AllNoData(ts[1..]))
  }

  /** A forbidden division is met only below a node that both share. */
  predicate PureApart(code: seq<nat>, a: Ref, b: Ref, t: Tree, division: bool)
    decreases t, 1
  {
    match t
    case Leaf(_) => true
    case Node(h, _, children) =>
      HeaderAllowed(h, division)
      && (a == b || (a.Offset? && b.Offset? && AllPureApart(code, a.off, b.off, 0, children, division)))
  }

  predicate AllPureApart(code: seq<nat>, a: nat, b: nat, i: nat, ts: seq<Tree>, division: bool)
    decreases ts, 0
  {
    ts == []
    || (PureApart(code, Child(code, a, i), Child(code, b, i), ts[0], division)
        && AllPureApart(code, a, b, i + 1, ts[1..], division))
  }

  /** A node at a reference of the buffer, in words [lo, hi). */
  ghost predicate Stands(code: seq<nat>, lo: nat, hi: nat, ref: Ref, t: Tree) {
    ValidTree(t) && NoData(t) && Represents(code, lo, hi, ref, t) && 4 * |code| <= W32
  }

  ghost predicate AllStand(code: seq<nat>, lo: nat, hi: nat, off: nat, i: nat, ts: seq<Tree>) {
    AllValid(ts) && AllNoData(ts) && RepresentsFrom(code, lo, hi, off, i, ts) && 4 * |code| <= W32
  }

  /** deep_equal() says yes exactly when the trees are equal and no division is met that is not allowed. */
  lemma {:induction false} NodesEqualExact(code: seq<nat>, lo: nat, hi: nat, a: Ref, t: Tree, lo': nat, hi': nat, b: Ref,
                                           u: Tree, division: bool, depth: nat)
    requires Stands(code, lo, hi, a, t) && Stands(code, lo', hi', b, u) && Height(t) <= depth && Height(u) <= depth
    ensures NodesEqual(code, a, b, division, depth) <==> t == u && PureApart(code, a, b, t, division)
    decreases t, 1
  {
    if t.Node? && u.Node? {
      NodeBack(code, lo, hi, a.off, t.header, [], |t.children|);
      NodeBack(code, lo', hi', b.off, u.header, [], |u.children|);
      if a == b {
        ReadBack(code, lo, hi, a, t, depth);
        ReadBack(code, lo', hi', b, u, depth);
      } else if |t.children| == |u.children| {
        var n := |t.children|;
        ChildrenEqualExact(code, lo, hi, a.off, t.children, lo', hi', b.off, u.children, 0, n, division, depth - 1);
      }
    }
  }

  lemma {:induction false} ChildrenEqualExact(code: seq<nat>, lo: nat, hi: nat, a: nat, ts: seq<Tree>, lo': nat, hi': nat,
                                              b: nat, us: seq<Tree>, i: nat, n: nat, division: bool, depth: nat)
    requires AllStand(code, lo, hi, a, i, ts) && AllStand(code, lo', hi', b, i, us) && |ts| == |us| && n == i + |ts|
    requires MaxHeight(ts) <= depth && MaxHeight(us) <= depth
    ensures ChildrenEqual(code, a, b, i, n, division, depth) <==> ts == us && AllPureApart(code, a, b, i, ts, division)
    decreases ts, 0
  {
    if ts != [] {
      NodesEqualExact(code, lo, hi, Child(code, a, i), ts[0], lo', hi', Child(code, b, i), us[0], division, depth);
      ChildrenEqualExact(code, lo, hi, a, ts[1..], lo', hi', b, us[1..], i + 1, n, division, depth);
      SameCons(ts, us);
    }
  }

  lemma SameCons(ts: seq<Tree>, us: seq<Tree>)
    requires ts != [] && |ts| == |us|
    ensures ts == us <==> ts[0] == us[0] && ts[1..] == us[1..]
  {
    assert ts == [ts[0]] + ts[1..] && us == [us[0]] + us[1..];
  }

  // ---------------------------------------------------------------- what sharing changes

  predicate TreePure(t: Tree, division: bool)
    decreases t, 1
  {
    t.Leaf? || (HeaderAllowed(t.header, division) && AllTreesPure(t.children, division))
  }

  predicate AllTreesPure(ts: seq<Tree>, division: bool)
    decreases ts, 0
  {
    ts == [] || (TreePure(ts[0], division) && AllTreesPure(ts[1..], division))
  }

  /** Nothing is shared between separate parts of the buffer. */
  lemma {:induction false} ApartExact(code: seq<nat>, lo: nat, hi: nat, a: Ref, lo': nat, hi': nat, b: Ref, t: Tree,
                                      division: bool)
    requires Stands(code, lo, hi, a, t) && Stands(code, lo', hi', b, t) && (hi <= lo' || hi' <= lo)
    ensures PureApart(code, a, b, t, division) <==> TreePure(t, division)
    decreases t, 1
  {
    if t.Node? {
      AllApartExact(code, lo, hi, a.off, lo', hi', b.off, 0, t.children, division);
    }
  }

  lemma {:induction false} AllApartExact(code: seq<nat>, lo: nat, hi: nat, a: nat, lo': nat, hi': nat, b: nat, i: nat,
                                         ts: seq<Tree>, division: bool)
    requires AllStand(code, lo, hi, a, i, ts) && AllStand(code, lo', hi', b, i, ts) && (hi <= lo' || hi' <= lo)
    ensures AllPureApart(code, a, b, i, ts, division) <==> AllTreesPure(ts, division)
    decreases ts, 0
  {
    if ts != [] {
      ApartExact(code, lo, hi, Child(code, a, i), lo', hi', Child(code, b, i), ts[0], division);
      AllApartExact(code, lo, hi, a, lo', hi', b, i + 1, ts[1..], division);
    }
  }

  /** Where divisions are allowed, sharing changes nothing. */
  lemma {:induction false} AlwaysApart(code: seq<nat>, lo: nat, hi: nat, a: Ref, lo': nat, hi': nat, b: Ref, t: Tree)
    requires Stands(code, lo, hi, a, t) && Stands(code, lo', hi', b, t)
    ensures PureApart(code, a, b, t, true)
    decreases t, 1
  {
    if t.Node? {
      AllAlwaysApart(code, lo, hi, a.off, lo', hi', b.off, 0, t.children);
    }
  }

  lemma {:induction false} AllAlwaysApart(code: seq<nat>, lo: nat, hi: nat, a: nat, lo': nat, hi': nat, b: nat, i: nat,
                                          ts: seq<Tree>)
    requires AllStand(code, lo, hi, a, i, ts) && AllStand(code, lo', hi', b, i, ts)
    ensures AllPureApart(code, a, b, i, ts, true)
    decreases ts, 0
  {
    if ts != [] {
      AlwaysApart(code, lo, hi, Child(code, a, i), lo', hi', Child(code, b, i), ts[0]);
      AllAlwaysApart(code, lo, hi, a, lo', hi', b, i + 1, ts[1..]);
    }
  }

  // ---------------------------------------------------------------- expressions

  /** Expressions of the buffer whose leaves are direct. */
  ghost predicate Holds(code: seq<nat>, lo: nat, hi: nat, ref: Ref, e: Expr) {
    Storable(e) && DirectLeaves(e) && Represents(code, lo, hi, ref, TreeOf(e)) && 4 * |code| <= W32
  }

  lemma {:induction false} TreeOfDirect(e: Expr, division: bool)
    requires DirectLeaves(e)
    ensures NoData(TreeOf(e)) && (TreePure(TreeOf(e), division) <==> DeepPure(e, division))
    decreases e, 1
  {
    match e
    case Var(_, _) => DirectLeaf(e);
    case Const(_, _) =>
    case Unary(_, _, x) =>
      TreeOfDirect(x, division);
      OneTree(TreeOf(x), division);
    case Binary(_, _, x, y) =>
      TreeOfDirect(x, division);
      TreeOfDirect(y, division);
      TwoTrees(TreeOf(x), TreeOf(y), division);
    case Tuple(_, _, args) => TreesOfDirect(args, division);
  }

  lemma OneTree(t: Tree, division: bool)
    ensures AllNoData([t]) == NoData(t) && AllTreesPure([t], division) == TreePure(t, division)
  {
    assert [t][1..] == [];
  }

  lemma TwoTrees(t: Tree, u: Tree, division: bool)
    ensures AllNoData([t, u]) == (NoData(t) && NoData(u))
    ensures AllTreesPure([t, u], division) == (TreePure(t, division) && TreePure(u, division))
  {
    OneTree(u, division);
    assert [t, u][1..] == [u];
  }

  lemma {:induction false} TreesOfDirect(es: seq<Expr>, division: bool)
    requires AllDirectLeaves(es)
    ensures AllNoData(TreesOf(es)) && (AllTreesPure(TreesOf(es), division) <==> AllPure(es, division))
    decreases es, 0
  {
    if es != [] {
      TreeOfDirect(es[0], division);
      TreesOfDirect(es[1..], division);
      assert TreesOf(es)[1..] == TreesOf(es[1..]);
    }
  }

  lemma HoldsStands(code: seq<nat>, lo: nat, hi: nat, ref: Ref, e: Expr)
    requires Holds(code, lo, hi, ref, e)
    ensures Stands(code, lo, hi, ref, TreeOf(e)) && ExprOf(TreeOf(e)) == e
    ensures ref.Offset? <==> !IsDirect(e)
  {
    ExprBack(e);
    TreeOfDirect(e, true);
  }

  /** What deep_equal() says of two expressions in a buffer. Nodes that do not share anything are compared as
      Nodes.DeepEqual says; a node is equal to itself if and only if it is no forbidden division itself; and whatever
      is shared, expressions that are said to be equal are equal. */
  lemma SharedEqualExact(code: seq<nat>, lo: nat, hi: nat, a: Ref, x: Expr, lo': nat, hi': nat, b: Ref, y: Expr,
                         division: bool, depth: nat)
    requires Holds(code, lo, hi, a, x) && Holds(code, lo', hi', b, y)
    requires Height(TreeOf(x)) <= depth && Height(TreeOf(y)) <= depth
    ensures NodesEqual(code, a, b, division, depth) <==> x == y && PureApart(code, a, b, TreeOf(x), division)
    ensures division ==> (NodesEqual(code, a, b, division, depth) <==> x == y)
    ensures hi <= lo' || hi' <= lo ==> (NodesEqual(code, a, b, division, depth) <==> DeepEqual(x, y, division))
    ensures a == b ==> x == y && (NodesEqual(code, a, b, division, depth) <==> Allowed(x, division))
  {
    HoldsStands(code, lo, hi, a, x);
    HoldsStands(code, lo', hi', b, y);
    NodesEqualExact(code, lo, hi, a, TreeOf(x), lo', hi', b, TreeOf(y), division, depth);
    DeepEqualExact(x, y, division);
    TreeOfDirect(x, division);
    if x == y && division {
      AlwaysApart(code, lo, hi, a, lo', hi', b, TreeOf(x));
    }
    if x == y && (hi <= lo' || hi' <= lo) {
      ApartExact(code, lo, hi, a, lo', hi', b, TreeOf(x), division);
    }
    if a == b {
      ReadBack(code, lo, hi, a, TreeOf(x), depth);
      ReadBack(code, lo', hi', b, TreeOf(y), depth);
    }
  }

  /** For one node, sharing changes the answer if and only if a forbidden division is inside of it, and not on top. */
  lemma SharingMatters(code: seq<nat>, lo: nat, hi: nat, a: Ref, x: Expr, division: bool)
    requires Holds(code, lo, hi, a, x)
    ensures NodesEqual(code, a, a, division, Height(TreeOf(x))) != DeepEqual(x, x, division)
      <==> Allowed(x, division) && !DeepPure(x, division)
  {
    SharedEqualExact(code, lo, hi, a, x, lo, hi, a, x, division, Height(TreeOf(x)));
    DeepEqualExact(x, x, division);
  }

  /** -(1 / v0) on uint8, in whatever buffer: with divisions forbidden the node is equal to itself, and its two copies
      are not. */
  lemma SharedDivision(code: seq<nat>, lo: nat, hi: nat, a: Ref)
    requires Holds(code, lo, hi, a, NegatedQuotient())
    ensures var x := NegatedQuotient();
      NodesEqual(code, a, a, false, Height(TreeOf(x))) && !DeepEqual(x, x, false)
  {
    SharingMatters(code, lo, hi, a, NegatedQuotient(), false);
    DeepEqualExact(NegatedQuotient(), NegatedQuotient(), false);
  }

  function NegatedQuotient(): Expr { Unary(Uint8, NEG1, Binary(Uint8, QUO, Const(Uint8, 1), Var(Uint8, 0))) }
}
