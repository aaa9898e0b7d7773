/** Comparing expression trees: deep_equal(), deep_compare() and deep_pure() of onejit/ir/node.cpp,
    on nodes whose leaves are direct or indirect as onejit/imm.hpp and onejit/local.hpp decide. */
module Nodes {
  import opened Values
  import opened Ir
  import opened Imm

  // ---------------------------------------------------------------- headers

  /** The numbers of enum Type. */
  function TypeCode(e: Expr): nat {
    match e
    case Var(_, _) => 6
    case Unary(_, _, _) => 8
    case Binary(_, _, _, _) => 9
    case Tuple(_, _, _) => 10
    case Const(_, _) => 12
  }

  function OpCode(e: Expr): (n: nat)
    ensures n < 0x1_0000
  {
    match e
    case Var(_, _) => 0
    case Const(_, _) => 0
    case Unary(_, op, _) =>
      (match op case XOR1 => 1 case NOT1 => 2 case NEG1 => 3 case CAST => 4 case BITCOPY => 5)
    case Binary(_, op, _, _) =>
      (match op
       case SUB => 1 case QUO => 2 case REM => 3 case SHL => 4 case SHR => 5 case LAND => 6 case LOR => 7
       case LSS => 8 case LEQ => 9 case NEQ => 10 case EQL => 11 case GTR => 12 case GEQ => 13)
    case Tuple(_, op, _) =>
      (match op
       case ADD => 1 case MUL => 2 case AND => 3 case OR => 4 case XOR => 5 case MAX => 6 case MIN => 7
       case COMMA => 8)
  }

  /** Header::order(). */
  function Order(e: Expr): nat { TypeCode(e) * 0x100_0000 + KindCode(e.kind) * 0x1_0000 + OpCode(e) }

  /** Header::operator==: type, kind and op. */
  predicate SameHeader(a: Expr, b: Expr) {
    TypeCode(a) == TypeCode(b) && a.kind == b.kind && OpCode(a) == OpCode(b)
  }

  /** The order of headers tells all headers apart. */
  lemma OrderExact(a: Expr, b: Expr)
    ensures Order(a) == Order(b) <==> SameHeader(a, b)
  {
    KindBack(a.kind);
    KindBack(b.kind);
  }

  lemma SameOperator(a: Expr, b: Expr)
    requires SameHeader(a, b)
    ensures a.Unary? ==> b.Unary? && a.op1 == b.op1
    ensures a.Binary? ==> b.Binary? && a.op2 == b.op2
    ensures a.Tuple? ==> b.Tuple? && a.opn == b.opn
    ensures a.Var? ==> b.Var?
    ensures a.Const? ==> b.Const?
  {
  }

  // ---------------------------------------------------------------- direct leaves

  /** The 32 bits that stand for a leaf in its parent, or zero for a node that has an offset instead. */
  function DirectData(e: Expr): nat {
    match e
    case Var(k, id) => EncodeLocal(k, id)
    case Const(k, n) => Encode(k, n)
    case _ => 0
  }

  predicate IsDirect(e: Expr) { DirectData(e) != 0 }

  /** Every leaf is direct, and is a leaf that its 32 bits can say. */
  predicate DirectLeaves(e: Expr)
    decreases e, 1
  {
    match e
    case Var(_, id) => id < 0x20_0000
    case Const(k, n) => Canonical(k, n) && IsDirect(e)
    case Unary(_, _, x) => DirectLeaves(x)
    case Binary(_, _, x, y) => DirectLeaves(x) && DirectLeaves(y)
    case Tuple(_, _, args) => AllDirectLeaves(args)
  }

  predicate AllDirectLeaves(es: seq<Expr>)
    decreases es, 0
  {
    es == [] || (DirectLeaves(es[0]) && AllDirectLeaves(es[1..]))
  }

  // ---------------------------------------------------------------- deep_equal

  /** is_allowed() for the only mask bit that matters without calls and memory. */
  predicate Allowed(e: Expr, division: bool) { division || !(e.Binary? && (e.op2 == QUO || e.op2 == REM)) }

  predicate DeepEqual(a: Expr, b: Expr, division: bool)
    decreases a, 1
  {
    && IsDirect(a) == IsDirect(b) && SameHeader(a, b) && Allowed(a, division)
    && if IsDirect(a) then DirectData(a) == DirectData(b)
       else
         match a
         case Unary(_, _, x) => DeepEqual(x, b.x, division)
         case Binary(_, _, x, y) => DeepEqual(x, b.x, division) && DeepEqual(y, b.y, division)
         case Tuple(_, _, args) => AllEqual(args, b.args, division)
         case _ => true
  }

  predicate AllEqual(as_: seq<Expr>, bs: seq<Expr>, division: bool)
    decreases as_, 0
  {
    |as_| == |bs| && (as_ == [] || (DeepEqual(as_[0], bs[0], division) && AllEqual(as_[1..], bs[1..], division)))
  }

  /** No division at all, or divisions are allowed. */
  predicate DeepPure(e: Expr, division: bool)
    decreases e, 1
  {
    Allowed(e, division)
    && match e
       case Var(_, _) => true
       case Const(_, _) => true
       case Unary(_, _, x) => DeepPure(x, division)
       case Binary(_, _, x, y) => DeepPure(x, division) && DeepPure(y, division)
       case Tuple(_, _, args) => AllPure(args, division)
  }

  predicate AllPure(es: seq<Expr>, division: bool)
    decreases es, 0
  {
    es == [] || (DeepPure(es[0], division) && AllPure(es[1..], division))
  }

  /** On leaves of one kind, deep_equal() is equality, except that it takes any two indirect ones for
      equal. */
  lemma LeavesEqualExact(a: Expr, b: Expr, division: bool)
    requires a.kind == b.kind
    requires (a.Const? && b.Const? && Canonical(a.kind, a.num) && Canonical(b.kind, b.num))
      || (a.Var? && b.Var? && a.id < MAX_ID && b.id < MAX_ID)
    ensures DeepEqual(a, b, division) <==> a == b || (!IsDirect(a) && !IsDirect(b))
  {
    if IsDirect(a) && DirectData(a) == DirectData(b) {
      DirectSame(a, b);
    }
  }

  lemma DirectSame(a: Expr, b: Expr)
    requires SameHeader(a, b) && IsDirect(a) && DirectData(a) == DirectData(b)
    requires a.Const? ==> Canonical(a.kind, a.num) && Canonical(b.kind, b.num)
    requires a.Var? ==> a.id < MAX_ID && b.id < MAX_ID
    ensures a == b
  {
    if a.Const? {
      EncodeInjective(a.kind, a.num, b.num);
    } else {
      LocalExact(a.kind, a.id);
      LocalExact(b.kind, b.id);
    }
  }

  lemma DirectLeaf(e: Expr)
    requires DirectLeaves(e) && (e.Var? || e.Const?)
    ensures IsDirect(e)
  {
    if e.Var? {
      LocalExact(e.kind, e.id);
    }
  }

  /** On trees whose leaves are direct, deep_equal() is equality of trees without a forbidden division. */
  lemma {:induction false} DeepEqualExact(a: Expr, b: Expr, division: bool)
    requires DirectLeaves(a) && DirectLeaves(b)
    ensures DeepEqual(a, b, division) <==> a == b && DeepPure(a, division)
    decreases a, 1
  {
    if SameHeader(a, b) {
      SameOperator(a, b);
      match a
      case Var(_, _) => LeafEqual(a, b);
      case Const(_, _) => LeafEqual(a, b);
      case Unary(_, _, x) => DeepEqualExact(x, b.x, division);
      case Binary(_, _, x, y) =>
        DeepEqualExact(x, b.x, division);
        DeepEqualExact(y, b.y, division);
      case Tuple(_, _, args) => AllEqualExact(args, b.args, division);
    }
  }

  lemma LeafEqual(a: Expr, b: Expr)
    requires DirectLeaves(a) && DirectLeaves(b) && SameHeader(a, b) && (a.Var? || a.Const?)
    ensures DirectData(a) == DirectData(b) <==> a == b
    ensures IsDirect(a) && IsDirect(b)
  {
    DirectLeaf(a);
    DirectLeaf(b);
    if DirectData(a) == DirectData(b) {
      DirectSame(a, b);
    }
  }

  lemma {:induction false} AllEqualExact(as_: seq<Expr>, bs: seq<Expr>, division: bool)
    requires AllDirectLeaves(as_) && AllDirectLeaves(bs)
    ensures AllEqual(as_, bs, division) <==> as_ == bs && AllPure(as_, division)
    decreases as_, 0
  {
    if |as_| == |bs| && as_ != [] {
      DeepEqualExact(as_[0], bs[0], division);
      AllEqualExact(as_[1..], bs[1..], division);
      assert as_ == [as_[0]] + as_[1..] && bs == [bs[0]] + bs[1..];
    }
  }

  /** deep_pure() in the form the source has it: a loop that goes down the last child. */
  method IsDeepPure(e: Expr, division: bool) returns (pure: bool)
    ensures pure == DeepPure(e, division)
    decreases Size(e)
  {
    var node := e;
    while true
      invariant Size(node) <= Size(e)
      invariant DeepPure(node, division) == DeepPure(e, division)
      decreases Size(node)
    {
      if node.Var? || node.Const? {
        return true;
      }
      if !Allowed(node, division) {
        return false;
      }
      match node
      case Unary(_, _, x) => node := x;
      case Binary(_, _, x, y) =>
        var first := IsDeepPure(x, division);
        if !first {
          return false;
        }
        node := y;
      case Tuple(_, _, args) =>
        var n := |args|;
        if n == 0 {
          return true;
        }
        for i := 0 to n - 1
          invariant AllPure(args, division) == AllPure(args[i..], division)
        {
          ChildSize(args, i);
          assert args[i..][1..] == args[i + 1..];
          var first := IsDeepPure(args[i], division);
          if !first {
            return false;
          }
        }
        ChildSize(args, n - 1);
        assert args[n - 1..] == [args[n - 1]];
        node := args[n - 1];
    }
  }

  lemma {:induction false} ChildSize(es: seq<Expr>, i: nat)
    requires i < |es|
    ensures Size(es[i]) <= SizeAll(es)
  {
    if i > 0 {
      ChildSize(es[1..], i - 1);
    }
  }

  // ---------------------------------------------------------------- deep_compare

  function Sign(a: int, b: int): int { if a < b then -1 else if a > b then 1 else 0 }

  function DeepCompare(a: Expr, b: Expr): int
    decreases a, 1
  {
    if !SameHeader(a, b) then (if Order(a) < Order(b) then -1 else 1)
    else if IsDirect(a) != IsDirect(b) then (if IsDirect(a) then -1 else 1)
    else if IsDirect(a) then Sign(DirectData(a), DirectData(b))
    else
      match a
      case Unary(_, _, x) => DeepCompare(x, b.x)
      case Binary(_, _, x, y) => var c := DeepCompare(x, b.x); if c != 0 then c else DeepCompare(y, b.y)
      case Tuple(_, _, args) => CompareAll(args, b.args)
      case _ => 0
  }

  function CompareAll(as_: seq<Expr>, bs: seq<Expr>): int
    decreases as_, 0
  {
    if as_ == [] || bs == [] then Sign(|as_|, |bs|)
    else
      var c := DeepCompare(as_[0], bs[0]);
      if c != 0 then c else CompareAll(as_[1..], bs[1..])
  }

  /** The comparison of the other way round is the opposite. */
  lemma {:induction false} CompareSwap(a: Expr, b: Expr)
    ensures DeepCompare(b, a) == -DeepCompare(a, b) && -1 <= DeepCompare(a, b) <= 1
    decreases a, 1
  {
    OrderExact(a, b);
    if SameHeader(a, b) && !IsDirect(a) && !IsDirect(b) {
      SameOperator(a, b);
      match a
      case Unary(_, _, x) => CompareSwap(x, b.x);
      case Binary(_, _, x, y) => CompareSwap(x, b.x); CompareSwap(y, b.y);
      case Tuple(_, _, args) => CompareAllSwap(args, b.args);
      case _ =>
    }
  }

  lemma {:induction false} CompareAllSwap(as_: seq<Expr>, bs: seq<Expr>)
    ensures CompareAll(bs, as_) == -CompareAll(as_, bs) && -1 <= CompareAll(as_, bs) <= 1
    decreases as_, 0
  {
    if as_ != [] && bs != [] {
      CompareSwap(as_[0], bs[0]);
      CompareAllSwap(as_[1..], bs[1..]);
    }
  }

  /** deep_compare() is transitive, also through equivalent nodes: with CompareSwap, its `< 0` is a
      strict weak order. */
  lemma {:induction false} CompareTransitive(a: Expr, b: Expr, c: Expr)
    requires DeepCompare(a, b) <= 0 && DeepCompare(b, c) <= 0
    ensures DeepCompare(a, c) <= 0
    ensures DeepCompare(a, b) < 0 || DeepCompare(b, c) < 0 ==> DeepCompare(a, c) < 0
    decreases Size(a) + Size(b) + Size(c), 0
  {
    OrderExact(a, b);
    OrderExact(b, c);
    OrderExact(a, c);
    if SameHeader(a, b) && SameHeader(b, c) && !IsDirect(a) && !IsDirect(b) && !IsDirect(c) {
      SameOperator(a, b);
      SameOperator(b, c);
      match a
      case Unary(_, _, x) => CompareTransitive(x, b.x, c.x);
      case Binary(_, _, x, y) =>
        CompareTransitive(x, b.x, c.x);
        if DeepCompare(x, b.x) == 0 && DeepCompare(b.x, c.x) == 0 {
          CompareTransitive(y, b.y, c.y);
          CompareSwap(x, b.x);
          CompareSwap(b.x, c.x);
          CompareTransitive(c.x, b.x, x);
          CompareSwap(c.x, x);
        }
      case Tuple(_, _, args) => CompareAllTransitive(args, b.args, c.args);
      case _ =>
    }
  }

  lemma {:induction false} CompareAllTransitive(as_: seq<Expr>, bs: seq<Expr>, cs: seq<Expr>)
    requires CompareAll(as_, bs) <= 0 && CompareAll(bs, cs) <= 0
    ensures CompareAll(as_, cs) <= 0
    ensures CompareAll(as_, bs) < 0 || CompareAll(bs, cs) < 0 ==> CompareAll(as_, cs) < 0
    decreases SizeAll(as_) + SizeAll(bs) + SizeAll(cs), 1
  {
    if as_ != [] && bs != [] && cs != [] {
      CompareTransitive(as_[0], bs[0], cs[0]);
      if DeepCompare(as_[0], bs[0]) == 0 && DeepCompare(bs[0], cs[0]) == 0 {
        CompareAllTransitive(as_[1..], bs[1..], cs[1..]);
        CompareSwap(as_[0], bs[0]);
        CompareSwap(bs[0], cs[0]);
        CompareTransitive(cs[0], bs[0], as_[0]);
        CompareSwap(cs[0], as_[0]);
      }
    }
  }

  /** Equivalent nodes are exactly the deeply equal ones, and equal when their leaves are direct. */
  lemma {:induction false} CompareZero(a: Expr, b: Expr)
    ensures DeepCompare(a, b) == 0 <==> DeepEqual(a, b, true)
    decreases a, 1
  {
    OrderExact(a, b);
    if SameHeader(a, b) && !IsDirect(a) && !IsDirect(b) {
      SameOperator(a, b);
      match a
      case Unary(_, _, x) => CompareZero(x, b.x);
      case Binary(_, _, x, y) => CompareZero(x, b.x); CompareZero(y, b.y);
      case Tuple(_, _, args) => CompareAllZero(args, b.args);
      case _ =>
    }
  }

  lemma {:induction false} CompareAllZero(as_: seq<Expr>, bs: seq<Expr>)
    ensures CompareAll(as_, bs) == 0 <==> AllEqual(as_, bs, true)
    decreases as_, 0
  {
    if as_ != [] && bs != [] {
      CompareZero(as_[0], bs[0]);
      CompareAllZero(as_[1..], bs[1..]);
    }
  }

  /** Constants come last. */
  lemma ConstantsLast(a: Expr, b: Expr)
    requires a.Const? && DeepCompare(a, b) <= 0
    ensures b.Const?
  {
    OrderExact(a, b);
  }

  /** The order of nodes by their headers: variables, unary, binary, tuples, constants; nodes of one type by the number of
      the kind, then by that of the operator; and nodes of one header with the direct ones first, in the order of their
      data. */
  lemma HeaderDecides(a: Expr, b: Expr)
    ensures a.Var? && !b.Var? ==> DeepCompare(a, b) < 0
    ensures a.Unary? && !b.Var? && !b.Unary? ==> DeepCompare(a, b) < 0
    ensures a.Binary? && (b.Tuple? || b.Const?) ==> DeepCompare(a, b) < 0
    ensures a.Tuple? && b.Const? ==> DeepCompare(a, b) < 0
    ensures TypeCode(a) == TypeCode(b) && KindCode(a.kind) < KindCode(b.kind) ==> DeepCompare(a, b) < 0
    ensures TypeCode(a) == TypeCode(b) && a.kind == b.kind && OpCode(a) < OpCode(b) ==> DeepCompare(a, b) < 0
    ensures SameHeader(a, b) && IsDirect(a) ==> (DeepCompare(a, b) < 0 <==> !IsDirect(b) || DirectData(a) < DirectData(b))
  {
    OrderExact(a, b);
  }

  /** Nodes of one header with offsets are compared by their operands, from the left. */
  lemma OperandsDecide(a: Expr, b: Expr)
    requires SameHeader(a, b) && !IsDirect(a) && !IsDirect(b)
    ensures a.Unary? ==> b.Unary? && DeepCompare(a, b) == DeepCompare(a.x, b.x)
    ensures a.Binary? ==> b.Binary? && if DeepCompare(a.x, b.x) != 0 then DeepCompare(a, b) == DeepCompare(a.x, b.x)
      else DeepCompare(a, b) == DeepCompare(a.y, b.y)
    ensures a.Tuple? ==> b.Tuple? && DeepCompare(a, b) == CompareAll(a.args, b.args)
  {
    SameOperator(a, b);
  }

  /** Of two lists of operands, the first two that differ decide, and else the number of operands. */
  lemma {:induction false} FirstDecides(as_: seq<Expr>, bs: seq<Expr>, i: nat)
    requires i <= |as_| && i <= |bs| && forall j :: 0 <= j < i ==> DeepCompare(as_[j], bs[j]) == 0
    ensures i < |as_| && i < |bs| && DeepCompare(as_[i], bs[i]) != 0 ==> CompareAll(as_, bs) == DeepCompare(as_[i], bs[i])
    ensures i == |as_| < |bs| ==> CompareAll(as_, bs) == -1
    ensures i == |bs| < |as_| ==> CompareAll(as_, bs) == 1
    decreases i
  {
    if i > 0 {
      FirstDecides(as_[1..], bs[1..], i - 1);
    }
  }
}
