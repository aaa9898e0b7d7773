/** Expressions in the buffer: every expression is written as a tree that reads back as the same
    expression. */
module ExprCodec {
  import opened Values
  import opened Ir
  import opened Imm
  import opened Nodes
  import opened Codec
  import opened CodecWriter
  import opened Codes

  function NodeHeader(e: Expr): Header { Header(TypeCode(e), KindCode(e.kind), OpCode(e)) }

  function TreeOf(e: Expr): Tree
    decreases e, 1
  {
    match e
    case Var(k, id) => if IsDirect(e) then Leaf(EncodeLocal(k, id)) else Tree.Node(NodeHeader(e), [id], [])
    case Const(k, n) => if IsDirect(e) then Leaf(Encode(k, n)) else Tree.Node(NodeHeader(e), ConstWords(k, n), [])
    case Unary(_, _, x) => Tree.Node(NodeHeader(e), [], [TreeOf(x)])
    case Binary(_, _, x, y) => Tree.Node(NodeHeader(e), [], [TreeOf(x), TreeOf(y)])
    case Tuple(_, _, args) => Tree.Node(NodeHeader(e), [], TreesOf(args))
  }

  function TreesOf(es: seq<Expr>): (r: seq<Tree>)
    ensures |r| == |es|
    decreases es, 0
  {
    if es == [] then [] else [TreeOf(es[0])] + TreesOf(es[1..])
  }

  // ---------------------------------------------------------------- reading an expression

  /** The number that 64 bits of a kind stand for. */
  function NumOf(k: Kind, bits: nat): int {
    if IsSigned(k) && bits >= 0x8000_0000_0000_0000 then bits - W64 else bits
  }

  function Op1Of(n: nat): Op1 {
    match n
    case 1 => XOR1
    case 2 => NOT1
    case 3 => NEG1
    case 4 => CAST
    case _ => BITCOPY
  }

  function Op2Of(n: nat): Op2 {
    match n
    case 1 => SUB
    case 2 => QUO
    case 3 => REM
    case 4 => SHL
    case 5 => SHR
    case 6 => LAND
    case 7 => LOR
    case 8 => LSS
    case 9 => LEQ
    case 10 => NEQ
    case 11 => EQL
    case 12 => GTR
    case _ => GEQ
  }

  function OpNOf(n: nat): OpN {
    match n
    case 1 => ADD
    case 2 => MUL
    case 3 => AND
    case 4 => OR
    case 5 => XOR
    case 6 => MAX
    case 7 => MIN
    case _ => COMMA
  }

  /** The expression that a tree stands for; a tree that is none gives VoidConst. */
  function ExprOf(t: Tree): Expr
    decreases t, 1
  {
    match t
    case Leaf(item) =>
      if item % 2 == 1 then (var d := Decode(item); Const(d.0, NumOf(d.0, d.1)))
      else (var d := DecodeLocal(item); Var(d.0, d.1))
    case Node(h, data, children) =>
      var k := KindOf(h.kind);
      if h.type_ == T_VAR && |data| == 1 then Var(k, data[0])
      else if h.type_ == T_CONST && |data| == (if BitSize(k) == 64 then 2 else 1) then
        Const(k, NumOf(k, ConstBits(k, data)))
      else if h.type_ == 8 && |children| == 1 then Unary(k, Op1Of(h.op), ExprOf(children[0]))
      else if h.type_ == 9 && |children| == 2 then Binary(k, Op2Of(h.op), ExprOf(children[0]), ExprOf(children[1]))
      else if h.type_ == T_TUPLE then Tuple(k, OpNOf(h.op), ExprsOf(children))
      else VOID_CONST
  }

  function ExprsOf(ts: seq<Tree>): seq<Expr>
    decreases ts, 0
  {
    if ts == [] then [] else [ExprOf(ts[0])] + ExprsOf(ts[1..])
  }

  /** The leaves that the buffer can hold without loss: no int32 that is negative and not direct. */
  predicate Storable(e: Expr)
    decreases e, 1
  {
    match e
    case Var(_, id) => id < MAX_ID
    case Const(k, n) => Canonical(k, n) && (IsDirect(e) || BitSize(k) == 64 || n >= 0)
    case Unary(_, _, x) => Storable(x)
    case Binary(_, _, x, y) => Storable(x) && Storable(y)
    case Tuple(_, _, args) => |args| < W32 && AllStorable(args)
  }

  predicate AllStorable(es: seq<Expr>)
    decreases es, 0
  {
    es == [] || (Storable(es[0]) && AllStorable(es[1..]))
  }

  lemma NumBack(k: Kind, n: int)
    requires Canonical(k, n)
    ensures NumOf(k, Bits64(n)) == n
  {
    WordRange(k, n);
    if n < 0 {
      ModPeriod(n, 1, W64);
      SmallMod(n + W64, W64);
    } else {
      SmallMod(n, W64);
    }
  }

  lemma OpsBack(e: Expr)
    ensures e.Unary? ==> Op1Of(OpCode(e)) == e.op1
    ensures e.Binary? ==> Op2Of(OpCode(e)) == e.op2
    ensures e.Tuple? ==> OpNOf(OpCode(e)) == e.opn
  {
  }

  lemma ConstBack(e: Expr)
    requires e.Const? && Storable(e)
    ensures ValidTree(TreeOf(e)) && ExprOf(TreeOf(e)) == e
  {
    KindBack(e.kind);
    NumBack(e.kind, e.num);
    if e.kind == Void {
      VoidBack(e);
    } else if IsDirect(e) {
      EncodeExact(e.kind, e.num);
      TagsDiffer(e.kind, e.num, e.kind, 0);
    } else {
      IndirectBack(e);
    }
  }

  lemma VoidBack(e: Expr)
    requires e.Const? && e.kind == Void && Canonical(Void, e.num)
    ensures ValidTree(TreeOf(e)) && ExprOf(TreeOf(e)) == e
  {
    WordRange(Void, e.num);
    assert Encode(Void, 0) == 3 && Decode(3) == (Void, 0);
  }

  lemma IndirectBack(e: Expr)
    requires e.Const? && e.kind != Void && Canonical(e.kind, e.num) && !IsDirect(e)
    requires BitSize(e.kind) == 64 || e.num >= 0
    ensures ValidTree(TreeOf(e)) && ExprOf(TreeOf(e)) == e
  {
    KindBack(e.kind);
    NumBack(e.kind, e.num);
    ConstExact(e.kind, e.num);
    assert TreeOf(e) == Tree.Node(NodeHeader(e), ConstWords(e.kind, e.num), []);
  }

  lemma VarBack(e: Expr)
    requires e.Var? && Storable(e)
    ensures ValidTree(TreeOf(e)) && ExprOf(TreeOf(e)) == e
  {
    KindBack(e.kind);
    LocalExact(e.kind, e.id);
    TagOfLocal(LocalWord(e.kind, e.id));
  }

  /** The tree of an expression can be written, and stands for that expression only. */
  lemma {:induction false} ExprBack(e: Expr)
    requires Storable(e)
    ensures ValidTree(TreeOf(e)) && ExprOf(TreeOf(e)) == e
    decreases e, 1
  {
    KindBack(e.kind);
    OpsBack(e);
    match e
    case Var(_, _) => VarBack(e);
    case Const(_, _) => ConstBack(e);
    case Unary(_, _, x) =>
      ExprBack(x);
      assert [TreeOf(x)][1..] == [] && AllValid([TreeOf(x)]);
    case Binary(_, _, x, y) =>
      ExprBack(x);
      ExprBack(y);
      assert [TreeOf(x), TreeOf(y)][1..] == [TreeOf(y)] && [TreeOf(y)][1..] == [];
      assert AllValid([TreeOf(y)]);
    case Tuple(_, _, args) => ExprsBack(args);
  }

  lemma {:induction false} ExprsBack(es: seq<Expr>)
    requires AllStorable(es)
    ensures AllValid(TreesOf(es)) && ExprsOf(TreesOf(es)) == es
    decreases es, 0
  {
    if es != [] {
      ExprBack(es[0]);
      ExprsBack(es[1..]);
      assert TreesOf(es)[1..] == TreesOf(es[1..]);
      assert es == [es[0]] + es[1..];
    }
  }

  /** Writing an expression into a buffer and reading it gives the expression back. */
  lemma StoreLoad(code: seq<nat>, e: Expr)
    requires Storable(e) && 4 * |Write(code, TreeOf(e)).code| <= W32
    ensures var w := Write(code, TreeOf(e));
      && Codec.Read(w.code, w.ref, Height(TreeOf(e))).Some?
      && ExprOf(Codec.Read(w.code, w.ref, Height(TreeOf(e))).value) == e
  {
    ExprBack(e);
    WriteReads(code, TreeOf(e));
  }
}
