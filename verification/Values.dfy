/** Kinds and constant values: onejit/kind.cpp, onejit/value.cpp.
    The 64 bits of a Value are kept as `num`, their int64 reading for the signed integer kinds
    and their uint64 reading for every other kind; the two readings determine each other. */
module Values {
  import opened Bits

  datatype Kind = Void | Bool | Int8 | Int16 | Int32 | Int64 | Uint8 | Uint16 | Uint32 | Uint64 | Ptr

  function BitSize(k: Kind): nat {
    match k
    case Void => 0
    case Bool => 1
    case Int8 => 8
    case Uint8 => 8
    case Int16 => 16
    case Uint16 => 16
    case Int32 => 32
    case Uint32 => 32
    case Int64 => 64
    case Uint64 => 64
    case Ptr => 64
  }

  predicate IsSigned(k: Kind) { k.Int8? || k.Int16? || k.Int32? || k.Int64? }

  function Modulus(k: Kind): (m: int)
    ensures m > 0
  {
    Pow2(BitSize(k))
  }

  /** What extend_or_truncate() leaves of a number: its low bits, sign-extended for signed kinds. */
  function Wrap(k: Kind, x: int): int { Reduce(Modulus(k), IsSigned(k), x) }

  function Reduce(m: int, signed: bool, x: int): int
    requires m > 0
  {
    if signed && 2 * (x % m) >= m then x % m - m else x % m
  }

  predicate Canonical(k: Kind, n: int) { Wrap(k, n) == n }

  /** Invalid is the kind-less Value{}; it also stands for results C++ leaves undefined. */
  datatype Value = Invalid | Val(kind: Kind, num: int)

  predicate CanonicalOf(k: Kind, v: Value) { v.Val? && v.kind == k && Canonical(k, v.num) }

  // ---------------------------------------------------------------- operators

  datatype Op1 = XOR1 | NOT1 | NEG1 | CAST | BITCOPY
  datatype Op2 = SUB | QUO | REM | SHL | SHR | LAND | LOR | LSS | LEQ | NEQ | EQL | GTR | GEQ
  datatype OpN = ADD | MUL | AND | OR | XOR | MAX | MIN | COMMA

  predicate IsComparison(op: Op2) { op in {LSS, LEQ, NEQ, EQL, GTR, GEQ} }
  predicate IsCommutative(op: OpN) { op != COMMA }
  predicate IsBitwise(op: OpN) { op == AND || op == OR || op == XOR }

  function SwapComparison(op: Op2): Op2 {
    match op
    case LSS => GTR
    case LEQ => GEQ
    case GTR => LSS
    case GEQ => LEQ
    case _ => op
  }

  function NotComparison(op: Op2): Op2 {
    match op
    case LSS => GEQ
    case LEQ => GTR
    case NEQ => EQL
    case EQL => NEQ
    case GTR => LEQ
    case GEQ => LSS
    case _ => op
  }

  predicate Compare(op: Op2, a: int, b: int)
    requires IsComparison(op)
  {
    match op
    case LSS => a < b
    case LEQ => a <= b
    case NEQ => a != b
    case EQL => a == b
    case GTR => a > b
    case GEQ => a >= b
  }

  function FromBool(b: bool): Value { Val(Bool, if b then 1 else 0) }

  /** C++ `bool(v)`: false for zero and for Value{}. */
  predicate Truth(v: Value) { v.Val? && v.num != 0 }

  /** C++ `bool(a == b)`, where the operator gives Value{} when the kinds differ. */
  predicate SameValue(a: Value, b: Value) { a.Val? && b.Val? && a == b }

  function Cast(v: Value, to: Kind): Value {
    if v.Invalid? then Val(to, 0) else if v.kind == to then v else Val(to, Wrap(to, v.num))
  }

  function BitCopy(v: Value, to: Kind): Value { Val(to, Wrap(to, if v.Val? then v.num else 0)) }

  function TruncDiv(a: int, b: int): int
    requires b != 0
  {
    if a >= 0 then (if b > 0 then a / b else -(a / -b))
    else if b > 0 then -(-a / b) else -a / -b
  }

  /** Division by zero, and the one quotient that int64 cannot hold. */
  predicate DivisionTraps(k: Kind, a: int, b: int) {
    b == 0 || (IsSigned(k) && a == -Pow2(63) && b == -1)
  }

  function EvalUnaryOp(kind: Kind, op: Op1, x: Value): Value {
    match op
    case XOR1 => if x.Val? then Val(x.kind, Wrap(x.kind, -x.num - 1)) else Invalid
    case NOT1 => FromBool(!Truth(x))
    case NEG1 => if x.Val? then Val(x.kind, Wrap(x.kind, -x.num)) else Invalid
    case CAST => Cast(x, kind)
    case BITCOPY => BitCopy(x, kind)
  }

  function EvalArithmetic(op: Op2, k: Kind, a: int, b: int): Value {
    match op
    case SUB => Val(k, Wrap(k, a - b))
    case QUO => if DivisionTraps(k, a, b) then Invalid else Val(k, Wrap(k, TruncDiv(a, b)))
    case REM => if DivisionTraps(k, a, b) then Invalid else Val(k, Wrap(k, a - b * TruncDiv(a, b)))
    case SHL => if 0 <= b < 64 then Val(k, Wrap(k, a * Pow2(b))) else Invalid
    case SHR => if 0 <= b < 64 then Val(k, Wrap(k, a / Pow2(b))) else Invalid
    case _ => Invalid
  }

  function EvalBinaryOp(op: Op2, x: Value, y: Value): Value {
    if x.Invalid? || y.Invalid? || x.kind != y.kind then Invalid
    else if op == LAND || op == LOR then
      (if x.kind != Bool then Invalid
      else if op == LAND then FromBool(x.num != 0 && y.num != 0)
      else FromBool(x.num != 0 || y.num != 0))
    else if IsComparison(op) then FromBool(Compare(op, x.num, y.num))
    else EvalArithmetic(op, x.kind, x.num, y.num)
  }

  // ------------------------------------------------- identity and absorbing elements

  function MinValue(k: Kind): Value {
    if !IsSigned(k) then Val(k, 0)
    else if k == Int64 then Val(k, -Pow2(63))
    else Val(k, Pow2(BitSize(k) - 1)) // bits 1 << (bitsize - 1), which nothing sign-extends
  }

  function MaxValue(k: Kind): Value {
    Val(k, if IsSigned(k) then Pow2(BitSize(k) - 1) - 1 else Modulus(k) - 1)
  }

  function Identity2(k: Kind, op: Op2): Value {
    match op
    case SUB => Val(k, 0)
    case SHL => Val(k, 0)
    case SHR => Val(k, 0)
    case QUO => Val(k, Wrap(k, 1))
    case _ => Invalid
  }

  function IdentityN(k: Kind, op: OpN): Value {
    match op
    case MUL => Val(k, Wrap(k, 1))
    case AND => Val(k, Wrap(k, -1))
    case MAX => MinValue(k)
    case MIN => MaxValue(k)
    case _ => Val(k, 0)
  }

  function AbsorbingN(k: Kind, op: OpN): Value {
    match op
    case OR => Val(k, Wrap(k, -1))
    case MUL => Val(k, 0)
    case AND => Val(k, 0)
    case MAX => MaxValue(k)
    case MIN => MinValue(k)
    case _ => Invalid
  }

  // ---------------------------------------------------------------- tuples

  function Join(k: Kind, op: OpN, a: int, b: int): int {
    match op
    case ADD => Wrap(k, a + b)
    case MUL => Wrap(k, a * b)
    case AND => BitOp(AndFn, a, b)
    case OR => BitOp(OrFn, a, b)
    case XOR => BitOp(XorFn, a, b)
    case MAX => if a < b then b else a
    case MIN => if a < b then a else b
    case COMMA => b
  }

  /** One turn of the loops in eval_tuple_op(). */
  function TupleStep(op: OpN, x: Value, v: Value): Value {
    if x.Invalid? || v.Invalid? || x.kind != v.kind then Invalid
    else Val(x.kind, Join(x.kind, op, x.num, v.num))
  }

  function FoldFrom(op: OpN, x: Value, vs: seq<Value>): Value
    decreases |vs|
  {
    if vs == [] then x else FoldFrom(op, TupleStep(op, x, vs[0]), vs[1..])
  }

  function EvalTupleOp(k: Kind, op: OpN, vs: seq<Value>): Value {
    if op != COMMA then FoldFrom(op, IdentityN(k, op), vs)
    else if Invalid in vs then Invalid
    else if vs == [] then IdentityN(k, op)
    else vs[|vs| - 1]
  }

  /** The loops of eval_tuple_op() in the form the source has them. */
  method EvalTuple(k: Kind, op: OpN, vs: seq<Value>) returns (x: Value)
    ensures x == EvalTupleOp(k, op, vs)
  {
    x := IdentityN(k, op);
    if op == COMMA {
      if |vs| > 0 {
        for i := 0 to |vs|
          invariant forall j :: 0 <= j < i ==> vs[j].Val?
        {
          if vs[i].Invalid? {
            return Invalid;
          }
        }
        x := vs[|vs| - 1];
      }
      return;
    }
    for i := 0 to |vs|
      invariant FoldFrom(op, x, vs[i..]) == FoldFrom(op, IdentityN(k, op), vs)
    {
      assert vs[i..][1..] == vs[i + 1..];
      x := TupleStep(op, x, vs[i]);
    }
  }

  // ---------------------------------------------------------------- laws of Wrap

  lemma SmallMultiple(d: int, m: int)
    requires m > 0
    ensures d >= 1 ==> d * m >= m
    ensures d <= -1 ==> d * m <= -m
  {
    if d >= 1 {
      assert (d - 1) * m >= 0;
    } else if d <= -1 {
      assert (-d - 1) * m >= 0;
    }
  }

  lemma DivUnique(a: nat, m: nat, q: nat, r: nat)
    requires m > 0 && a == q * m + r && r < m
    ensures a / m == q && a % m == r
  {
    var d := a / m - q;
    assert d * m == r - a % m;
    SmallMultiple(d, m);
  }

  lemma ModPeriod(x: int, q: int, m: int)
    requires m > 0
    ensures (x + q * m) % m == x % m
  {
    var d := (x + q * m) / m - x / m - q;
    assert d * m == x % m - (x + q * m) % m;
    SmallMultiple(d, m);
  }

  lemma SmallMod(x: int, m: int)
    requires 0 <= x < m
    ensures x % m == x
  {
  }

  lemma ReducePeriod(m: int, signed: bool, x: int, q: int)
    requires m > 0
    ensures Reduce(m, signed, x + q * m) == Reduce(m, signed, x)
  {
    ModPeriod(x, q, m);
  }

  lemma ReduceShift(m: int, signed: bool, x: int) returns (q: int)
    requires m > 0
    ensures Reduce(m, signed, x) == x + q * m
  {
    assert x == x / m * m + x % m;
    q := -(x / m);
    if signed && 2 * (x % m) >= m {
      q := q - 1;
    }
  }

  lemma ReduceIdempotent(m: int, signed: bool, a: int)
    requires m > 0
    ensures Reduce(m, signed, Reduce(m, signed, a)) == Reduce(m, signed, a)
  {
    var q := ReduceShift(m, signed, a);
    ReducePeriod(m, signed, a, q);
  }

  lemma ReduceSum(m: int, signed: bool, a: int, b: int)
    requires m > 0
    ensures Reduce(m, signed, Reduce(m, signed, a) + b) == Reduce(m, signed, a + b)
    ensures Reduce(m, signed, b - Reduce(m, signed, a)) == Reduce(m, signed, b - a)
  {
    var q := ReduceShift(m, signed, a);
    ReducePeriod(m, signed, a + b, q);
    ReducePeriod(m, signed, b - a, -q);
    assert b - (a + q * m) == b - a + -q * m;
  }

  lemma Distribute(a: int, q: int, m: int, b: int)
    ensures (a + q * m) * b == a * b + (q * b) * m
  {
    assert (q * m) * b == (q * b) * m;
  }

  lemma ReduceProduct(m: int, signed: bool, a: int, b: int)
    requires m > 0
    ensures Reduce(m, signed, Reduce(m, signed, a) * b) == Reduce(m, signed, a * b)
  {
    var q := ReduceShift(m, signed, a);
    Distribute(a, q, m, b);
    ReducePeriod(m, signed, a * b, q * b);
  }

  lemma WrapCanonical(k: Kind, a: int)
    ensures Canonical(k, Wrap(k, a))
  {
    ReduceIdempotent(Modulus(k), IsSigned(k), a);
  }

  /** Wrap is idempotent and respects sums, products and differences. */
  lemma WrapHomomorphism(k: Kind, a: int, b: int)
    ensures Canonical(k, Wrap(k, a))
    ensures Wrap(k, Wrap(k, a) + b) == Wrap(k, a + b)
    ensures Wrap(k, Wrap(k, a) * b) == Wrap(k, a * b)
    ensures Wrap(k, b - Wrap(k, a)) == Wrap(k, b - a)
  {
    ReduceIdempotent(Modulus(k), IsSigned(k), a);
    ReduceSum(Modulus(k), IsSigned(k), a, b);
    ReduceProduct(Modulus(k), IsSigned(k), a, b);
  }

  lemma ReduceRange(m: int, h: int, n: int)
    requires m > 0
    ensures Reduce(m, false, n) == n <==> 0 <= n < m
    ensures m == 2 * h ==> (Reduce(m, true, n) == n <==> -h <= n < h)
  {
    if 0 <= n < m {
      SmallMod(n, m);
    } else if -m <= n < 0 {
      ModPeriod(n, 1, m);
      SmallMod(n + m, m);
    }
  }

  lemma CanonicalRange(k: Kind, n: int)
    ensures Canonical(k, n) <==>
      if IsSigned(k) then -Pow2(BitSize(k) - 1) <= n < Pow2(BitSize(k) - 1) else 0 <= n < Modulus(k)
  {
    if IsSigned(k) {
      assert Modulus(k) == 2 * Pow2(BitSize(k) - 1);
      ReduceRange(Modulus(k), Pow2(BitSize(k) - 1), n);
    } else {
      ReduceRange(Modulus(k), 0, n);
    }
  }
}
