/** What the operators of onejit/eval.cpp compute, operator by operator: arithmetic up to multiples of 2^bits, division with
    the sign rules of C++, bitwise operators and shifts bit by bit, comparisons by value. */
module OperatorLaws {
  import opened Bits
  import opened Values
  import opened Ir
  import opened Monoid
  import opened WordBits

  // ---------------------------------------------------------------- kinds

  /** The numbers of each kind. */
  lemma KindRanges(n: int)
    ensures Canonical(Void, n) <==> n == 0
    ensures Canonical(Bool, n) <==> n == 0 || n == 1
    ensures Canonical(Int8, n) <==> -0x80 <= n < 0x80
    ensures Canonical(Int16, n) <==> -0x8000 <= n < 0x8000
    ensures Canonical(Int32, n) <==> -0x8000_0000 <= n < 0x8000_0000
    ensures Canonical(Int64, n) <==> -0x8000_0000_0000_0000 <= n < 0x8000_0000_0000_0000
    ensures Canonical(Uint8, n) <==> 0 <= n < 0x100
    ensures Canonical(Uint16, n) <==> 0 <= n < 0x1_0000
    ensures Canonical(Uint32, n) <==> 0 <= n < 0x1_0000_0000
    ensures Canonical(Uint64, n) <==> 0 <= n < 0x1_0000_0000_0000_0000
    ensures Canonical(Ptr, n) <==> 0 <= n < 0x1_0000_0000_0000_0000
  {
    Powers();
    SmallRanges(n);
    WideRanges(n);
  }

  lemma SmallRanges(n: int)
    requires Pow2(7) == 0x80 && Pow2(8) == 0x100 && Pow2(15) == 0x8000 && Pow2(16) == 0x1_0000
    ensures Canonical(Void, n) <==> n == 0
    ensures Canonical(Bool, n) <==> n == 0 || n == 1
    ensures Canonical(Int8, n) <==> -0x80 <= n < 0x80
    ensures Canonical(Int16, n) <==> -0x8000 <= n < 0x8000
    ensures Canonical(Uint8, n) <==> 0 <= n < 0x100
    ensures Canonical(Uint16, n) <==> 0 <= n < 0x1_0000
  {
    CanonicalRange(Void, n);
    CanonicalRange(Bool, n);
    CanonicalRange(Int8, n);
    CanonicalRange(Int16, n);
    CanonicalRange(Uint8, n);
    CanonicalRange(Uint16, n);
  }

  lemma WideRanges(n: int)
    requires Pow2(31) == 0x8000_0000 && Pow2(32) == 0x1_0000_0000
    requires Pow2(63) == 0x8000_0000_0000_0000 && Pow2(64) == 0x1_0000_0000_0000_0000
    ensures Canonical(Int32, n) <==> -0x8000_0000 <= n < 0x8000_0000
    ensures Canonical(Int64, n) <==> -0x8000_0000_0000_0000 <= n < 0x8000_0000_0000_0000
    ensures Canonical(Uint32, n) <==> 0 <= n < 0x1_0000_0000
    ensures Canonical(Uint64, n) <==> 0 <= n < 0x1_0000_0000_0000_0000
    ensures Canonical(Ptr, n) <==> 0 <= n < 0x1_0000_0000_0000_0000
  {
    CanonicalRange(Int32, n);
    CanonicalRange(Int64, n);
    CanonicalRange(Uint32, n);
    CanonicalRange(Uint64, n);
    CanonicalRange(Ptr, n);
  }

  lemma Powers()
    ensures Pow2(7) == 0x80 && Pow2(8) == 0x100 && Pow2(15) == 0x8000 && Pow2(16) == 0x1_0000
    ensures Pow2(31) == 0x8000_0000 && Pow2(32) == 0x1_0000_0000
    ensures Pow2(63) == 0x8000_0000_0000_0000 && Pow2(64) == 0x1_0000_0000_0000_0000
  {
    assert Pow2(8) == 0x100;
    Pow2Add(8, 8);
    Pow2Add(16, 16);
    Pow2Add(32, 32);
  }

  // ---------------------------------------------------------------- arithmetic

  /** v is the number of the kind k that differs from x by a multiple of 2^bits; there is exactly one. */
  ghost predicate Stands(v: Value, k: Kind, x: int) { CanonicalOf(k, v) && (v.num - x) % Modulus(k) == 0 }

  lemma ReduceExact(m: int, signed: bool, x: int, n: int)
    requires m > 0
    ensures n == Reduce(m, signed, x) <==> Reduce(m, signed, n) == n && (n - x) % m == 0
  {
    var q := ReduceShift(m, signed, x);
    ModPeriod(0, q, m);
    ReduceIdempotent(m, signed, x);
    if (n - x) % m == 0 {
      var d := (n - x) / m;
      assert n == x + d * m;
      ReducePeriod(m, signed, x, d);
    }
  }

  lemma StandsExact(k: Kind, x: int, v: Value)
    ensures Stands(v, k, x) <==> v == Val(k, Wrap(k, x))
  {
    if v.Val? {
      ReduceExact(Modulus(k), IsSigned(k), x, v.num);
    }
  }

  /** +, * and - are those of the integers, up to a multiple of 2^bits. */
  lemma ArithmeticExact(k: Kind, a: int, b: int)
    ensures Stands(TupleStep(ADD, Val(k, a), Val(k, b)), k, a + b)
    ensures Stands(TupleStep(MUL, Val(k, a), Val(k, b)), k, a * b)
    ensures Stands(EvalBinaryOp(SUB, Val(k, a), Val(k, b)), k, a - b)
  {
    StandsExact(k, a + b, Val(k, Wrap(k, a + b)));
    StandsExact(k, a * b, Val(k, Wrap(k, a * b)));
    StandsExact(k, a - b, Val(k, Wrap(k, a - b)));
  }

  /** The negations, where the complement is one less than the negative. */
  lemma NegationsExact(k: Kind, a: int)
    ensures Stands(EvalUnaryOp(k, NEG1, Val(k, a)), k, -a)
    ensures Stands(EvalUnaryOp(k, XOR1, Val(k, a)), k, -1 - a)
  {
    StandsExact(k, -a, Val(k, Wrap(k, -a)));
    StandsExact(k, -1 - a, Val(k, Wrap(k, -1 - a)));
  }

  /** The conversions between kinds keep the number, up to a multiple of 2^bits of the new kind. */
  lemma ConversionsExact(k: Kind, to: Kind, a: int)
    requires Canonical(k, a)
    ensures Stands(EvalUnaryOp(to, CAST, Val(k, a)), to, a)
    ensures Stands(EvalUnaryOp(to, BITCOPY, Val(k, a)), to, a)
  {
    StandsExact(to, a, Val(to, Wrap(to, a)));
  }

  function Abs(a: int): nat { if a < 0 then -a else a }

  /** Quotient and remainder as C++ has them: the remainder is smaller than the divisor and has the sign of the dividend. */
  predicate Divides(a: int, b: int, q: int, r: int) {
    a == q * b + r && Abs(r) < Abs(b) && (r == 0 || (r < 0 <==> a < 0))
  }

  lemma TruncDivides(a: int, b: int)
    requires b != 0
    ensures Divides(a, b, TruncDiv(a, b), a - b * TruncDiv(a, b))
  {
    if a >= 0 {
      if b > 0 { DivideParts(a, b); } else { DivideParts(a, -b); SignedProduct(-b, a / -b); }
    } else {
      if b > 0 { DivideParts(-a, b); SignedProduct(b, -a / b); } else { DivideParts(-a, -b); SignedProduct(-b, -a / -b); }
    }
  }

  lemma DivideParts(c: int, d: int)
    requires c >= 0 && d > 0
    ensures c == d * (c / d) + c % d && c == c / d * d + c % d
  {
  }

  lemma SignedProduct(x: int, y: int)
    ensures x * y == y * x && (-x) * y == -(x * y) && x * (-y) == -(x * y) && (-x) * (-y) == x * y
  {
  }

  lemma ZeroMultiple(d: int, b: int, t: int)
    requires d * b == t && Abs(t) < Abs(b)
    ensures d == 0
  {
    SignedProduct(d, b);
    if b > 0 {
      SmallMultiple(d, b);
    } else {
      SmallMultiple(d, -b);
    }
  }

  lemma DividesUnique(a: int, b: int, q: int, r: int, p: int, s: int)
    requires Divides(a, b, q, r) && Divides(a, b, p, s)
    ensures q == p && r == s
  {
    MinusProduct(q, p, b);
    ZeroMultiple(q - p, b, s - r);
  }

  lemma MinusProduct(q: int, p: int, b: int)
    ensures (q - p) * b == q * b - p * b
  {
  }

  /** Division gives no value exactly for a zero divisor and for the one quotient that int64 cannot hold. */
  lemma DivisionFails(k: Kind, a: int, b: int)
    requires Canonical(k, a)
    ensures EvalBinaryOp(QUO, Val(k, a), Val(k, b)).Invalid? <==> b == 0 || (a == -0x8000_0000_0000_0000 && b == -1)
    ensures EvalBinaryOp(REM, Val(k, a), Val(k, b)).Invalid? <==> b == 0 || (a == -0x8000_0000_0000_0000 && b == -1)
  {
    TrapsExact(k, a, b);
  }

  /** Otherwise it gives the one quotient, up to a multiple of 2^bits, and the one remainder. */
  lemma DivisionExact(k: Kind, a: int, b: int, q: int, r: int)
    requires Canonical(k, a) && Canonical(k, b) && Divides(a, b, q, r)
    requires EvalBinaryOp(QUO, Val(k, a), Val(k, b)).Val?
    ensures Stands(EvalBinaryOp(QUO, Val(k, a), Val(k, b)), k, q)
    ensures EvalBinaryOp(REM, Val(k, a), Val(k, b)) == Val(k, r)
  {
    QuotientExact(k, a, b, q, r);
  }

  lemma TrapsExact(k: Kind, a: int, b: int)
    requires Canonical(k, a)
    ensures DivisionTraps(k, a, b) <==> b == 0 || (a == -0x8000_0000_0000_0000 && b == -1)
  {
    Powers();
    CanonicalRange(k, a);
  }

  lemma QuotientExact(k: Kind, a: int, b: int, q: int, r: int)
    requires Canonical(k, a) && Canonical(k, b) && b != 0 && Divides(a, b, q, r)
    ensures Stands(Val(k, Wrap(k, TruncDiv(a, b))), k, q) && Wrap(k, a - b * TruncDiv(a, b)) == r
  {
    TruncDivides(a, b);
    DividesUnique(a, b, q, r, TruncDiv(a, b), a - b * TruncDiv(a, b));
    StandsExact(k, q, Val(k, Wrap(k, q)));
    RemainderFits(k, a, b, q, r);
  }

  lemma RemainderFits(k: Kind, a: int, b: int, q: int, r: int)
    requires Canonical(k, a) && Canonical(k, b) && b != 0 && Divides(a, b, q, r)
    ensures Canonical(k, r)
  {
    CanonicalRange(k, a);
    CanonicalRange(k, b);
    CanonicalRange(k, r);
  }

  // ---------------------------------------------------------------- bits

  lemma {:induction false} BitPeriod(a: int, q: int, n: nat, i: nat)
    requires i < n
    ensures BitAt(a + q * Pow2(n), i) == BitAt(a, i)
    decreases i
  {
    assert q * Pow2(n) == 2 * (q * Pow2(n - 1));
    assert (a + q * Pow2(n)) / 2 == a / 2 + q * Pow2(n - 1);
    if i > 0 {
      BitPeriod(a / 2, q, n - 1, i - 1);
    }
  }

  /** Truncation and sign extension keep the low bits. */
  lemma WrapBit(k: Kind, x: int, i: nat)
    requires i < BitSize(k)
    ensures BitAt(Wrap(k, x), i) == BitAt(x, i)
  {
    var q := ReduceShift(Modulus(k), IsSigned(k), x);
    BitPeriod(x, q, BitSize(k), i);
  }

  lemma {:induction false} ShiftedLeft(a: int, b: nat, i: nat)
    ensures BitAt(a * Pow2(b), i) == if i < b then 0 else BitAt(a, i - b)
    decreases b
  {
    if b > 0 {
      assert a * Pow2(b) == 2 * (a * Pow2(b - 1));
      if i > 0 {
        ShiftedLeft(a, b - 1, i - 1);
      }
    }
  }

  /** Bit i of the result, for every bit of the kind, is what the operator makes of bit i of the operands. */
  lemma BitwiseExact(k: Kind, a: int, b: int, i: nat)
    requires Canonical(k, a) && Canonical(k, b) && i < BitSize(k)
    ensures forall op :: op in {AND, OR, XOR} ==> CanonicalOf(k, TupleStep(op, Val(k, a), Val(k, b)))
    ensures BitAt(TupleStep(AND, Val(k, a), Val(k, b)).num, i) == if BitAt(a, i) == 1 && BitAt(b, i) == 1 then 1 else 0
    ensures BitAt(TupleStep(OR, Val(k, a), Val(k, b)).num, i) == if BitAt(a, i) == 1 || BitAt(b, i) == 1 then 1 else 0
    ensures BitAt(TupleStep(XOR, Val(k, a), Val(k, b)).num, i) == if BitAt(a, i) != BitAt(b, i) then 1 else 0
  {
    forall op | op in {AND, OR, XOR} ensures CanonicalOf(k, TupleStep(op, Val(k, a), Val(k, b))) {
      JoinCanonical(k, op, a, b);
    }
    BitOfOp(AndFn, a, b, i);
    BitOfOp(OrFn, a, b, i);
    BitOfOp(XorFn, a, b, i);
  }

  /** Bit i of a shifted number is the bit that is shifted there, where >> repeats the sign of signed kinds. */
  lemma ShiftExact(k: Kind, a: int, b: int, i: nat)
    requires Canonical(k, a) && Canonical(k, b) && i < BitSize(k)
    ensures var (l, r) := (EvalBinaryOp(SHL, Val(k, a), Val(k, b)), EvalBinaryOp(SHR, Val(k, a), Val(k, b)));
      && (l.Val? <==> 0 <= b < 64) && (r.Val? <==> 0 <= b < 64)
      && (0 <= b < 64 ==> CanonicalOf(k, l) && BitAt(l.num, i) == if i < b then 0 else BitAt(a, i - b))
      && (0 <= b < 64 ==> CanonicalOf(k, r) && BitAt(r.num, i) == BitAt(a, b + i))
  {
    if 0 <= b < 64 {
      ShiftedLeft(a, b, i);
      ShiftRight(a, b, i);
      WrapBit(k, a * Pow2(b), i);
      WrapBit(k, a / Pow2(b), i);
      WrapCanonical(k, a * Pow2(b));
      WrapCanonical(k, a / Pow2(b));
    }
  }

  // ---------------------------------------------------------------- comparisons, booleans, extremes

  /** Comparisons and booleans by value; operands of different kinds give no value. */
  lemma ComparisonsExact(k: Kind, l: Kind, a: int, b: int, op: Op2)
    ensures EvalBinaryOp(LSS, Val(k, a), Val(k, b)) == Val(Bool, if a < b then 1 else 0)
    ensures EvalBinaryOp(LEQ, Val(k, a), Val(k, b)) == Val(Bool, if a < b || a == b then 1 else 0)
    ensures EvalBinaryOp(GTR, Val(k, a), Val(k, b)) == Val(Bool, if b < a then 1 else 0)
    ensures EvalBinaryOp(GEQ, Val(k, a), Val(k, b)) == Val(Bool, if a < b then 0 else 1)
    ensures EvalBinaryOp(EQL, Val(k, a), Val(k, b)) == Val(Bool, if a == b then 1 else 0)
    ensures EvalBinaryOp(NEQ, Val(k, a), Val(k, b)) == Val(Bool, if a == b then 0 else 1)
    ensures k != l ==> EvalBinaryOp(op, Val(k, a), Val(l, b)).Invalid?
  {
  }

  lemma BooleansExact(a: bool, b: bool)
    ensures EvalBinaryOp(LAND, FromBool(a), FromBool(b)) == FromBool(a && b)
    ensures EvalBinaryOp(LOR, FromBool(a), FromBool(b)) == FromBool(a || b)
    ensures EvalUnaryOp(Bool, NOT1, FromBool(a)) == FromBool(!a)
  {
  }

  /** The largest and the smallest operand. */
  lemma {:induction false} ExtremesExact(k: Kind, op: OpN, x: int, vs: seq<Value>)
    requires (op == MAX || op == MIN) && AllOf(k, vs)
    ensures var r := FoldFrom(op, Val(k, x), vs);
      && (r == Val(k, x) || r in vs)
      && (forall v | v == Val(k, x) || v in vs :: if op == MAX then v.num <= r.num else r.num <= v.num)
    decreases |vs|
  {
    if vs != [] {
      var y := TupleStep(op, Val(k, x), vs[0]);
      ExtremesExact(k, op, y.num, vs[1..]);
    }
  }

  // ---------------------------------------------------------------- absorbing elements

  /** The absorbing element of an operator, as Value::absorbing() gives it, is the one operand that decides the result:
      there is another one only for MIN on the signed kinds whose minimum Value::min() does not sign-extend. */
  lemma AbsorbingExact(k: Kind, op: OpN, a: int)
    requires op != COMMA && Canonical(k, a) && BitSize(k) > 0 && (op == MIN ==> HasIdentity(k, MAX))
    ensures AbsorbingN(k, op) == Val(k, a) <==> forall n: int :: Canonical(k, n) ==> Join(k, op, n, a) == a
  {
    if AbsorbingN(k, op) == Val(k, a) {
      forall n: int | Canonical(k, n) ensures Join(k, op, n, a) == a {
        AbsorbsNumber(k, op, a, n);
      }
    } else {
      var n := NotAbsorbed(k, op, a);
    }
  }

  /** An operand that a does not absorb. */
  lemma NotAbsorbed(k: Kind, op: OpN, a: int) returns (n: int)
    requires op != COMMA && Canonical(k, a) && BitSize(k) > 0 && (op == MIN ==> HasIdentity(k, MAX))
    requires AbsorbingN(k, op) != Val(k, a)
    ensures Canonical(k, n) && Join(k, op, n, a) != a
  {
    match op
    case ADD => n := 1; OneAdded(k, a);
    case XOR => n := 1; OneToggled(k, a);
    case MUL => n := 0; CanonicalRange(k, 0); ZeroProduct(k, a);
    case AND => n := 0; CanonicalRange(k, 0); ZeroOperand(a); Commutative(AndFn, 0, a);
    case OR => n := Wrap(k, -1); WrapCanonical(k, -1); OrAbsorbs(k, a); Commutative(OrFn, n, a);
    case MAX => n := MaxValue(k).num; CanonicalRange(k, n); CanonicalRange(k, a);
    case MIN => n := MinValue(k).num; CanonicalRange(k, n); CanonicalRange(k, a);
  }

  lemma OneAdded(k: Kind, a: int)
    requires Canonical(k, a) && BitSize(k) > 0
    ensures Canonical(k, 1) && Wrap(k, 1 + a) != a
  {
    OneCanonical(k);
    StandsExact(k, 1 + a, Val(k, a));
    assert Modulus(k) == 2 * Pow2(BitSize(k) - 1);
    assert (a - (1 + a)) % Modulus(k) != 0;
  }

  lemma OneToggled(k: Kind, a: int)
    requires BitSize(k) > 0
    ensures Canonical(k, 1) && BitOp(XorFn, 1, a) != a
  {
    OneCanonical(k);
    Unfold(XorFn, 1, a);
  }

  lemma OneCanonical(k: Kind)
    requires BitSize(k) > 0
    ensures Canonical(k, 1)
  {
    OneOf(k);
    WrapCanonical(k, 1);
  }
}
