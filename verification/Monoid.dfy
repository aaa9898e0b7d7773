/** The n-ary operators on the canonical values of one kind: identity, order, grouping. */
module Monoid {
  import opened Bits
  import opened Values
  import opened Ir

  /** The all-ones word, as each kind reads it. */
  lemma AllOnesOf(k: Kind)
    ensures Wrap(k, -1) == if IsSigned(k) then -1 else Modulus(k) - 1
  {
    var m := Modulus(k);
    ModPeriod(-1, 1, m);
    SmallMod(m - 1, m);
    if IsSigned(k) {
      assert m == 2 * Pow2(BitSize(k) - 1);
    }
  }

  lemma OneOf(k: Kind)
    ensures Wrap(k, 1) == if BitSize(k) == 0 then 0 else 1
  {
    if BitSize(k) > 0 {
      assert Modulus(k) == 2 * Pow2(BitSize(k) - 1);
      if BitSize(k) > 1 {
        assert Modulus(k) == 4 * Pow2(BitSize(k) - 2);
      }
      SmallMod(1, Modulus(k));
    }
  }

  /** IdentityN is the identity element of its operator. */
  lemma JoinIdentity(k: Kind, op: OpN, n: int)
    requires op != COMMA && HasIdentity(k, op) && Canonical(k, n)
    ensures Join(k, op, IdentityN(k, op).num, n) == n
  {
    if IsBitwise(op) {
      BitwiseIdentity(k, op, n);
    } else if op == MUL {
      ProductIdentity(k, n);
    } else {
      CanonicalRange(k, n);
    }
  }

  lemma ProductIdentity(k: Kind, n: int)
    requires Canonical(k, n)
    ensures Join(k, MUL, IdentityN(k, MUL).num, n) == n
  {
    OneOf(k);
  }

  lemma AndIdentity(k: Kind, n: int)
    requires Canonical(k, n)
    ensures Join(k, AND, Wrap(k, -1), n) == n
  {
    Commutative(AndFn, Wrap(k, -1), n);
    CanonicalRange(k, n);
    AllOnesOf(k);
    OnesBits(IsSigned(k), BitSize(k), n, Wrap(k, -1));
  }

  /** The all-ones word of a width against a number of that width. */
  lemma OnesBits(signed: bool, bits: nat, n: int, ones: int)
    requires (!signed ==> 0 <= n < Pow2(bits)) && ones == if signed then -1 else Pow2(bits) - 1
    ensures BitOp(AndFn, n, ones) == n && BitOp(OrFn, n, ones) == ones
  {
    if signed {
      MinusOne(n);
    } else {
      AllOnes(n, bits);
    }
  }

  lemma BitwiseIdentity(k: Kind, op: OpN, n: int)
    requires IsBitwise(op) && Canonical(k, n)
    ensures Join(k, op, IdentityN(k, op).num, n) == n
  {
    match op {
      case AND => AndIdentity(k, n);
      case OR => Commutative(OrFn, 0, n); ZeroOperand(n);
      case _ => Commutative(XorFn, 0, n); ZeroOperand(n);
    }
  }

  lemma JoinCommutes(k: Kind, op: OpN, a: int, b: int)
    requires op != COMMA
    ensures Join(k, op, a, b) == Join(k, op, b, a)
  {
    match op {
      case MUL => assert a * b == b * a;
      case AND => Commutative(AndFn, a, b);
      case OR => Commutative(OrFn, a, b);
      case XOR => Commutative(XorFn, a, b);
      case _ =>
    }
  }

  lemma SumsJoin(k: Kind, a: int, b: int, c: int)
    ensures Join(k, ADD, Join(k, ADD, a, b), c) == Join(k, ADD, a, Join(k, ADD, b, c))
  {
    WrapHomomorphism(k, a + b, c);
    WrapHomomorphism(k, b + c, a);
  }

  lemma ProductsJoin(k: Kind, a: int, b: int, c: int)
    ensures Join(k, MUL, Join(k, MUL, a, b), c) == Join(k, MUL, a, Join(k, MUL, b, c))
  {
    WrapHomomorphism(k, a * b, c);
    WrapHomomorphism(k, b * c, a);
    ProductAssociates(a, b, c);
    assert a * Wrap(k, b * c) == Wrap(k, b * c) * a;
  }

  lemma ExtremesJoin(k: Kind, op: OpN, a: int, b: int, c: int)
    requires op == MAX || op == MIN || op == COMMA
    ensures Join(k, op, Join(k, op, a, b), c) == Join(k, op, a, Join(k, op, b, c))
  {
  }

  lemma JoinAssociates(k: Kind, op: OpN, a: int, b: int, c: int)
    ensures Join(k, op, Join(k, op, a, b), c) == Join(k, op, a, Join(k, op, b, c))
  {
    match op {
      case ADD => SumsJoin(k, a, b, c);
      case MUL => ProductsJoin(k, a, b, c);
      case AND => Associative(AndFn, a, b, c);
      case OR => Associative(OrFn, a, b, c);
      case XOR => Associative(XorFn, a, b, c);
      case _ => ExtremesJoin(k, op, a, b, c);
    }
  }

  lemma ProductAssociates(a: int, b: int, c: int)
    ensures a * b * c == b * c * a
  {
  }

  /** A missing operand makes the whole tuple invalid. */
  lemma {:induction false} FoldInvalid(op: OpN, x: Value, vs: seq<Value>)
    requires x.Invalid? || Invalid in vs
    ensures FoldFrom(op, x, vs).Invalid?
    decreases |vs|
  {
    if vs != [] {
      FoldInvalid(op, TupleStep(op, x, vs[0]), vs[1..]);
    }
  }

  lemma TupleOperandsValid(k: Kind, op: OpN, vs: seq<Value>)
    requires EvalTupleOp(k, op, vs).Val?
    ensures Invalid !in vs
  {
    if Invalid in vs && op != COMMA {
      FoldInvalid(op, IdentityN(k, op), vs);
    }
  }

  /** A tuple of one operand is that operand. */
  lemma SingleOperand(k: Kind, op: OpN, v: Value)
    requires HasIdentity(k, op) && (v.Invalid? || CanonicalOf(k, v))
    ensures EvalTupleOp(k, op, [v]) == v
  {
    if op != COMMA {
      assert [v][1..] == [];
      assert FoldFrom(op, IdentityN(k, op), [v]) == TupleStep(op, IdentityN(k, op), v);
      if v.Val? {
        JoinIdentity(k, op, v.num);
      }
    }
  }

  // ---------------------------------------------------------------- folds

  predicate AllOf(k: Kind, vs: seq<Value>) { forall i :: 0 <= i < |vs| ==> CanonicalOf(k, vs[i]) }

  lemma {:induction false} FoldOf(k: Kind, op: OpN, x: Value, vs: seq<Value>)
    requires CanonicalOf(k, x) && AllOf(k, vs)
    ensures CanonicalOf(k, FoldFrom(op, x, vs))
    decreases |vs|
  {
    if vs != [] {
      JoinCanonical(k, op, x.num, vs[0].num);
      FoldOf(k, op, TupleStep(op, x, vs[0]), vs[1..]);
    }
  }

  lemma {:induction false} FoldConcat(op: OpN, x: Value, a: seq<Value>, b: seq<Value>)
    ensures FoldFrom(op, x, a + b) == FoldFrom(op, FoldFrom(op, x, a), b)
    decreases |a|
  {
    if a == [] {
      assert a + b == b;
    } else {
      assert (a + b)[1..] == a[1..] + b;
      FoldConcat(op, TupleStep(op, x, a[0]), a[1..], b);
    }
  }

  /** An operand in front of a fold can be taken out of it. */
  lemma {:induction false} FoldOut(k: Kind, op: OpN, a: Value, x: Value, vs: seq<Value>)
    requires CanonicalOf(k, a) && CanonicalOf(k, x) && AllOf(k, vs)
    ensures FoldFrom(op, TupleStep(op, a, x), vs) == TupleStep(op, a, FoldFrom(op, x, vs))
    decreases |vs|
  {
    if vs != [] {
      JoinAssociates(k, op, a.num, x.num, vs[0].num);
      JoinCanonical(k, op, x.num, vs[0].num);
      FoldOut(k, op, a, TupleStep(op, x, vs[0]), vs[1..]);
    }
  }

  lemma StepIdentity(k: Kind, op: OpN, x: Value)
    requires op != COMMA && HasIdentity(k, op) && CanonicalOf(k, x)
    ensures TupleStep(op, x, IdentityN(k, op)) == x && TupleStep(op, IdentityN(k, op), x) == x
    ensures CanonicalOf(k, IdentityN(k, op))
  {
    JoinIdentity(k, op, x.num);
    JoinCommutes(k, op, x.num, IdentityN(k, op).num);
    IdentityCanonical(k, op);
  }

  /** Folding on from x is joining x with the tuple of the rest. */
  lemma FoldNested(k: Kind, op: OpN, x: Value, vs: seq<Value>)
    requires op != COMMA && HasIdentity(k, op) && CanonicalOf(k, x) && AllOf(k, vs)
    ensures FoldFrom(op, x, vs) == TupleStep(op, x, EvalTupleOp(k, op, vs))
  {
    StepIdentity(k, op, x);
    FoldOut(k, op, x, IdentityN(k, op), vs);
  }

  lemma StepCommutes(k: Kind, op: OpN, x: Value, y: Value)
    requires op != COMMA && CanonicalOf(k, x) && CanonicalOf(k, y)
    ensures TupleStep(op, x, y) == TupleStep(op, y, x)
  {
    JoinCommutes(k, op, x.num, y.num);
  }

  lemma FoldSwap(k: Kind, op: OpN, x: Value, a: Value, b: Value)
    requires op != COMMA && CanonicalOf(k, x) && CanonicalOf(k, a) && CanonicalOf(k, b)
    ensures TupleStep(op, TupleStep(op, x, a), b) == TupleStep(op, TupleStep(op, x, b), a)
  {
    JoinAssociates(k, op, x.num, a.num, b.num);
    JoinAssociates(k, op, x.num, b.num, a.num);
    JoinCommutes(k, op, a.num, b.num);
  }

  lemma ZeroProduct(k: Kind, n: int)
    ensures Join(k, MUL, n, 0) == 0 == Join(k, MUL, 0, n)
  {
    assert n * 0 == 0 * n == 0;
    SmallMod(0, Modulus(k));
  }

  /** The absorbing element swallows every canonical operand. */
  lemma Absorbs(k: Kind, op: OpN, v: Value, x: Value)
    requires op != COMMA && CanonicalOf(k, v) && CanonicalOf(k, x) && SameValue(v, AbsorbingN(k, op))
    ensures TupleStep(op, x, v) == v
  {
    AbsorbsNumber(k, op, v.num, x.num);
  }

  lemma AbsorbsNumber(k: Kind, op: OpN, a: int, n: int)
    requires AbsorbingN(k, op) == Val(k, a) && Canonical(k, a) && Canonical(k, n)
    ensures Join(k, op, n, a) == a
  {
    match op {
      case OR => OrAbsorbs(k, n);
      case MUL => ZeroProduct(k, n);
      case AND => ZeroOperand(n);
      case _ => ExtremeAbsorbs(k, op, a, n);
    }
  }

  lemma ExtremeAbsorbs(k: Kind, op: OpN, a: int, n: int)
    requires (op == MAX || op == MIN) && AbsorbingN(k, op) == Val(k, a) && Canonical(k, a) && Canonical(k, n)
    ensures Join(k, op, n, a) == a
  {
    CanonicalRange(k, n);
  }

  lemma OrAbsorbs(k: Kind, x: int)
    requires Canonical(k, x)
    ensures Join(k, OR, x, Wrap(k, -1)) == Wrap(k, -1)
  {
    AllOnesOf(k);
    CanonicalRange(k, x);
    OnesBits(IsSigned(k), BitSize(k), x, Wrap(k, -1));
  }

  /** The tuple of two lists joins their tuples. */
  lemma TupleConcat(k: Kind, op: OpN, a: seq<Value>, b: seq<Value>)
    requires op != COMMA && HasIdentity(k, op) && AllOf(k, a) && AllOf(k, b)
    ensures EvalTupleOp(k, op, a + b) == TupleStep(op, EvalTupleOp(k, op, a), EvalTupleOp(k, op, b))
    ensures CanonicalOf(k, EvalTupleOp(k, op, a))
  {
    IdentityCanonical(k, op);
    FoldOf(k, op, IdentityN(k, op), a);
    FoldConcat(op, IdentityN(k, op), a, b);
    FoldNested(k, op, FoldFrom(op, IdentityN(k, op), a), b);
  }

  lemma StepAssociates(k: Kind, op: OpN, x: Value, y: Value, z: Value)
    requires CanonicalOf(k, x) && CanonicalOf(k, y) && CanonicalOf(k, z)
    ensures TupleStep(op, TupleStep(op, x, y), z) == TupleStep(op, x, TupleStep(op, y, z))
    ensures CanonicalOf(k, TupleStep(op, x, y))
  {
    JoinAssociates(k, op, x.num, y.num, z.num);
    JoinCanonical(k, op, x.num, y.num);
  }
}
