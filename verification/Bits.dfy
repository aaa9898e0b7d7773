/** Bitwise arithmetic on integers in two's complement. A word of any width is an integer here:
    a signed word is its value, an unsigned one is its non-negative value. */
module Bits {

  function Pow2(n: nat): (p: int)
    ensures p > 0
  {
    if n == 0 then 1 else 2 * Pow2(n - 1)
  }

  lemma {:induction false} Pow2Add(a: nat, b: nat)
    ensures Pow2(a + b) == Pow2(a) * Pow2(b)
  {
    if a > 0 {
      Pow2Add(a - 1, b);
    }
  }

  datatype BitFn = AndFn | OrFn | XorFn

  /** What a bitwise operator does to one pair of bits. */
  function OnBit(f: BitFn, x: int, y: int): int
  {
    match f
    case AndFn => if x == 1 && y == 1 then 1 else 0
    case OrFn => if x == 1 || y == 1 then 1 else 0
    case XorFn => if x != y then 1 else 0
  }

  ghost predicate Uniform(a: int) { a == 0 || a == -1 }

  function Magnitude(a: int): nat { if a < 0 then -a - 1 else a }

  /** C++ `&`, `|` and `^` on two's complement integers. */
  function BitOp(f: BitFn, a: int, b: int): int
    decreases Magnitude(a) + Magnitude(b)
  {
    if (a == 0 || a == -1) && (b == 0 || b == -1) then -OnBit(f, -a, -b)
    else 2 * BitOp(f, a / 2, b / 2) + OnBit(f, a % 2, b % 2)
  }

  lemma Unfold(f: BitFn, a: int, b: int)
    ensures BitOp(f, a, b) / 2 == BitOp(f, a / 2, b / 2)
    ensures BitOp(f, a, b) % 2 == OnBit(f, a % 2, b % 2)
  {
  }

  lemma {:induction false} Commutative(f: BitFn, a: int, b: int)
    ensures BitOp(f, a, b) == BitOp(f, b, a)
    decreases Magnitude(a) + Magnitude(b)
  {
    if !(Uniform(a) && Uniform(b)) {
      Commutative(f, a / 2, b / 2);
    }
  }

  lemma {:induction false} Associative(f: BitFn, a: int, b: int, c: int)
    ensures BitOp(f, BitOp(f, a, b), c) == BitOp(f, a, BitOp(f, b, c))
    decreases Magnitude(a) + Magnitude(b) + Magnitude(c)
  {
    var l, r := BitOp(f, BitOp(f, a, b), c), BitOp(f, a, BitOp(f, b, c));
    if !(Uniform(a) && Uniform(b) && Uniform(c)) {
      assert l / 2 == r / 2 by {
        Associative(f, a / 2, b / 2, c / 2);
        AssociativeParts(f, a, b, c);
      }
      assert l % 2 == r % 2 by { AssociativeParts(f, a, b, c); }
    }
  }

  lemma AssociativeParts(f: BitFn, a: int, b: int, c: int)
    ensures BitOp(f, BitOp(f, a, b), c) / 2 == BitOp(f, BitOp(f, a / 2, b / 2), c / 2)
    ensures BitOp(f, a, BitOp(f, b, c)) / 2 == BitOp(f, a / 2, BitOp(f, b / 2, c / 2))
    ensures BitOp(f, BitOp(f, a, b), c) % 2 == BitOp(f, a, BitOp(f, b, c)) % 2
  {
    Unfold(f, a, b);
    Unfold(f, b, c);
    Unfold(f, BitOp(f, a, b), c);
    Unfold(f, a, BitOp(f, b, c));
  }

  /** Operators keep both the unsigned and the signed range of their operands. */
  lemma {:induction false} KeepsRange(f: BitFn, a: int, b: int, n: nat)
    ensures 0 <= a < Pow2(n) && 0 <= b < Pow2(n) ==> 0 <= BitOp(f, a, b) < Pow2(n)
    ensures -Pow2(n) <= a < Pow2(n) && -Pow2(n) <= b < Pow2(n) ==> -Pow2(n) <= BitOp(f, a, b) < Pow2(n)
    decreases n
  {
    if n > 0 {
      Unfold(f, a, b);
      KeepsRange(f, a / 2, b / 2, n - 1);
    }
  }

  /** The all-ones word of width n is the identity of `&` and absorbs `|`. */
  lemma {:induction false} AllOnes(a: int, n: nat)
    requires 0 <= a < Pow2(n)
    ensures BitOp(AndFn, a, Pow2(n) - 1) == a
    ensures BitOp(OrFn, a, Pow2(n) - 1) == Pow2(n) - 1
  {
    if n > 0 {
      AllOnes(a / 2, n - 1);
      Unfold(AndFn, a, Pow2(n) - 1);
      Unfold(OrFn, a, Pow2(n) - 1);
    }
  }

  lemma {:induction false} MinusOne(a: int)
    ensures BitOp(AndFn, a, -1) == a
    ensures BitOp(OrFn, a, -1) == -1
    decreases Magnitude(a)
  {
    if !Uniform(a) {
      MinusOne(a / 2);
    }
  }

  lemma {:induction false} ZeroOperand(a: int)
    ensures BitOp(AndFn, a, 0) == 0
    ensures BitOp(OrFn, a, 0) == a
    ensures BitOp(XorFn, a, 0) == a
    decreases Magnitude(a)
  {
    if !Uniform(a) {
      ZeroOperand(a / 2);
    }
  }

  lemma {:induction false} SelfOperand(a: int)
    ensures BitOp(AndFn, a, a) == a
    ensures BitOp(OrFn, a, a) == a
    ensures BitOp(XorFn, a, a) == 0
    decreases Magnitude(a)
  {
    if !Uniform(a) {
      SelfOperand(a / 2);
    }
  }
}
