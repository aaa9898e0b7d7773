/** The bits of a machine word, and the masks that onestl/bitset.cpp builds from shifts and complements. */
module WordBits {
  import opened Bits
  import opened Values
  import opened Imm

  /** Bit i of a number in two's complement. */
  function BitAt(a: int, i: nat): int
    decreases i
  {
    if i == 0 then a % 2 else BitAt(a / 2, i - 1)
  }

  predicate Has(a: nat, i: nat) { BitAt(a, i) == 1 }

  /** 1 & (a >> i), the way the source reads a bit. */
  lemma {:induction false} BitAtShift(a: nat, i: nat)
    ensures a / Pow2(i) >= 0 && BitAt(a, i) == a / Pow2(i) % 2
  {
    if i > 0 {
      BitAtShift(a / 2, i - 1);
      DivTwice(a, Pow2(i - 1));
    }
  }

  lemma DivTwice(a: int, p: int)
    requires p > 0
    ensures a / (2 * p) == a / 2 / p
  {
    var (h, q) := (a / 2, a / 2 / p);
    assert h == q * p + h % p;
    assert a == q * (2 * p) + (2 * (h % p) + a % 2);
    DivFloor(a, 2 * p, q, 2 * (h % p) + a % 2);
  }

  lemma DivFloor(a: int, m: int, q: int, r: int)
    requires m > 0 && a == q * m + r && 0 <= r < m
    ensures a / m == q
  {
    var d := a / m - q;
    assert d * m == r - a % m;
    SmallMultiple(d, m);
  }

  lemma {:induction false} ShiftRight(a: int, s: nat, i: nat)
    ensures a >= 0 ==> a / Pow2(s) >= 0
    ensures BitAt(a / Pow2(s), i) == BitAt(a, s + i)
    decreases s
  {
    if s > 0 {
      DivTwice(a, Pow2(s - 1));
      ShiftRight(a / 2, s - 1, i);
    }
  }

  /** The bits of a bitwise operation. */
  lemma {:induction false} BitOfOp(f: BitFn, a: int, b: int, i: nat)
    ensures a >= 0 && b >= 0 ==> BitOp(f, a, b) >= 0
    ensures BitAt(BitOp(f, a, b), i) == OnBit(f, BitAt(a, i), BitAt(b, i))
    decreases i
  {
    if a >= 0 && b >= 0 {
      NatOp(f, a, b);
    }
    Unfold(f, a, b);
    if i > 0 {
      BitOfOp(f, a / 2, b / 2, i - 1);
    }
  }

  lemma {:induction false} NatOp(f: BitFn, a: nat, b: nat)
    ensures BitOp(f, a, b) >= 0
    decreases a + b
  {
    if a + b > 0 {
      Unfold(f, a, b);
      NatOp(f, a / 2, b / 2);
    }
  }

  /** The n low bits. */
  lemma {:induction false} LowMask(n: nat, i: nat)
    ensures Has(Pow2(n) - 1, i) <==> i < n
  {
    if n > 0 {
      if i > 0 {
        LowMask(n - 1, i - 1);
      }
    } else {
      ZeroBits(i);
    }
  }

  lemma {:induction false} ZeroBits(i: nat)
    ensures BitAt(0, i) == 0
  {
    if i > 0 {
      ZeroBits(i - 1);
    }
  }

  lemma {:induction false} OneBit(n: nat, i: nat)
    ensures Has(Pow2(n), i) <==> i == n
  {
    if n == 0 {
      if i > 0 {
        ZeroBits(i - 1);
      }
    } else if i > 0 {
      OneBit(n - 1, i - 1);
    }
  }

  lemma {:induction false} FlipBits(n: nat, x: nat, i: nat)
    requires x < Pow2(n) && i < n
    ensures BitAt(Pow2(n) - 1 - x, i) == 1 - BitAt(x, i)
  {
    if i > 0 {
      FlipBits(n - 1, x / 2, i - 1);
    }
  }

  /** ~x. */
  function Not(x: nat): (y: nat)
    requires x < W64
    ensures y < W64
  {
    W64 - 1 - x
  }

  lemma NotBit(x: nat, i: nat)
    requires x < W64 && i < 64
    ensures Has(Not(x), i) <==> !Has(x, i)
  {
    Pow2Word();
    FlipBits(64, x, i);
    BitRange(x, i);
  }

  lemma {:induction false} BitRange(x: nat, i: nat)
    ensures BitAt(x, i) == 0 || BitAt(x, i) == 1
  {
    if i > 0 {
      BitRange(x / 2, i - 1);
    }
  }

  /** T(~T(0)) << n: all but the n low bits. */
  function HighMask(n: nat): (m: nat)
    requires n < 64
    ensures m < W64
  {
    Pow2Word();
    SmallPow2(n);
    W64 - Pow2(n)
  }

  lemma {:induction false} Pow2Grows(a: nat, b: nat)
    requires a <= b
    ensures Pow2(a) <= Pow2(b)
  {
    if a < b {
      Pow2Grows(a, b - 1);
    }
  }

  lemma SmallPow2(n: nat)
    requires n < 64
    ensures Pow2(n) < W64
  {
    Pow2Word();
    Pow2Grows(n, 63);
  }

  lemma HighMaskBit(n: nat, i: nat)
    requires n < 64 && i < 64
    ensures Has(HighMask(n), i) <==> i >= n
  {
    SmallPow2(n);
    assert HighMask(n) == Not(Pow2(n) - 1);
    NotBit(Pow2(n) - 1, i);
    LowMask(n, i);
  }

  lemma InWord(f: BitFn, a: nat, b: nat)
    requires a < W64 && b < W64
    ensures 0 <= BitOp(f, a, b) < W64
  {
    Pow2Word();
    KeepsRange(f, a, b, 64);
  }

  /** (w & keep) | (pattern & fill), where the masks are complements of each other. */
  function Blend(w: nat, keep: nat, pattern: nat, fill: nat): (r: nat)
    requires w < W64 && keep < W64 && pattern < W64 && fill < W64
    ensures r < W64
  {
    InWord(AndFn, w, keep);
    InWord(AndFn, pattern, fill);
    InWord(OrFn, BitOp(AndFn, w, keep), BitOp(AndFn, pattern, fill));
    BitOp(OrFn, BitOp(AndFn, w, keep), BitOp(AndFn, pattern, fill))
  }

  /** 0 or 0xff..ff. */
  function Pattern(value: bool): (r: nat)
    ensures r < W64
  {
    if value then W64 - 1 else 0
  }

  lemma PatternBit(value: bool, i: nat)
    requires i < 64
    ensures Has(Pattern(value), i) == value
  {
    Pow2Word();
    LowMask(64, i);
    ZeroBits(i);
  }

  lemma BlendBit(w: nat, keep: nat, value: bool, fill: nat, i: nat)
    requires w < W64 && keep < W64 && fill < W64 && i < 64 && Has(keep, i) == !Has(fill, i)
    ensures Has(Blend(w, keep, Pattern(value), fill), i) == if Has(fill, i) then value else Has(w, i)
  {
    var (a, b) := (BitOp(AndFn, w, keep), BitOp(AndFn, Pattern(value), fill));
    InWord(AndFn, w, keep);
    InWord(AndFn, Pattern(value), fill);
    BitOfOp(AndFn, w, keep, i);
    BitOfOp(AndFn, Pattern(value), fill, i);
    BitOfOp(OrFn, a, b, i);
    PatternBit(value, i);
    BitRange(w, i);
  }

  /** ffs(): one more than the number of the lowest set bit, or 0. */
  function FirstSet(w: nat): (r: nat)
    ensures r == 0 <==> w == 0
  {
    if w == 0 then 0 else if w % 2 == 1 then 1 else 1 + FirstSet(w / 2)
  }

  lemma {:induction false} FirstSetExact(w: nat, n: nat, i: nat)
    requires w < Pow2(n)
    ensures w != 0 ==> FirstSet(w) <= n && Has(w, FirstSet(w) - 1)
    ensures i < FirstSet(w) - 1 || w == 0 ==> !Has(w, i)
  {
    if w == 0 {
      ZeroBits(i);
    } else if w % 2 == 0 {
      FirstSetExact(w / 2, n - 1, if i > 0 then i - 1 else 0);
    }
  }
}
