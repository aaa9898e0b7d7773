/** Constants and variables packed into one 32-bit item: Imm::Direct of onejit/imm.hpp and the direct
    form of onejit/local.hpp. Words are naturals below 2^32 or 2^64. */
module Imm {
  import opened Bits
  import opened Values

  const W32: nat := 0x1_0000_0000
  const W64: nat := 0x1_0000_0000_0000_0000

  /** The numbers of enum eKind. */
  function KindCode(k: Kind): (n: nat)
    ensures 1 <= n <= 15
  {
    match k
    case Void => 1
    case Bool => 2
    case Int8 => 3
    case Int16 => 4
    case Int32 => 5
    case Int64 => 6
    case Uint8 => 7
    case Uint16 => 8
    case Uint32 => 9
    case Uint64 => 10
    case Ptr => 15
  }

  function KindOf(n: nat): Kind {
    match n
    case 2 => Bool
    case 3 => Int8
    case 4 => Int16
    case 5 => Int32
    case 6 => Int64
    case 7 => Uint8
    case 8 => Uint16
    case 9 => Uint32
    case 10 => Uint64
    case 15 => Ptr
    case _ => Void
  }

  /** The 64 bits of a number in either reading. */
  function Bits64(n: int): nat { n % W64 }

  function Flip(b: nat, x: bool): nat
    requires b < W64
  {
    if x then W64 - 1 - b else b
  }

  /** 2^(8 r). The last step of the search for a rotation shifts by 64, which C++ leaves undefined; this takes it to
      give the number itself, as a shift count modulo 64 does, or zero: rrot() then gives its argument. */
  function ByteScale(r: nat): (m: nat)
    requires r <= 8
    ensures m > 0 && W64 % m == 0
  {
    match r
    case 0 => 1
    case 1 => 0x100
    case 2 => 0x1_0000
    case 3 => 0x100_0000
    case 4 => 0x1_0000_0000
    case 5 => 0x100_0000_0000
    case 6 => 0x1_0000_0000_0000
    case 7 => 0x100_0000_0000_0000
    case _ => 1
  }

  /** rrot() and lrot() by r bytes. */
  function RotateRight(b: nat, r: nat): (v: nat)
    requires b < W64 && r <= 8
    ensures v < W64
  {
    RotateBounds(b, ByteScale(r), W64 / ByteScale(r));
    b / ByteScale(r) + b % ByteScale(r) * (W64 / ByteScale(r))
  }

  function RotateLeft(b: nat, r: nat): nat
    requires b < W64 && r <= 8
  {
    b * ByteScale(r) % W64 + b / (W64 / ByteScale(r))
  }

  lemma RotateBounds(b: nat, m: nat, c: nat)
    requires m > 0 && b < m * c
    ensures b / m < c && b % m * c <= (m - 1) * c
    ensures b / m + b % m * c < m * c
  {
    var q, s := b / m, b % m;
    assert b == q * m + s;
    if q >= c {
      MulMono(c, q, m);
    }
    MulMono(s, m - 1, c);
  }

  lemma MulMono(a: nat, b: nat, c: nat)
    requires a <= b
    ensures a * c <= b * c && c * a <= c * b
  {
  }

  lemma RotateBack(b: nat, r: nat)
    requires b < W64 && r <= 8
    ensures RotateLeft(RotateRight(b, r), r) == b
  {
    var m := ByteScale(r);
    var c := W64 / m;
    RotateBounds(b, m, c);
    var q, s := b / m, b % m;
    var v := q + s * c;
    DivSmall(s, c, q);
    assert v * m == q * m + s * (c * m) by {
      assert (s * c) * m == s * (c * m);
    }
    MulMono(q, c - 1, m);
    ModPeriod(q * m, s, W64);
    SmallMod(q * m, W64);
  }

  lemma DivSmall(s: nat, c: nat, q: nat)
    requires q < c
    ensures (q + s * c) / c == s
  {
    var d := (q + s * c) / c;
    var e := (q + s * c) % c;
    assert (s - d) * c == e - q;
    SmallMultiple(s - d, c);
  }

  const SMALL: nat := 0x7F_FFFF

  /** can_direct() for a kind above Void. */
  predicate Fits(b: nat, r: nat, x: bool)
    requires b < W64 && r <= 8
  {
    RotateRight(Flip(b, x), r) <= SMALL
  }

  function Pack(k: Kind, imm: nat, r: nat, x: bool): nat {
    1 + 2 * KindCode(k) + (if k == Void then 0 else 32 * r + 256 * imm + (if x then 0x8000_0000 else 0))
  }

  /** make_direct(). */
  function MakeDirect(k: Kind, b: nat, r: nat, x: bool): nat
    requires b < W64 && r <= 8
  {
    Pack(k, RotateRight(Flip(b, x), r), r, x)
  }

  /** recurse(): the first rotation that fits, each tried plain and flipped; zero when none does. */
  function Search(k: Kind, b: nat, r: nat, x: bool): nat
    requires b < W64 && r <= 8
    decreases 8 - r, !x
  {
    if k == Void || Fits(b, r, x) then MakeDirect(k, b, r, x)
    else if !x then Search(k, b, r, true)
    else if r < 8 then Search(k, b, r + 1, false)
    else 0
  }

  /** The direct form of a constant, or zero. */
  function Encode(k: Kind, n: int): nat { Search(k, Bits64(n), 0, false) }

  function FieldKind(data: nat): Kind { KindOf(data / 2 % 16) }

  /** to_const(): the kind and the bits of a direct constant. */
  function Decode(data: nat): (Kind, nat) {
    var v := RotateLeft(data / 256 % 0x80_0000, data / 32 % 8);
    (FieldKind(data), if data / 0x8000_0000 % 2 == 1 then if v < W64 then W64 - 1 - v else 0 else v)
  }

  lemma {:induction false} KindBack(k: Kind)
    ensures KindOf(KindCode(k)) == k
  {
  }

  lemma Fields(k: Kind, imm: nat, r: nat, x: bool)
    requires imm <= SMALL && r < 8 && k != Void
    ensures var d := Pack(k, imm, r, x);
      && d < W32 && d % 2 == 1 && d / 2 % 16 == KindCode(k) && d / 32 % 8 == r && d / 256 % 0x80_0000 == imm
      && (d / 0x8000_0000 % 2 == 1 <==> x)
  {
    PackedFields(KindCode(k), r, imm, if x then 1 else 0, Pack(k, imm, r, x));
  }

  lemma PackedFields(c: nat, r: nat, imm: nat, top: nat, d: nat)
    requires c < 16 && r < 8 && imm <= SMALL && top < 2
    requires d == 1 + 2 * c + 32 * r + 256 * imm + 0x8000_0000 * top
    ensures d < W32 && d % 2 == 1 && d / 2 % 16 == c && d / 32 % 8 == r && d / 256 % 0x80_0000 == imm
    ensures d / 0x8000_0000 % 2 == top
  {
    assert d / 2 == c + 16 * (r + 8 * imm + 0x400_0000 * top);
    assert d / 32 == r + 8 * (imm + 0x80_0000 * top);
    assert d / 256 == imm + 0x80_0000 * top;
    assert d / 0x8000_0000 == top;
  }

  lemma PackBack(k: Kind, b: nat, r: nat, x: bool)
    requires b < W64 && r < 8 && k != Void && Fits(b, r, x)
    ensures Decode(MakeDirect(k, b, r, x)) == (k, b)
  {
    var v := RotateRight(Flip(b, x), r);
    Fields(k, v, r, x);
    KindBack(k);
    RotateBack(Flip(b, x), r);
  }

  predicate FitsSomehow(b: nat, r: nat)
    requires b < W64 && r <= 8
    decreases 8 - r
  {
    r < 8 && (Fits(b, r, false) || Fits(b, r, true) || FitsSomehow(b, r + 1))
  }

  predicate FitsPlainOrFlipped(b: nat, r: nat)
    requires b < W64 && r <= 8
  {
    Fits(b, r, false) || Fits(b, r, true)
  }

  /** From rotation r on, the search succeeds exactly when one fits, and what it finds decodes to the
      constant. The last step, to 64 bits, only tries again what failed at 0. */
  lemma {:induction false} SearchExact(k: Kind, b: nat, r: nat, x: bool)
    requires b < W64 && r <= 8 && k != Void
    requires r > 0 ==> !FitsPlainOrFlipped(b, 0)
    requires x ==> !Fits(b, r, false)
    ensures Search(k, b, r, x) != 0 <==> FitsSomehow(b, r)
    ensures Search(k, b, r, x) != 0 ==> Decode(Search(k, b, r, x)) == (k, b) && Search(k, b, r, x) < W32
    decreases 8 - r, !x
  {
    if r == 8 {
      assert Fits(b, 8, false) == Fits(b, 0, false) && Fits(b, 8, true) == Fits(b, 0, true);
    } else if Fits(b, r, x) {
      PackBack(k, b, r, x);
      Fields(k, RotateRight(Flip(b, x), r), r, x);
    } else if !x {
      SearchExact(k, b, r, true);
    } else {
      SearchExact(k, b, r + 1, false);
    }
  }

  /** A direct constant decodes to its kind and its 64 bits, and a constant is direct exactly when some
      byte rotation of its bits or of their complement fits 23 bits. */
  lemma EncodeExact(k: Kind, n: int)
    requires k != Void
    ensures Encode(k, n) != 0 <==> exists r: nat, x: bool :: r < 8 && Fits(Bits64(n), r, x)
    ensures Encode(k, n) != 0 ==> Decode(Encode(k, n)) == (k, Bits64(n)) && Encode(k, n) < W32
  {
    SearchExact(k, Bits64(n), 0, false);
    FitsAny(Bits64(n), 0);
  }

  /** The fields of a direct constant: the least rotation that fits, the bits flipped only if they do not fit as they are,
      and what is left of them in the lowest 23 bits then. */
  lemma EncodeFirst(k: Kind, n: int, r: nat, x: bool)
    requires k != Void && r < 8 && Fits(Bits64(n), r, x) && (x ==> !Fits(Bits64(n), r, false))
    requires forall q: nat, y: bool :: q < r ==> !Fits(Bits64(n), q, y)
    ensures var data := Encode(k, n);
      && data / 32 % 8 == r && (data / 0x8000_0000 % 2 == 1 <==> x)
      && data / 256 % 0x80_0000 == RotateRight(Flip(Bits64(n), x), r)
  {
    SearchFirst(k, Bits64(n), 0, r, x);
    Fields(k, RotateRight(Flip(Bits64(n), x), r), r, x);
  }

  lemma {:induction false} SearchFirst(k: Kind, b: nat, q: nat, r: nat, x: bool)
    requires b < W64 && k != Void && q <= r < 8 && Fits(b, r, x) && (x ==> !Fits(b, r, false))
    requires forall p: nat, y: bool :: q <= p < r ==> !Fits(b, p, y)
    ensures Search(k, b, q, false) == MakeDirect(k, b, r, x)
    decreases r - q
  {
    if q < r {
      assert !Fits(b, q, false) && !Fits(b, q, true);
      SearchFirst(k, b, q + 1, r, x);
    }
  }

  lemma {:induction false} FitsAny(b: nat, r: nat)
    requires b < W64 && r <= 8
    ensures FitsSomehow(b, r) <==> exists q: nat, x: bool :: r <= q < 8 && Fits(b, q, x)
    decreases 8 - r
  {
    if r < 8 {
      FitsAny(b, r + 1);
      if FitsSomehow(b, r) && !FitsSomehow(b, r + 1) {
        assert Fits(b, r, false) || Fits(b, r, true);
      }
    }
  }

  lemma FirstRotation(b: nat)
    requires b < W64
    ensures RotateRight(b, 0) == b
  {
  }

  /** Numbers of at most 23 bits, signed or not, are direct; so is every constant of 8 or 16 bits. */
  lemma SmallIsDirect(k: Kind, n: int)
    requires k != Void && -0x80_0000 <= n <= SMALL
    ensures Encode(k, n) != 0
  {
    EncodeExact(k, n);
    FirstRotation(Flip(Bits64(n), n < 0));
    if n < 0 {
      ModPeriod(n, 1, W64);
      SmallMod(n + W64, W64);
    } else {
      SmallMod(n, W64);
    }
    assert Fits(Bits64(n), 0, n < 0);
  }

  /** Direct forms tell constants of one kind apart. */
  lemma EncodeInjective(k: Kind, a: int, b: int)
    requires Canonical(k, a) && Canonical(k, b)
    requires Encode(k, a) != 0 && Encode(k, a) == Encode(k, b)
    ensures a == b
  {
    WordRange(k, a);
    WordRange(k, b);
    if k != Void {
      EncodeExact(k, a);
      EncodeExact(k, b);
      BitsInjective(a, b);
    }
  }

  lemma WordRange(k: Kind, n: int)
    requires Canonical(k, n)
    ensures if IsSigned(k) then -0x8000_0000_0000_0000 <= n < 0x8000_0000_0000_0000 else 0 <= n < W64
    ensures k == Void ==> n == 0
  {
    CanonicalRange(k, n);
    Pow2Word();
  }

  lemma Pow2Word()
    ensures Pow2(64) == W64 && Pow2(63) == 0x8000_0000_0000_0000
    ensures Pow2(32) == 0x1_0000_0000 && Pow2(31) == 0x8000_0000
    ensures Pow2(16) == 0x1_0000 && Pow2(15) == 0x8000 && Pow2(8) == 0x100 && Pow2(7) == 0x80 && Pow2(1) == 2
  {
    Pow2Double(1, 2);
    Pow2Double(2, 4);
    Pow2Double(4, 0x10);
    Pow2Double(8, 0x100);
    Pow2Double(16, 0x1_0000);
    Pow2Double(32, 0x1_0000_0000);
  }

  lemma Pow2Double(n: nat, p: nat)
    requires n > 0 && Pow2(n) == p
    ensures Pow2(2 * n) == p * p && 2 * Pow2(2 * n - 1) == p * p
  {
    Pow2Add(n, n);
  }

  lemma BitsInjective(a: int, b: int)
    requires Bits64(a) == Bits64(b) && a - b < W64 && b - a < W64
    ensures a == b
  {
    SmallMultiple(a / W64 - b / W64, W64);
  }

  // ---------------------------------------------------------------- variables

  const MAX_ID: nat := 0x100_0000

  /** Local::val_: the kind in the low byte, the id in the 24 bits above. */
  function LocalWord(k: Kind, id: nat): nat { KindCode(k) + 0x100 * (id % MAX_ID) }

  /** The direct form of a variable, or zero when its id does not fit 21 bits. */
  function EncodeLocal(k: Kind, id: nat): nat {
    if LocalWord(k, id) / 0x2000_0000 == 0 then 2 + 8 * LocalWord(k, id) else 0
  }

  function DecodeLocal(data: nat): (Kind, nat) { (KindOf(data / 8 % 0x100), data / 8 / 0x100) }

  /** A variable is direct exactly when its id is below 2^21, and then its direct form decodes to it. */
  lemma LocalExact(k: Kind, id: nat)
    requires id < MAX_ID
    ensures EncodeLocal(k, id) != 0 <==> id < 0x20_0000
    ensures EncodeLocal(k, id) != 0 ==> DecodeLocal(EncodeLocal(k, id)) == (k, id) && EncodeLocal(k, id) < W32
  {
    KindBack(k);
  }

  /** The low bits tell the two direct forms from each other and from offsets, which are multiples of 4. */
  lemma TagsDiffer(k: Kind, n: int, k2: Kind, id: nat)
    requires k != Void
    ensures Encode(k, n) != 0 ==> Encode(k, n) % 2 == 1
    ensures EncodeLocal(k2, id) != 0 ==> EncodeLocal(k2, id) % 8 == 2
  {
    SearchOdd(k, Bits64(n), 0, false);
    TagOfLocal(LocalWord(k2, id));
  }

  lemma TagOfLocal(w: nat)
    ensures (2 + 8 * w) % 8 == 2
  {
  }

  lemma PackOdd(k: Kind, imm: nat, r: nat, x: bool)
    ensures Pack(k, imm, r, x) % 2 == 1
  {
    if k != Void {
      assert Pack(k, imm, r, x) == 1 + 2 * (KindCode(k) + 16 * r + 128 * imm + (if x then 0x4000_0000 else 0));
    }
  }

  lemma {:induction false} SearchOdd(k: Kind, b: nat, r: nat, x: bool)
    requires b < W64 && r <= 8
    ensures Search(k, b, r, x) != 0 ==> Search(k, b, r, x) % 2 == 1
    decreases 8 - r, !x
  {
    if k == Void || Fits(b, r, x) {
      PackOdd(k, RotateRight(Flip(b, x), r), r, x);
    } else {
      if !x {
        SearchOdd(k, b, r, true);
      } else if r < 8 {
        SearchOdd(k, b, r + 1, false);
      }
    }
  }
}
