/** The class BitSet of onestl/bitset.cpp: a sequence of bits in an array of 64-bit words, changed in
    place. Bits behind the end may be stale; every operation is proved against the sequence of bits. */
module BitSets {
  import opened Bits
  import opened Stmts
  import opened Imm
  import opened WordBits

  /** The i-th bit of the words. */
  predicate Bit(words: seq<nat>, i: nat) { i / 64 < |words| && Has(words[i / 64], i % 64) }

  /** The first n bits of the words. */
  function BitsOf(words: seq<nat>, n: nat): (s: seq<bool>)
    ensures |s| == n && forall i :: 0 <= i < n ==> s[i] == Bit(words, i)
  {
    seq(n, i requires 0 <= i < n => Bit(words, i))
  }

  predicate Words(words: seq<nat>) { forall k :: 0 <= k < |words| ==> words[k] < W64 }

  function Min(a: nat, b: nat): nat { if a < b then a else b }

  /** b is a with the bits of [lo, hi) replaced by value. */
  ghost predicate Filled(a: seq<nat>, b: seq<nat>, value: bool, lo: nat, hi: nat) {
    |a| == |b| && forall i: nat {:trigger Bit(b, i)} :: i < 64 * |a| ==> Bit(b, i) == if lo <= i < hi then value else Bit(a, i)
  }

  lemma FilledTwice(a: seq<nat>, b: seq<nat>, c: seq<nat>, value: bool, lo: nat, mid: nat, hi: nat)
    requires Filled(a, b, value, lo, mid) && Filled(b, c, value, mid, hi) && lo <= mid <= hi
    ensures Filled(a, c, value, lo, hi)
  {
    forall i: nat | i < 64 * |a| ensures Bit(c, i) == if lo <= i < hi then value else Bit(a, i) {
      assert Bit(c, i) == if mid <= i < hi then value else Bit(b, i);
    }
  }

  lemma FilledThrice(a: seq<nat>, b: seq<nat>, c: seq<nat>, d: seq<nat>, value: bool, lo: nat, mid: nat, mid': nat,
                     hi: nat)
    requires Filled(a, b, value, lo, mid) && Filled(b, c, value, mid, mid') && Filled(c, d, value, mid', hi)
    requires lo <= mid <= mid' <= hi
    ensures Filled(a, d, value, lo, hi)
  {
    FilledTwice(a, b, c, value, lo, mid, mid');
    FilledTwice(a, c, d, value, lo, mid', hi);
  }

  lemma NextWord(i: nat)
    ensures var j := i - i % 64 + 64; j > i && j % 64 == 0 && j / 64 == i / 64 + 1
  {
    assert i == i / 64 * 64 + i % 64;
  }

  /** r is the first position from start on, below end, whose bit is value. */
  ghost predicate IsFirst(words: seq<nat>, value: bool, start: nat, end: nat, r: Option<nat>) {
    match r
    case Some(p) => start <= p < end && Bit(words, p) == value && forall i: nat :: start <= i < p ==> Bit(words, i) != value
    case None => forall i: nat :: start <= i < end ==> Bit(words, i) != value
  }

  // ---------------------------------------------------------------- masks

  /** What a blend does to a word whose fill mask covers [lo, hi). */
  lemma BlendFills(a: seq<nat>, k: nat, keep: nat, value: bool, fill: nat, lo: nat, hi: nat)
    requires Words(a) && k < |a| && keep < W64 && fill < W64 && 64 * k <= lo <= hi <= 64 * k + 64
    requires forall j: nat :: j < 64 ==> (Has(fill, j) <==> lo <= 64 * k + j < hi) && Has(keep, j) == !Has(fill, j)
    ensures var b := a[k := Blend(a[k], keep, Pattern(value), fill)]; Words(b) && Filled(a, b, value, lo, hi)
  {
    var b := a[k := Blend(a[k], keep, Pattern(value), fill)];
    forall i: nat | i < 64 * |a| ensures Bit(b, i) == if lo <= i < hi then value else Bit(a, i) {
      if i / 64 == k {
        assert i == 64 * k + i % 64;
        BlendBit(a[k], keep, value, fill, i % 64);
      }
    }
  }

  lemma SetMasks(n: nat, j: nat)
    requires n < 64 && j < 64
    ensures Pow2(n) < W64
    ensures (Has(Pow2(n), j) <==> j == n) && Has(Not(Pow2(n)), j) == !Has(Pow2(n), j)
  {
    SmallPow2(n);
    OneBit(n, j);
    NotBit(Pow2(n), j);
  }

  lemma HeadMasks(n: nat, j: nat)
    requires n < 64 && j < 64
    ensures (Has(HighMask(n), j) <==> j >= n) && Has(Not(HighMask(n)), j) == !Has(HighMask(n), j)
  {
    HighMaskBit(n, j);
    NotBit(HighMask(n), j);
  }

  /** The masks of a fragment inside of one word. */
  lemma MiddleMasks(head: nat, tail: nat, j: nat)
    requires head < 64 && tail < 64 && j < 64
    ensures 0 <= BitOp(OrFn, Not(HighMask(head)), HighMask(tail)) < W64
    ensures 0 <= BitOp(AndFn, HighMask(head), Not(HighMask(tail))) < W64
    ensures Has(BitOp(AndFn, HighMask(head), Not(HighMask(tail))), j) <==> head <= j < tail
    ensures Has(BitOp(OrFn, Not(HighMask(head)), HighMask(tail)), j) <==> !(head <= j < tail)
  {
    HeadMasks(head, j);
    HeadMasks(tail, j);
    InWord(OrFn, Not(HighMask(head)), HighMask(tail));
    InWord(AndFn, HighMask(head), Not(HighMask(tail)));
    BitOfOp(OrFn, Not(HighMask(head)), HighMask(tail), j);
    BitOfOp(AndFn, HighMask(head), Not(HighMask(tail)), j);
  }

  lemma PatternFills(a: seq<nat>, k: nat, value: bool)
    requires Words(a) && k < |a|
    ensures var b := a[k := Pattern(value)]; Words(b) && Filled(a, b, value, 64 * k, 64 * k + 64)
  {
    var b := a[k := Pattern(value)];
    forall i: nat | i < 64 * |a| ensures Bit(b, i) == if 64 * k <= i < 64 * k + 64 then value else Bit(a, i) {
      if i / 64 == k {
        PatternBit(value, i % 64);
      }
    }
  }

  // ---------------------------------------------------------------- searching

  /** xor_pattern ^ word. */
  function Matching(w: nat, value: bool): (r: nat)
    requires w < W64
    ensures r < W64
  {
    InWord(XorFn, Pattern(!value), w);
    BitOp(XorFn, Pattern(!value), w)
  }

  lemma MatchingBit(w: nat, value: bool, j: nat)
    requires w < W64 && j < 64
    ensures Has(Matching(w, value), j) <==> Has(w, j) == value
  {
    InWord(XorFn, Pattern(!value), w);
    BitOfOp(XorFn, Pattern(!value), w, j);
    PatternBit(!value, j);
    BitRange(w, j);
    BitRange(Pattern(!value), j);
  }

  /** The loop of find() over whole words. */
  function FindWords(words: seq<nat>, value: bool, start: nat, end: nat): Option<nat>
    requires Words(words) && start % 64 == 0 && end <= 64 * |words|
    decreases end - start
  {
    if start >= end then None
    else
      var bits := Matching(words[start / 64], value);
      if bits != 0 then Limit(start + FirstSet(bits) - 1, end)
      else FindWords(words, value, start + 64, end)
  }

  function Limit(p: nat, end: nat): Option<nat> { if p < end then Some(p) else None }

  /** find(), from the position that the word of `start` is shifted to. */
  function Find(words: seq<nat>, value: bool, start: nat, end: nat): Option<nat>
    requires Words(words) && end <= 64 * |words|
  {
    if start >= end then None
    else
      var bits := Matching(Shifted(words[start / 64], start % 64), value);
      if bits != 0 then Limit(start + FirstSet(bits) - 1, end)
      else FindWords(words, value, 64 + start / 64 * 64, end)
  }

  function Shifted(w: nat, s: nat): (r: nat)
    requires w < W64
    ensures r < W64
  {
    DivLess(w, Pow2(s));
    w / Pow2(s)
  }

  lemma DivLess(w: nat, p: nat)
    requires p > 0
    ensures 0 <= w / p <= w
  {
    var q := w / p;
    assert w == q * p + w % p;
    MulMono(1, p, q);
  }

  /** The first match inside of a word. */
  lemma FirstInWord(bits: nat, start: nat, words: seq<nat>, value: bool, end: nat, n: nat)
    requires 0 < bits < W64 && n <= 64
    requires forall j: nat :: j < n ==> (Has(bits, j) <==> Bit(words, start + j) == value)
    requires FirstSet(bits) <= n
    ensures IsFirst(words, value, start, end, Limit(start + FirstSet(bits) - 1, end))
  {
    Pow2Word();
    var p := FirstSet(bits) - 1;
    FirstSetExact(bits, 64, 0);
    NoneBefore(bits, start, words, value, n, p);
  }

  lemma NoneBefore(bits: nat, start: nat, words: seq<nat>, value: bool, n: nat, p: nat)
    requires 0 < bits < W64 && p < FirstSet(bits) && p <= n <= 64
    requires forall j: nat :: j < n ==> (Has(bits, j) <==> Bit(words, start + j) == value)
    ensures forall i: nat :: start <= i < start + p ==> Bit(words, i) != value
  {
    Pow2Word();
    forall i: nat | start <= i < start + p
      ensures Bit(words, i) != value
    {
      var j: nat := i - start;
      FirstSetExact(bits, 64, j);
      assert i == start + j && !Has(bits, j);
    }
  }

  lemma {:induction false} FindWordsExact(words: seq<nat>, value: bool, start: nat, end: nat)
    requires Words(words) && start % 64 == 0 && end <= 64 * |words|
    ensures IsFirst(words, value, start, end, FindWords(words, value, start, end))
    decreases end - start
  {
    if start < end {
      var w := words[start / 64];
      var bits := Matching(w, value);
      WordMatches(words, value, start);
      Pow2Word();
      FirstSetExact(bits, 64, 0);
      if bits != 0 {
        FirstInWord(bits, start, words, value, end, 64);
      } else {
        FindWordsExact(words, value, start + 64, end);
        NotInWord(bits, start, words, value, end, FindWords(words, value, start + 64, end));
      }
    }
  }

  lemma NotInWord(bits: nat, start: nat, words: seq<nat>, value: bool, end: nat, r: Option<nat>)
    requires bits == 0 && forall j: nat :: j < 64 ==> (Has(bits, j) <==> Bit(words, start + j) == value)
    requires IsFirst(words, value, start + 64, end, r)
    ensures IsFirst(words, value, start, end, r)
  {
    NoneInWord(bits, start, words, value, 64);
    FirstLater(words, value, start, start + 64, end, r);
  }

  lemma WordMatches(words: seq<nat>, value: bool, start: nat)
    requires Words(words) && start % 64 == 0 && start / 64 < |words|
    ensures forall j: nat :: j < 64 ==> (Has(Matching(words[start / 64], value), j) <==> Bit(words, start + j) == value)
  {
    forall j: nat | j < 64
      ensures Has(Matching(words[start / 64], value), j) <==> Bit(words, start + j) == value
    {
      MatchingBit(words[start / 64], value, j);
    }
  }

  lemma NoneInWord(bits: nat, start: nat, words: seq<nat>, value: bool, n: nat)
    requires bits == 0 && forall j: nat :: j < n ==> (Has(bits, j) <==> Bit(words, start + j) == value)
    ensures forall i: nat :: start <= i < start + n ==> Bit(words, i) != value
  {
    forall i: nat | start <= i < start + n ensures Bit(words, i) != value {
      var j: nat := i - start;
      ZeroBits(j);
      assert !Has(bits, j) && i == start + j;
    }
  }

  /** What is left of the first word: its bits from `start` on, and zeros shifted in above them. */
  lemma ShiftedBits(words: seq<nat>, value: bool, start: nat, j: nat)
    requires Words(words) && start / 64 < |words| && j < 64
    ensures var bits := Matching(Shifted(words[start / 64], start % 64), value);
      Has(bits, j) <==> (if j < 64 - start % 64 then Bit(words, start + j) == value else !value)
  {
    var (w, s) := (words[start / 64], start % 64);
    MatchingBit(Shifted(w, s), value, j);
    ShiftRight(w, s, j);
    if j < 64 - s {
      assert (start + j) / 64 == start / 64 && (start + j) % 64 == s + j;
    } else {
      Pow2Word();
      HighBits(w, 64, s + j);
    }
  }

  lemma {:induction false} HighBits(w: nat, n: nat, i: nat)
    requires w < Pow2(n) && i >= n
    ensures BitAt(w, i) == 0
  {
    if n == 0 {
      ZeroBits(i);
    } else {
      HighBits(w / 2, n - 1, i - 1);
    }
  }

  /** The search for a clear bit starts at a word, or stops before the next word, or finds its clear bit in
      the rest of the first word or at the start of the next. */
  ghost predicate Searchable(words: seq<nat>, value: bool, start: nat, end: nat) {
    var next := 64 + start / 64 * 64;
    value || start % 64 == 0 || end <= next || !Bit(words, next) || exists i: nat :: start <= i < next && !Bit(words, i)
  }

  /** Searching for a set bit is right from every position. Searching for a clear bit takes a zero that
      was shifted in for one, and is right exactly when that does not matter. */
  lemma FindExact(words: seq<nat>, value: bool, start: nat, end: nat)
    requires Words(words) && end <= 64 * |words|
    ensures IsFirst(words, value, start, end, Find(words, value, start, end)) <==> Searchable(words, value, start, end)
  {
    if start < end {
      var n := 64 - start % 64;
      var bits := Matching(Shifted(words[start / 64], start % 64), value);
      forall j: nat | j < 64 ensures
        Has(bits, j) <==> (if j < n then Bit(words, start + j) == value else !value)
      {
        ShiftedBits(words, value, start, j);
      }
      if bits == 0 {
        FindOnward(words, value, start, end, bits, n);
      } else if FirstSet(bits) <= n {
        FindHere(words, value, start, end, bits, n);
      } else {
        AllOthers(words, value, start, n, bits);
        ShiftedZero(words, start, start + n, end);
      }
    }
  }

  /** Bits 1 to 64 are set; the search for a clear bit from 1 on stops at one of them. */
  lemma ClearBitMissed()
    ensures var words := [W64 - 1, 1];
      && (forall i: nat :: 1 <= i <= 64 ==> Bit(words, i))
      && !IsFirst(words, false, 1, 128, Find(words, false, 1, 128))
  {
    var words := [W64 - 1, 1];
    forall i: nat | 1 <= i <= 64 ensures Bit(words, i) {
      OnesWord(words, i);
    }
    FindExact(words, false, 1, 128);
  }

  lemma OnesWord(words: seq<nat>, i: nat)
    requires words == [W64 - 1, 1] && i <= 64
    ensures Bit(words, i)
  {
    if i < 64 {
      NotBit(0, i);
      ZeroBits(i);
    }
  }

  lemma FindOnward(words: seq<nat>, value: bool, start: nat, end: nat, bits: nat, n: nat)
    requires Words(words) && start < end <= 64 * |words| && n == 64 - start % 64 && bits == 0
    requires forall j: nat :: j < 64 ==> (Has(bits, j) <==> (if j < n then Bit(words, start + j) == value else !value))
    ensures IsFirst(words, value, start, end, FindWords(words, value, start + n, end))
    ensures Searchable(words, value, start, end)
  {
    ZeroBits(63);
    assert !Has(bits, 63);
    NoneInWord(bits, start, words, value, n);
    FindWordsExact(words, value, start + n, end);
    FirstLater(words, value, start, start + n, end, FindWords(words, value, start + n, end));
  }

  lemma FindHere(words: seq<nat>, value: bool, start: nat, end: nat, bits: nat, n: nat)
    requires n == 64 - start % 64 && 0 < bits < W64 && FirstSet(bits) <= n
    requires forall j: nat :: j < 64 ==> (Has(bits, j) <==> (if j < n then Bit(words, start + j) == value else !value))
    ensures IsFirst(words, value, start, end, Limit(start + FirstSet(bits) - 1, end))
    ensures Searchable(words, value, start, end)
  {
    Pow2Word();
    FirstSetExact(bits, 64, 0);
    FirstInWord(bits, start, words, value, end, n);
    assert Bit(words, start + FirstSet(bits) - 1) == value;
  }

  lemma FirstLater(words: seq<nat>, value: bool, start: nat, next: nat, end: nat, r: Option<nat>)
    requires start <= next && IsFirst(words, value, next, end, r)
    requires forall i: nat :: start <= i < next ==> Bit(words, i) != value
    ensures IsFirst(words, value, start, end, r)
  {
  }

  /** The search stops at the next word, whatever its first bit. */
  lemma ShiftedZero(words: seq<nat>, start: nat, next: nat, end: nat)
    requires start < next && forall i: nat :: start <= i < next ==> Bit(words, i)
    ensures IsFirst(words, false, start, end, Limit(next, end)) <==> end <= next || !Bit(words, next)
  {
  }

  /** No match in the first word, but a zero that was shifted in. */
  lemma AllOthers(words: seq<nat>, value: bool, start: nat, n: nat, bits: nat)
    requires 0 < bits < W64 && n <= 64 && FirstSet(bits) > n
    requires forall j: nat :: j < 64 ==> (Has(bits, j) <==> (if j < n then Bit(words, start + j) == value else !value))
    ensures !value && n < 64 && FirstSet(bits) == n + 1
    ensures forall i: nat :: start <= i < start + n ==> Bit(words, i)
  {
    Pow2Word();
    FirstSetExact(bits, 64, n);
    assert Has(bits, FirstSet(bits) - 1);
    forall i: nat | start <= i < start + n ensures Bit(words, i) {
      FirstSetExact(bits, 64, i - start);
      assert i == start + (i - start);
    }
  }

  // ---------------------------------------------------------------- the class

  class BitSet {
    var data: array<nat>
    var size: nat
    var cap: nat

    ghost predicate Valid()
      reads this, data
    {
      cap == 64 * data.Length && size <= cap && Words(data[..])
    }

    /** The bits. */
    ghost function Contents(): (s: seq<bool>)
      reads this, data
      requires Valid()
      ensures |s| == size
    {
      BitsOf(data[..], size)
    }

    constructor (size: nat)
      ensures Valid() && fresh(data) && this.size == size
      ensures Contents() == seq(size, i => false)
    {
      var n := (size + 63) / 64;
      data := new nat[n](i => 0);
      this.size := size;
      cap := n * 64;
      new;
      forall i: nat | i < 64 * data.Length ensures !Bit(data[..], i) {
        ZeroBits(i % 64);
      }
    }

    /** operator[]: false outside. */
    method Get(index: nat) returns (r: bool)
      requires Valid()
      ensures r == if index < size then Contents()[index] else false
    {
      if index >= size {
        return false;
      }
      BitAtShift(data[index / 64], index % 64);
      return data[index / 64] / Pow2(index % 64) % 2 == 1;
    }

    method Set(index: nat, value: bool)
      requires Valid()
      modifies data
      ensures Valid() && Filled(old(data[..]), data[..], value, index, if index < size then index + 1 else index)
      ensures Contents() == if index < size then old(Contents())[index := value] else old(Contents())
    {
      if index >= size {
        return;
      }
      var k := index / 64;
      var fill := Pow2(index % 64);
      SmallPow2(index % 64);
      var keep := Not(fill);
      forall j: nat | j < 64
        ensures (Has(fill, j) <==> index <= 64 * k + j < index + 1) && Has(keep, j) == !Has(fill, j)
      {
        SetMasks(index % 64, j);
      }
      BlendFills(data[..], k, keep, value, fill, index, index + 1);
      data[k] := Blend(data[k], keep, Pattern(value), fill);
    }

    method FindBit(value: bool, start: nat, limit: nat) returns (r: Option<nat>)
      requires Valid()
      ensures r == Find(data[..], value, start, Min(limit, size))
    {
      var end := Min(limit, size);
      if start >= end {
        return None;
      }
      var bits := Matching(Shifted(data[start / 64], start % 64), value);
      if bits != 0 {
        return Limit(start + FirstSet(bits) - 1, end);
      }
      r := FindInWords(value, 64 + start / 64 * 64, end);
    }

    /** The loop of find(), over whole words. */
    method FindInWords(value: bool, start: nat, end: nat) returns (r: Option<nat>)
      requires Valid() && start % 64 == 0 && end <= size
      ensures r == FindWords(data[..], value, start, end)
    {
      var pos := start;
      while pos < end
        invariant pos % 64 == 0 && FindWords(data[..], value, pos, end) == FindWords(data[..], value, start, end)
      {
        var bits := Matching(data[pos / 64], value);
        if bits != 0 {
          return Limit(pos + FirstSet(bits) - 1, end);
        }
        pos := pos + 64;
      }
      return None;
    }

    method Fill(value: bool, from: nat, limit: nat)
      requires Valid()
      modifies data
      ensures Valid() && Filled(old(data[..]), data[..], value, from, Min(limit, size))
    {
      var end := Min(limit, size);
      if from >= end {
        return;
      }
      if from / 64 == end / 64 {
        FillMiddle(value, from, end);
        return;
      }
      FillAcross(value, from, end);
    }

    /** The rest of a first word, whole words, and the front of a last one. */
    method FillAcross(value: bool, from: nat, end: nat)
      requires Valid() && from <= end <= size && from / 64 < end / 64
      modifies data
      ensures Valid() && Filled(old(data[..]), data[..], value, from, end)
    {
      var start := from;
      ghost var a := data[..];
      if start % 64 != 0 {
        NextWord(start);
        FillHead(value, start);
        start := start - start % 64 + 64;
      }
      ghost var (b, mid) := (data[..], start);
      FillBulk(value, start / 64, end / 64);
      ghost var c := data[..];
      start := end / 64 * 64;
      if end % 64 != 0 {
        FillTail(value, end);
      }
      FilledThrice(a, b, c, data[..], value, from, mid, start, end);
    }

    /** A fragment inside of one word. */
    method FillMiddle(value: bool, start: nat, end: nat)
      requires Valid() && start < end <= size && start / 64 == end / 64
      modifies data
      ensures Valid() && Filled(old(data[..]), data[..], value, start, end)
    {
      var head, tail := start % 64, end % 64;
      var k := start / 64;
      MiddleMasks(head, tail, 0);
      var keep: nat := BitOp(OrFn, Not(HighMask(head)), HighMask(tail));
      var fill: nat := BitOp(AndFn, HighMask(head), Not(HighMask(tail)));
      forall j: nat | j < 64
        ensures (Has(fill, j) <==> start <= 64 * k + j < end) && Has(keep, j) == !Has(fill, j)
      {
        MiddleMasks(head, tail, j);
      }
      BlendFills(data[..], k, keep, value, fill, start, end);
      data[k] := Blend(data[k], keep, Pattern(value), fill);
    }

    method FillHead(value: bool, start: nat)
      requires Valid() && start < size && start % 64 != 0
      modifies data
      ensures Valid() && Filled(old(data[..]), data[..], value, start, start - start % 64 + 64)
    {
      var head := start % 64;
      var k := start / 64;
      var fill := HighMask(head);
      var keep := Not(fill);
      forall j: nat | j < 64
        ensures (Has(fill, j) <==> start <= 64 * k + j < 64 * k + 64) && Has(keep, j) == !Has(fill, j)
      {
        HeadMasks(head, j);
      }
      BlendFills(data[..], k, keep, value, fill, start, 64 * k + 64);
      data[k] := Blend(data[k], keep, Pattern(value), fill);
    }

    /** memset() of whole words. */
    method FillBulk(value: bool, lo: nat, hi: nat)
      requires Valid() && lo <= hi <= data.Length
      modifies data
      ensures Valid() && Filled(old(data[..]), data[..], value, 64 * lo, 64 * hi)
    {
      for k := lo to hi
        invariant Valid() && Filled(old(data[..]), data[..], value, 64 * lo, 64 * k)
      {
        ghost var before := data[..];
        PatternFills(data[..], k, value);
        data[k] := Pattern(value);
        FilledTwice(old(data[..]), before, data[..], value, 64 * lo, 64 * k, 64 * k + 64);
      }
    }

    method FillTail(value: bool, end: nat)
      requires Valid() && end <= size && end % 64 != 0
      modifies data
      ensures Valid() && Filled(old(data[..]), data[..], value, end / 64 * 64, end)
    {
      var k := end / 64;
      var keep := HighMask(end % 64);
      var fill := Not(keep);
      forall j: nat | j < 64
        ensures (Has(fill, j) <==> 64 * k <= 64 * k + j < end) && Has(keep, j) == !Has(fill, j)
      {
        HeadMasks(end % 64, j);
      }
      BlendFills(data[..], k, keep, value, fill, 64 * k, end);
      data[k] := Blend(data[k], keep, Pattern(value), fill);
    }

    /** Leaves the bits behind the new end as they are. */
    method Truncate(n: nat)
      requires Valid()
      modifies this`size
      ensures Valid() && Contents() == if n < old(size) then old(Contents())[..n] else old(Contents())
    {
      if size > n {
        size := n;
      }
    }

    /** New bits are false, whatever was truncated before. */
    method Resize(n: nat)
      requires Valid()
      modifies this, data
      ensures Valid() && (data == old(data) || fresh(data)) && size == n
      ensures Contents() == if n <= |old(Contents())| then old(Contents())[..n]
        else old(Contents()) + seq(n - |old(Contents())|, i => false)
    {
      if size >= n {
        size := n;
        return;
      }
      Grow(n);
    }

    method Grow(n: nat)
      requires Valid() && size < n
      modifies this, data
      ensures Valid() && (data == old(data) || fresh(data)) && size == n
      ensures Contents() == old(Contents()) + seq(n - |old(Contents())|, i => false)
    {
      var oldCap, oldSize := cap, size;
      ghost var a := data[..];
      if oldCap < n {
        GrowCap(n);
      }
      ghost var b := data[..];
      assert Extended(a, b) by {
        if oldCap >= n {
          assert a == b;
        }
      }
      size := n;
      var end := Min(n, oldCap);
      if oldSize < end {
        Fill(false, oldSize, end);
      }
      GrownBits(a, b, data[..], oldSize, end, n, oldCap);
    }

    method GrowCap(min: nat)
      requires Valid() && cap < min
      modifies this`data, this`cap
      ensures Valid() && fresh(data) && size == old(size) && cap >= min && Extended(old(data[..]), data[..])
    {
      var twice := if cap >= 64 then cap * 2 else 64;
      Realloc(if min >= twice then min else twice);
    }

    method Reserve(n: nat)
      requires Valid()
      modifies this`data, this`cap
      ensures Valid() && (data == old(data) || fresh(data)) && size == old(size) && cap >= n && Contents() == old(Contents())
    {
      if n > cap {
        ghost var a := data[..];
        Realloc(n);
        forall i | 0 <= i < size ensures Bit(data[..], i) == Bit(a, i) {
          assert data[..][i / 64] == a[i / 64];
        }
      }
    }

    method Realloc(n: nat)
      requires Valid() && n > cap
      modifies this`data, this`cap
      ensures Valid() && fresh(data) && size == old(size) && cap >= n && Extended(old(data[..]), data[..])
    {
      var count := (n + 63) / 64;
      var before := data;
      var words := new nat[count](i requires 0 <= i < count reads before =>
        if i < before.Length then before[i] else 0);
      data := words;
      cap := count * 64;
    }

    /** memcpy() of the words in use. */
    method Copy(src: BitSet)
      requires Valid() && src.Valid() && src.size == size && src.data != data
      modifies data
      ensures Valid() && Contents() == src.Contents()
    {
      var n := (size + 63) / 64;
      for k := 0 to n
        invariant Valid() && data[..k] == src.data[..k] && src.Valid()
      {
        data[k] := src.data[k];
        assert data[..k + 1] == data[..k] + [data[k]];
      }
      forall i | 0 <= i < size ensures Bit(data[..], i) == Bit(src.data[..], i) {
        assert data[..n][i / 64] == src.data[..n][i / 64];
      }
    }
  }

  /** b is a, with zero words behind it. */
  predicate Extended(a: seq<nat>, b: seq<nat>) {
    |a| <= |b| && b[..|a|] == a && forall k :: |a| <= k < |b| ==> b[k] == 0
  }

  lemma GrownBits(a: seq<nat>, b: seq<nat>, c: seq<nat>, size: nat, end: nat, n: nat, cap: nat)
    requires Extended(a, b) && cap == 64 * |a| && size <= cap && n <= 64 * |b| && size < n && end == Min(n, cap)
    requires if size < end then Filled(b, c, false, size, end) else c == b
    ensures |c| == |b| && forall i: nat :: i < n ==> Bit(c, i) == if i < size then Bit(a, i) else false
  {
    forall i: nat | i < n ensures Bit(c, i) == if i < size then Bit(a, i) else false {
      if i < cap {
        assert b[i / 64] == b[..|a|][i / 64] == a[i / 64];
      } else {
        ZeroBits(i % 64);
      }
    }
  }
}
