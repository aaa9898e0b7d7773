/** Trees in a flat buffer of 32-bit items: onejit/code.cpp, onejit/ir/node.cpp, onejit/ir/header.hpp and
    onejit/codeparser.cpp. A parent holds a direct child itself, and of any other child the distance to
    it, modulo 2^32. */
module Codec {
  import opened Stmts
  import opened Imm

  // ---------------------------------------------------------------- headers

  /** Type, kind and op of a node, as numbers. */
  datatype Header = Header(type_: nat, kind: nat, op: nat) {
    predicate Valid() { type_ < 16 && kind < 0x100 && op < 0x1_0000 }
  }

  function HeaderItem(h: Header): nat { 14 + 16 * h.type_ + 0x100 * h.kind + 0x1_0000 * h.op }

  function ParseHeader(item: nat): Header { Header(item / 16 % 16, item / 0x100 % 0x100, item / 0x1_0000 % 0x1_0000) }

  lemma HeaderBack(h: Header)
    requires h.Valid()
    ensures ParseHeader(HeaderItem(h)) == h && HeaderItem(h) < W32 && HeaderItem(h) % 16 == 14
  {
    assert HeaderItem(h) / 16 == h.type_ + 16 * h.kind + 0x1000 * h.op;
    assert HeaderItem(h) / 0x100 == h.kind + 0x100 * h.op;
    assert HeaderItem(h) / 0x1_0000 == h.op;
  }

  const T_STMT_N: nat := 5
  const T_VAR: nat := 6
  const T_MEM: nat := 7
  const T_TUPLE: nat := 10
  const T_LABEL: nat := 11
  const T_CONST: nat := 12
  const T_FTYPE: nat := 13
  const T_NAME: nat := 14

  predicate IsList(type_: nat) { type_ == T_STMT_N || type_ == T_MEM || type_ == T_TUPLE || type_ == T_FTYPE }

  /** to_children(), for the types that are no lists. */
  function FixedChildren(type_: nat): nat {
    match type_
    case 1 => 1
    case 2 => 2
    case 3 => 3
    case 4 => 4
    case 8 => 1
    case 9 => 2
    case _ => 0
  }

  /** Kind::bits(), where the high half of a kind is the logarithm of the number of repetitions. */
  function KindBits(kind: nat): nat {
    BaseBits(kind % 16) * Repetitions(kind / 16)
  }

  function BaseBits(kind: nat): nat {
    match kind
    case 2 => 1
    case 3 => 8
    case 4 => 16
    case 5 => 32
    case 6 => 64
    case 7 => 8
    case 8 => 16
    case 9 => 32
    case 10 => 64
    case 11 => 16
    case 12 => 32
    case 13 => 64
    case 14 => 128
    case 15 => 64
    case _ => 0
  }

  function Repetitions(log: nat): nat { if log == 0 then 1 else 2 * Repetitions(log - 1) }

  /** The words behind the header of a leaf. */
  function DataWords(h: Header): nat {
    if h.type_ == T_VAR then 1
    else if h.type_ == T_CONST then (KindBits(h.kind) + 31) / 32
    else if h.type_ == T_LABEL then 2
    else if h.type_ == T_NAME then (h.op + 3) / 4
    else 0
  }

  // ---------------------------------------------------------------- reading

  /** Code::get(): 0 outside of the buffer. */
  function Get(code: seq<nat>, off: nat): nat { if off / 4 < |code| then code[off / 4] else 0 }

  /** Node::get(), with the offset in 32 bits. */
  function At(code: seq<nat>, off: nat, delta: nat): nat { Get(code, (off + delta) % W32) }

  /** A node is either 32 bits that stand for themselves, or an offset into the buffer. Zero is the empty
      node. */
  datatype Ref = Direct(item: nat) | Offset(off: nat)

  predicate IsDirectItem(item: nat) { item % 2 == 1 || item % 8 == 2 || item % 16 == 6 }

  function HeaderAt(code: seq<nat>, off: nat): Header { ParseHeader(At(code, off, 0)) }

  /** Node::children(). */
  function Children(code: seq<nat>, off: nat): nat {
    var h := HeaderAt(code, off);
    if IsList(h.type_) then At(code, off, 4) else FixedChildren(h.type_)
  }

  /** Where the items of the children start, in words behind the header. */
  function FirstChild(h: Header): nat { if IsList(h.type_) then 2 else 1 }

  /** Node::child(). */
  function Child(code: seq<nat>, off: nat, i: nat): Ref {
    if i >= Children(code, off) then Direct(0)
    else
      var item := At(code, off, 4 * (i + FirstChild(HeaderAt(code, off))));
      if IsDirectItem(item) then Direct(item)
      else if item != 0 && item % 4 == 0 then Offset((off + item) % W32)
      else Direct(0)
  }

  /** math.hpp: 32-bit arithmetic that sticks at the maximum. */
  function Saturate(n: nat): nat { if n < W32 then n else W32 - 1 }

  /** Node::length_items(). */
  function LengthItems(code: seq<nat>, off: nat): nat {
    var h := HeaderAt(code, off);
    var plus := if IsList(h.type_) then 1 else DataWords(h);
    Saturate(Saturate(1 + Children(code, off)) + plus)
  }

  // ---------------------------------------------------------------- trees

  /** What a node stands for. */
  datatype Tree = Leaf(item: nat) | Node(header: Header, data: seq<nat>, children: seq<Tree>)

  /** The trees that the buffer can hold: children as many as the type says, data only in leaves. */
  predicate ValidTree(t: Tree)
    decreases t, 1
  {
    match t
    case Leaf(item) => item == 0 || (IsDirectItem(item) && item < W32)
    case Node(h, data, children) =>
      && h.Valid() && |data| == DataWords(h) && |children| < W32
      && (if IsList(h.type_) then data == [] else |children| == FixedChildren(h.type_))
      && (data != [] ==> children == [])
      && AllValid(children)
  }

  predicate AllValid(ts: seq<Tree>)
    decreases ts, 0
  {
    ts == [] || (ValidTree(ts[0]) && AllValid(ts[1..]))
  }

  function ImageLength(h: Header, data: seq<nat>, n: nat): nat { FirstChild(h) + |data| + n }

  /** Reading the node at a reference, all of it in words [lo, hi) of the buffer, gives the tree. */
  ghost predicate Represents(code: seq<nat>, lo: nat, hi: nat, ref: Ref, t: Tree)
    decreases t, 1
  {
    match t
    case Leaf(item) => ref == Direct(item)
    case Node(h, data, children) =>
      ref.Offset? && Laid(code, lo, hi, ref.off, h, data, |children|) && RepresentsFrom(code, lo, hi, ref.off, 0, children)
  }

  /** The node itself lies at off. */
  ghost predicate Laid(code: seq<nat>, lo: nat, hi: nat, off: nat, h: Header, data: seq<nat>, n: nat) {
    && off % 4 == 0 && lo <= off / 4 && off / 4 + ImageLength(h, data, n) <= hi <= |code|
    && code[off / 4] == HeaderItem(h)
    && (forall i :: 0 <= i < |data| ==> code[off / 4 + 1 + i] == data[i])
    && Children(code, off) == n
  }

  /** The children from the i-th on. */
  ghost predicate RepresentsFrom(code: seq<nat>, lo: nat, hi: nat, off: nat, i: nat, ts: seq<Tree>)
    decreases ts, 0
  {
    ts == [] || (Represents(code, lo, hi, Child(code, off, i), ts[0]) && RepresentsFrom(code, lo, hi, off, i + 1, ts[1..]))
  }

  // ---------------------------------------------------------------- reading back

  /** Reads a tree through children() and child(), `depth` levels deep. */
  function Read(code: seq<nat>, ref: Ref, depth: nat): Option<Tree>
    decreases depth, 1
  {
    match ref
    case Direct(item) => Some(Leaf(item))
    case Offset(off) =>
      if depth == 0 then None
      else
        var h := HeaderAt(code, off);
        match ReadFrom(code, off, 0, Children(code, off), depth - 1)
        case None => None
        case Some(ts) => Some(Node(h, ReadData(code, off, if IsList(h.type_) then 0 else DataWords(h)), ts))
  }

  function ReadFrom(code: seq<nat>, off: nat, i: nat, n: nat, depth: nat): Option<seq<Tree>>
    decreases depth, 2, n - i
  {
    if i >= n then Some([])
    else
      match Read(code, Child(code, off, i), depth)
      case None => None
      case Some(t) =>
        match ReadFrom(code, off, i + 1, n, depth)
        case None => None
        case Some(ts) => Some([t] + ts)
  }

  function ReadData(code: seq<nat>, off: nat, n: nat): seq<nat> {
    if n == 0 then [] else ReadData(code, off, n - 1) + [At(code, off, 4 * n)]
  }

  function Height(t: Tree): nat
    decreases t, 1
  {
    match t
    case Leaf(_) => 0
    case Node(_, _, children) => 1 + MaxHeight(children)
  }

  function MaxHeight(ts: seq<Tree>): nat
    decreases ts, 0
  {
    if ts == [] then 0
    else if Height(ts[0]) > MaxHeight(ts[1..]) then Height(ts[0])
    else MaxHeight(ts[1..])
  }

  lemma Inside(code: seq<nat>, off: nat, k: nat)
    requires off % 4 == 0 && off / 4 + k < |code| && 4 * |code| <= W32
    ensures At(code, off, 4 * k) == code[off / 4 + k]
  {
    assert (off + 4 * k) / 4 == off / 4 + k;
    assert off + 4 * k < W32;
  }

  lemma {:induction false} DataBack(code: seq<nat>, off: nat, data: seq<nat>)
    requires off % 4 == 0 && off / 4 + 1 + |data| <= |code| && 4 * |code| <= W32
    requires forall i :: 0 <= i < |data| ==> code[off / 4 + 1 + i] == data[i]
    ensures ReadData(code, off, |data|) == data
  {
    if data != [] {
      var n := |data| - 1;
      DataBack(code, off, data[..n]);
      Inside(code, off, n + 1);
      assert data == data[..n] + [data[n]];
    }
  }

  /** What the buffer represents is what reading gives, and nothing else. */
  lemma {:induction false} ReadBack(code: seq<nat>, lo: nat, hi: nat, ref: Ref, t: Tree, depth: nat)
    requires ValidTree(t) && Represents(code, lo, hi, ref, t) && Height(t) <= depth && 4 * |code| <= W32
    ensures Read(code, ref, depth) == Some(t)
    decreases t, 1
  {
    match t
    case Leaf(_) =>
    case Node(h, data, children) =>
      NodeBack(code, lo, hi, ref.off, h, data, |children|);
      ReadFromBack(code, lo, hi, ref.off, 0, children, depth - 1);
  }

  lemma NodeBack(code: seq<nat>, lo: nat, hi: nat, off: nat, h: Header, data: seq<nat>, n: nat)
    requires h.Valid() && Laid(code, lo, hi, off, h, data, n) && 4 * |code| <= W32
    ensures HeaderAt(code, off) == h && ReadData(code, off, |data|) == data
  {
    Inside(code, off, 0);
    HeaderBack(h);
    DataBack(code, off, data);
  }

  lemma {:induction false} ReadFromBack(code: seq<nat>, lo: nat, hi: nat, off: nat, i: nat, ts: seq<Tree>, depth: nat)
    requires AllValid(ts) && RepresentsFrom(code, lo, hi, off, i, ts) && MaxHeight(ts) <= depth && 4 * |code| <= W32
    ensures ReadFrom(code, off, i, i + |ts|, depth) == Some(ts)
    decreases ts, 0
  {
    if ts != [] {
      ReadBack(code, lo, hi, Child(code, off, i), ts[0], depth);
      ReadFromBack(code, lo, hi, off, i + 1, ts[1..], depth);
      assert ts == [ts[0]] + ts[1..];
    }
  }

  // ---------------------------------------------------------------- moving

  /** Words [lo, hi) of one buffer are at a distance of d words in the other. */
  ghost predicate Moved(a: seq<nat>, b: seq<nat>, lo: nat, hi: nat, d: int) {
    && lo <= hi <= |a| && 0 <= lo + d && hi + d <= |b| && 4 * |a| <= W32 && 4 * |b| <= W32
    && forall k :: lo <= k < hi ==> a[k] == b[k + d]
  }

  function MovedRef(ref: Ref, d: int): Ref
    requires ref.Offset? ==> 0 <= ref.off + 4 * d
  {
    match ref
    case Direct(_) => ref
    case Offset(off) => Offset(off + 4 * d)
  }

  /** A tree that lies in a segment of the buffer can be moved with the segment, to anywhere in any
      buffer: distances stay what they are, modulo 2^32. */
  lemma {:induction false} Relocate(a: seq<nat>, b: seq<nat>, lo: nat, hi: nat, d: int, ref: Ref, t: Tree)
    requires ValidTree(t) && Represents(a, lo, hi, ref, t) && Moved(a, b, lo, hi, d)
    ensures (ref.Offset? ==> 0 <= ref.off + 4 * d) && 0 <= lo + d && 0 <= hi + d
    ensures Represents(b, lo + d, hi + d, MovedRef(ref, d), t)
    decreases t, 1
  {
    match t
    case Leaf(_) =>
    case Node(h, data, children) =>
      LaidMoved(a, b, lo, hi, d, ref.off, h, data, |children|);
      RelocateFrom(a, b, lo, hi, d, ref.off, ref.off + 4 * d, 0, children, h, |children|);
  }

  lemma LaidMoved(a: seq<nat>, b: seq<nat>, lo: nat, hi: nat, d: int, off: nat, h: Header, data: seq<nat>, n: nat)
    requires h.Valid() && Laid(a, lo, hi, off, h, data, n) && Moved(a, b, lo, hi, d)
    ensures 0 <= off + 4 * d && 0 <= hi + d && Laid(b, lo + d, hi + d, off + 4 * d, h, data, n)
    ensures HeaderAt(a, off) == h == HeaderAt(b, off + 4 * d)
  {
    var off' := off + 4 * d;
    var (w, v) := (off / 4, off' / 4);
    assert off' % 4 == 0 && v == w + d;
    assert b[v] == a[w] == HeaderItem(h);
    forall i | 0 <= i < |data| ensures b[v + 1 + i] == data[i] {
      assert a[w + 1 + i] == b[w + 1 + i + d];
    }
    SameChildren(a, b, lo, hi, d, off, off', h);
  }

  lemma SameChildren(a: seq<nat>, b: seq<nat>, lo: nat, hi: nat, d: int, off: nat, off': nat, h: Header)
    requires Moved(a, b, lo, hi, d) && off' == off + 4 * d && off % 4 == 0 && lo <= off / 4 && h.Valid()
    requires off / 4 + FirstChild(h) <= hi && a[off / 4] == HeaderItem(h)
    ensures HeaderAt(a, off) == h == HeaderAt(b, off') && Children(b, off') == Children(a, off)
  {
    HeaderBack(h);
    Inside(a, off, 0);
    Inside(b, off', 0);
    if IsList(h.type_) {
      Inside(a, off, 1);
      Inside(b, off', 1);
    }
  }

  lemma {:induction false} RelocateFrom(a: seq<nat>, b: seq<nat>, lo: nat, hi: nat, d: int, off: nat, off': nat, i: nat,
                                        ts: seq<Tree>, h: Header, n: nat)
    requires AllValid(ts) && RepresentsFrom(a, lo, hi, off, i, ts) && Moved(a, b, lo, hi, d)
    requires off' == off + 4 * d && off % 4 == 0 && lo <= off / 4 && off / 4 + FirstChild(h) + n <= hi
    requires HeaderAt(a, off) == h == HeaderAt(b, off') && Children(b, off') == Children(a, off) == n && i + |ts| == n
    ensures RepresentsFrom(b, lo + d, hi + d, off', i, ts)
    decreases ts, 0
  {
    if ts != [] {
      Relocate(a, b, lo, hi, d, Child(a, off, i), ts[0]);
      MovedChild(a, b, lo, hi, d, off, off', i, h, ts[0]);
      RelocateFrom(a, b, lo, hi, d, off, off', i + 1, ts[1..], h, n);
    }
  }

  /** A child that is inside of the segment moves with its parent. */
  lemma MovedChild(a: seq<nat>, b: seq<nat>, lo: nat, hi: nat, d: int, off: nat, off': nat, i: nat, h: Header, t: Tree)
    requires Moved(a, b, lo, hi, d) && off' == off + 4 * d && off % 4 == 0 && lo <= off / 4
    requires HeaderAt(a, off) == h == HeaderAt(b, off') && Children(b, off') == Children(a, off) && i < Children(a, off)
    requires off / 4 + FirstChild(h) + i < hi
    requires Child(a, off, i).Offset? ==> lo <= Child(a, off, i).off / 4 < hi
    ensures Child(a, off, i).Offset? ==> 0 <= Child(a, off, i).off + 4 * d
    ensures Child(b, off', i) == MovedRef(Child(a, off, i), d)
  {
    var k := i + FirstChild(h);
    var at := off / 4 + k;
    assert off' / 4 + k == at + d;
    Inside(a, off, k);
    Inside(b, off', k);
    assert At(a, off, 4 * k) == a[at] == b[at + d] == At(b, off', 4 * k);
    if Child(a, off, i).Offset? {
      SameDistance(off, off', a[at], 4 * d, 4 * |b|);
    }
  }

  lemma SameDistance(off: nat, off': nat, item: nat, move: int, size: nat)
    requires off' == off + move && off < W32 && size <= W32 && 0 <= (off + item) % W32 + move < size
    ensures (off' + item) % W32 == (off + item) % W32 + move
  {
    var q := (off + item) / W32;
    assert off' + item == ((off + item) % W32 + move) + q * W32;
    ModOfSum((off + item) % W32 + move, q);
  }

  lemma ModOfSum(r: nat, q: nat)
    requires r < W32
    ensures (r + q * W32) % W32 == r
  {
  }

  /** Appending to the buffer changes none of the trees in it. */
  lemma AppendStable(code: seq<nat>, more: seq<nat>, lo: nat, hi: nat, ref: Ref, t: Tree)
    requires ValidTree(t) && Represents(code, lo, hi, ref, t) && 4 * |code + more| <= W32
    requires lo <= hi <= |code|
    ensures Represents(code + more, lo, hi, ref, t)
  {
    Relocate(code, code + more, lo, hi, 0, ref, t);
  }
}
