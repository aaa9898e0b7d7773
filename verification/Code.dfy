/** The classes Code and CodeParser, which append to a buffer and walk along it. */
module Codes {
  import opened Values
  import opened Stmts
  import opened Imm
  import opened Codec
  import opened CodecWriter

  // ---------------------------------------------------------------- constants that are not direct

  /** write_indirect(): two words for the kinds of 64 bits, else the low word. */
  function ConstWords(k: Kind, n: int): seq<nat> {
    if BitSize(k) == 64 then [Bits64(n) % W32, Bits64(n) / W32] else [Bits64(n) % W32]
  }

  /** parse_indirect(): the 64 bits of the value. */
  function ConstBits(k: Kind, words: seq<nat>): nat
    requires |words| == if BitSize(k) == 64 then 2 else 1
  {
    if BitSize(k) == 64 then words[0] + words[1] * W32 else words[0]
  }

  /** The words of a constant are as many as length_items() counts. Reading them back gives the bits of
      the constant exactly when it has 64 bits or is not negative: nothing extends the sign again. */
  lemma ConstExact(k: Kind, n: int)
    requires Canonical(k, n) && k != Void
    ensures |ConstWords(k, n)| == DataWords(Header(T_CONST, KindCode(k), 0))
    ensures ConstBits(k, ConstWords(k, n)) == Bits64(n) <==> BitSize(k) == 64 || n >= 0
  {
    WordRange(k, n);
    assert Repetitions(0) == 1;
    if BitSize(k) < 64 {
      ShortExact(k, n);
    }
  }

  lemma ShortExact(k: Kind, n: int)
    requires Canonical(k, n) && k != Void && BitSize(k) < 64
    ensures Bits64(n) % W32 == Bits64(n) <==> n >= 0
  {
    CanonicalRange(k, n);
    Pow2Word();
    if n < 0 {
      ModPeriod(n, 1, W64);
      SmallMod(n + W64, W64);
    } else {
      SmallMod(n, W64);
      SmallMod(n, W32);
    }
  }

  /** Such a constant exists: an int32 that is negative and not direct. */
  lemma NegativeIndirect()
    ensures Canonical(Int32, -0x1234_5678) && Encode(Int32, -0x1234_5678) == 0
  {
    var n := -0x1234_5678;
    CanonicalRange(Int32, n);
    Pow2Word();
    ModPeriod(n, 1, W64);
    SmallMod(n + W64, W64);
    forall r: nat, x: bool | r < 8
      ensures !Fits(Bits64(n), r, x)
    {
      NoRotation(Bits64(n), r, x);
    }
    EncodeExact(Int32, n);
  }

  lemma NoRotation(b: nat, r: nat, x: bool)
    requires b == 0xFFFF_FFFF_EDCB_A988 && r < 8
    ensures !Fits(b, r, x)
  {
    if x {
      assert Flip(b, x) == 0x1234_5677;
      NoSmallFlipped(r);
    } else {
      NoSmallPlain(r);
    }
  }

  lemma NoSmallPlain(r: nat)
    requires r < 8
    ensures RotateRight(0xFFFF_FFFF_EDCB_A988, r) > SMALL
  {
    var b := 0xFFFF_FFFF_EDCB_A988;
    match r
    case 0 => LargeParts(b, r, 1, b, 0);
    case 1 => LargeParts(b, r, 0x100, 0xFF_FFFF_FFED_CBA9, 0x88);
    case 2 => LargeParts(b, r, 0x1_0000, 0xFFFF_FFFF_EDCB, 0xA988);
    case 3 => LargeParts(b, r, 0x100_0000, 0xFF_FFFF_FFED, 0xCB_A988);
    case 4 => LargeParts(b, r, 0x1_0000_0000, 0xFFFF_FFFF, 0xEDCB_A988);
    case 5 => LargeParts(b, r, 0x100_0000_0000, 0xFF_FFFF, 0xFF_EDCB_A988);
    case 6 => LargeParts(b, r, 0x1_0000_0000_0000, 0xFFFF, 0xFFFF_EDCB_A988);
    case 7 => LargeParts(b, r, 0x100_0000_0000_0000, 0xFF, 0xFF_FFFF_EDCB_A988);
  }

  /** A word whose high or low part moves above 23 bits. */
  lemma LargeParts(b: nat, r: nat, m: nat, high: nat, low: nat)
    requires r <= 8 && m == ByteScale(r) && b == high * m + low && low < m
    requires b < W64 && (high > SMALL || low * (W64 / m) > SMALL)
    ensures RotateRight(b, r) > SMALL
  {
    DivUnique(b, m, high, low);
    MulMono(0, low, W64 / m);
  }

  lemma NoSmallFlipped(r: nat)
    requires r < 8
    ensures RotateRight(0x1234_5677, r) > SMALL
  {
    var b := 0x1234_5677;
    match r
    case 0 => LargeParts(b, r, 1, b, 0);
    case 1 => LargeParts(b, r, 0x100, 0x12_3456, 0x77);
    case 2 => LargeParts(b, r, 0x1_0000, 0x1234, 0x5677);
    case 3 => LargeParts(b, r, 0x100_0000, 0x12, 0x34_5677);
    case 4 => LargeParts(b, r, 0x1_0000_0000, 0, b);
    case 5 => LargeParts(b, r, 0x100_0000_0000, 0, b);
    case 6 => LargeParts(b, r, 0x1_0000_0000_0000, 0, b);
    case 7 => LargeParts(b, r, 0x100_0000_0000_0000, 0, b);
  }

  // ---------------------------------------------------------------- the buffer

  lemma ImageParts(before: seq<nat>, head: seq<nat>, rest: seq<nat>)
    ensures (before + head) + rest == before + (head + [] + rest)
  {
  }

  /** The first node of every buffer: the constant "1JIT" of kind uint8x4. */
  const SIGNATURE: Tree := Node(Header(T_CONST, 39, 0), [0x5449_4A31], [])

  lemma SignatureValid()
    ensures ValidTree(SIGNATURE) && |Write([], SIGNATURE).code| == 2
    ensures Parses(Write([], SIGNATURE).code, 0, [0])
  {
    assert Repetitions(1) == 2 && Repetitions(2) == 4 && KindBits(39) == 32;
    assert ValidTree(SIGNATURE) && WriteAll([], []).code == [];
    ParseWrite([], SIGNATURE);
  }

  /** uint64(): the word at a byte offset and the one behind it, or 0 when they are not both there. */
  function Uint64At(code: seq<nat>, off: nat): nat {
    if off / 4 + 1 < |code| then code[off / 4] + code[off / 4 + 1] * W32 else 0
  }

  class Code {
    var items: seq<nat>

    /** init(): a signature, in case the buffer is saved to a file. */
    constructor ()
      ensures items == Write([], SIGNATURE).code && Parses(items, 0, [0])
      ensures Read(items, Offset(0), Height(SIGNATURE)) == Some(SIGNATURE)
    {
      SignatureValid();
      WriteReads([], SIGNATURE);
      items := [HeaderItem(Header(T_CONST, 39, 0)), 0x5449_4A31];
    }

    method AddItem(item: nat)
      modifies this
      ensures items == old(items) + [item]
    {
      items := items + [item];
    }

    method AddUint64(u: nat)
      requires u < W64
      modifies this
      ensures items == old(items) + [u % W32, u / W32] && Uint64At(items, 4 * |old(items)|) == u
    {
      AddItem(u % W32);
      AddItem(u / W32);
    }

    method AddNode(ref: Ref, parent: nat)
      modifies this
      ensures items == old(items) + [ChildItem(ref, parent)]
    {
      match ref
      case Direct(item) => AddItem(item);
      case Offset(off) => AddItem((off - parent) % W32);
    }

    method AddNodes(refs: seq<Ref>, parent: nat)
      modifies this
      ensures items == old(items) + ChildItems(refs, parent)
    {
      for i := 0 to |refs|
        invariant items == old(items) + ChildItems(refs[..i], parent)
      {
        assert refs[..i + 1] == refs[..i] + [refs[i]];
        AddNode(refs[i], parent);
        assert ChildItems(refs[..i + 1], parent) == ChildItems(refs[..i], parent) + [ChildItem(refs[i], parent)];
      }
      assert refs[..|refs|] == refs;
    }

    /** Node::create_indirect(). */
    method CreateIndirect(h: Header, refs: seq<Ref>) returns (off: nat)
      modifies this
      ensures off == 4 * |old(items)| && items == old(items) + Image(h, [], refs, off)
    {
      off := 4 * |items|;
      ghost var before := items;
      ghost var count := if IsList(h.type_) then [|refs|] else [];
      AddItem(HeaderItem(h));
      if IsList(h.type_) {
        AddItem(|refs|);
      }
      assert items == before + ([HeaderItem(h)] + count);
      AddNodes(refs, off);
      ImageParts(before, [HeaderItem(h)] + count, ChildItems(refs, off));
    }

    /** A leaf that is not direct: its header and its data. */
    method CreateLeaf(h: Header, data: seq<nat>) returns (off: nat)
      requires !IsList(h.type_)
      modifies this
      ensures off == 4 * |old(items)| && items == old(items) + Image(h, data, [], off)
    {
      off := 4 * |items|;
      AddItem(HeaderItem(h));
      items := items + data;
    }

    /** Const::create(): direct if possible. */
    method CreateConst(k: Kind, n: int) returns (ref: Ref)
      requires Canonical(k, n)
      modifies this
      ensures Encode(k, n) != 0 ==> ref == Direct(Encode(k, n)) && items == old(items)
      ensures Encode(k, n) == 0 ==>
        && ref == Offset(4 * |old(items)|)
        && items == old(items) + Image(Header(T_CONST, KindCode(k), 0), ConstWords(k, n), [], 4 * |old(items)|)
    {
      var direct := Encode(k, n);
      if direct != 0 {
        return Direct(direct);
      }
      var off := 4 * |items|;
      AddItem(HeaderItem(Header(T_CONST, KindCode(k), 0)));
      if BitSize(k) == 64 {
        AddUint64(Bits64(n));
      } else {
        AddItem(Bits64(n) % W32);
      }
      return Offset(off);
    }

    /** Builds a whole tree, children first, as the clients of the class do. */
    method Build(t: Tree) returns (ref: Ref)
      requires ValidTree(t) && 4 * |Write(items, t).code| <= W32
      modifies this
      ensures items == Write(old(items), t).code && ref == Write(old(items), t).ref
      ensures Read(items, ref, Height(t)) == Some(t)
      ensures Parses(items, 4 * |old(items)|, Write(old(items), t).made)
      ensures forall made :: Parses(old(items), 0, made) ==> Parses(items, 0, made + Write(old(items), t).made)
      decreases t, 1
    {
      WriteReads(items, t);
      ParseOnward(items, t);
      match t
      case Leaf(item) => ref := Direct(item);
      case Node(h, data, children) =>
        var refs := BuildAll(children);
        var off;
        if data == [] {
          off := CreateIndirect(h, refs);
        } else {
          off := CreateLeaf(h, data);
        }
        ref := Offset(off);
    }

    method BuildAll(ts: seq<Tree>) returns (refs: seq<Ref>)
      requires AllValid(ts) && 4 * |WriteAll(items, ts).code| <= W32
      modifies this
      ensures items == WriteAll(old(items), ts).code && refs == WriteAll(old(items), ts).refs
      decreases ts, 0
    {
      refs := [];
      if ts != [] {
        var first := Build(ts[0]);
        var rest := BuildAll(ts[1..]);
        refs := [first] + rest;
      }
    }
  }

  /** Parsing from the start of the buffer finds all earlier nodes and then those of the tree. */
  lemma ParseOnward(code: seq<nat>, t: Tree)
    requires ValidTree(t) && 4 * |Write(code, t).code| <= W32
    ensures var w := Write(code, t);
      && Parses(w.code, 4 * |code|, w.made)
      && forall made :: Parses(code, 0, made) ==> Parses(w.code, 0, made + w.made)
  {
    var w := Write(code, t);
    ParseWrite(code, t);
    forall made | Parses(code, 0, made) ensures Parses(w.code, 0, made + w.made) {
      ParsesMore(code, w.code, 0, made, w.made);
    }
  }

  // ---------------------------------------------------------------- the parser

  class CodeParser {
    const code: seq<nat>
    var offset: nat

    constructor (code: seq<nat>)
      ensures this.code == code && offset == 0
    {
      this.code := code;
      offset := 0;
    }

    /** The offset of the next node, or None at the end. On any buffer it goes forward; on one of which
        `made` is the list of nodes from here on, it gives them one after the other. */
    method Next() returns (node: Option<nat>)
      requires 4 * |code| < W32
      modifies this
      ensures node == if old(offset) < 4 * |code| then Some(old(offset)) else None
      ensures if node.Some? then offset > old(offset) else offset == old(offset)
      ensures forall made :: Parses(code, old(offset), made) ==>
        if made == [] then node == None else node == Some(made[0]) && Parses(code, offset, made[1..])
    {
      if offset >= 4 * |code| {
        return None;
      }
      node := Some(offset);
      offset := Saturate(offset + Saturate(4 * LengthItems(code, offset)));
    }
  }
}
