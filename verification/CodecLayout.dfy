/** Where the parts of each type of node lie in the buffer, type by type: onejit/type.hpp, onejit/ir/node.cpp. */
module CodecLayout {
  import opened Values
  import opened Imm
  import opened Codec

  /** The fields of a header item: the tag in the low four bits, then the type, the kind and the op. */
  lemma HeaderFields(h: Header)
    requires h.Valid()
    ensures var item := HeaderItem(h);
      && item % 0x10 == 0xE && item / 0x10 % 0x10 == h.type_ && item / 0x100 % 0x100 == h.kind && item / 0x1_0000 == h.op
  {
    HeaderBack(h);
    assert HeaderItem(h) / 0x1_0000 == h.op;
  }

  /** How many children a node has: STMT_1 to STMT_4 (1 to 4) as many as they say, UNARY (8) one, BINARY (9) two, the lists
      STMT_N (5), MEM (7), TUPLE (10) and FTYPE (13) what the word behind the header says, and all others none. */
  lemma ChildrenByType(code: seq<nat>, off: nat)
    requires off % 4 == 0 && off / 4 + 1 < |code| && 4 * |code| <= W32
    ensures var t := code[off / 4] / 16 % 16;
      Children(code, off) ==
        if 1 <= t <= 4 then t
        else if t == 8 then 1
        else if t == 9 then 2
        else if t == 5 || t == 7 || t == 10 || t == 13 then code[off / 4 + 1]
        else 0
  {
    Inside(code, off, 0);
    Inside(code, off, 1);
  }

  /** Where the item of child i lies: behind the header, and in lists behind the number of children. */
  lemma ChildByType(code: seq<nat>, off: nat, i: nat)
    requires off % 4 == 0 && 4 * |code| <= W32 && off / 4 + 2 + i < |code| && i < Children(code, off)
    ensures var t := code[off / 4] / 16 % 16;
      var item := code[off / 4 + i + if t == 5 || t == 7 || t == 10 || t == 13 then 2 else 1];
      Child(code, off, i) ==
        if item % 2 == 1 || item % 8 == 2 || item % 16 == 6 then Direct(item)
        else if item != 0 && item % 4 == 0 then Offset((off + item) % W32)
        else Direct(0)
  {
    Inside(code, off, 0);
    Inside(code, off, i + 1);
    Inside(code, off, i + 2);
  }

  /** The words of a node: its header, its children, the count of a list, and the words of a leaf. */
  lemma LengthByType(code: seq<nat>, off: nat)
    requires off % 4 == 0 && off / 4 + 1 < |code| && 4 * |code| <= W32
    ensures var (t, n) := (code[off / 4] / 16 % 16, code[off / 4 + 1]);
      var (kind, op) := (code[off / 4] / 0x100 % 0x100, code[off / 4] / 0x1_0000 % 0x1_0000);
      LengthItems(code, off) ==
        if 1 <= t <= 4 then 1 + t
        else if t == 8 then 2
        else if t == 9 then 3
        else if t == 5 || t == 7 || t == 10 || t == 13 then (if n + 2 < W32 then n + 2 else W32 - 1)
        else if t == 6 then 2
        else if t == 11 then 3
        else if t == 12 then Saturate(1 + (KindBits(kind) + 31) / 32)
        else if t == 14 then 1 + (op + 3) / 4
        else 1
  {
    Inside(code, off, 0);
    Inside(code, off, 1);
  }

  /** How many bits a constant has: the kinds by their numbers in onejit/kind.hpp, and twice as many for each step of the
      repetitions. */
  lemma BitsByKind(kind: nat)
    ensures kind < 2 ==> KindBits(kind) == 0
    ensures kind == 2 ==> KindBits(kind) == 1
    ensures kind in {3, 7} ==> KindBits(kind) == 8
    ensures kind in {4, 8, 11} ==> KindBits(kind) == 16
    ensures kind in {5, 9, 12} ==> KindBits(kind) == 32
    ensures kind in {6, 10, 13, 15} ==> KindBits(kind) == 64
    ensures kind == 14 ==> KindBits(kind) == 128
    ensures KindBits(kind + 16) == 2 * KindBits(kind)
  {
    assert (kind + 16) / 16 == kind / 16 + 1 && (kind + 16) % 16 == kind % 16;
    Doubled(BaseBits(kind % 16), Repetitions(kind / 16));
  }

  /** The number of each kind says how wide it is; the numbers follow each other, and that of Ptr is 15. */
  lemma KindNumbers(k: Kind)
    ensures KindBits(KindCode(k)) == BitSize(k)
    ensures var ks := [Void, Bool, Int8, Int16, Int32, Int64, Uint8, Uint16, Uint32, Uint64];
      forall i :: 0 <= i < |ks| ==> KindCode(ks[i]) == i + 1
    ensures KindCode(Ptr) == 15
  {
    BitsByKind(KindCode(k));
  }

  lemma Doubled(a: nat, b: nat)
    ensures a * (2 * b) == 2 * (a * b)
  {
  }
}
