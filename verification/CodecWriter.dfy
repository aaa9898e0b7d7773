/** Writing trees bottom-up with create_indirect(), and parsing the buffer from its start. */
module CodecWriter {
  import opened Stmts
  import opened Imm
  import opened Codec

  // ---------------------------------------------------------------- images

  /** Code::add(Node, parent): a direct node as it is, another one by its distance from the parent. */
  function ChildItem(ref: Ref, parent: nat): nat {
    match ref
    case Direct(item) => item
    case Offset(off) => (off - parent) % W32
  }

  function ChildItems(refs: seq<Ref>, parent: nat): (r: seq<nat>)
    ensures |r| == |refs| && forall i :: 0 <= i < |refs| ==> r[i] == ChildItem(refs[i], parent)
  {
    if refs == [] then [] else [ChildItem(refs[0], parent)] + ChildItems(refs[1..], parent)
  }

  /** The words of a node that is written at byte offset `parent`. */
  function Image(h: Header, data: seq<nat>, refs: seq<Ref>, parent: nat): (r: seq<nat>)
    ensures |r| == ImageLength(h, data, |refs|)
  {
    [HeaderItem(h)] + (if IsList(h.type_) then [|refs|] else []) + data + ChildItems(refs, parent)
  }

  /** A direct item, or a node that starts before the end of the buffer. */
  predicate RefOk(code: seq<nat>, ref: Ref) {
    match ref
    case Direct(item) => item == 0 || IsDirectItem(item)
    case Offset(off) => off % 4 == 0 && off / 4 < |code|
  }

  lemma DistanceBack(off: nat, parent: nat)
    requires off < parent < W32 && off % 4 == 0 && parent % 4 == 0
    ensures var item := (off - parent) % W32;
      item != 0 && item % 4 == 0 && (parent + item) % W32 == off && !IsDirectItem(item)
  {
    var item := (off - parent) % W32;
    assert item == off - parent + W32;
    assert parent + item == off + W32;
    ModOfSum(off, 1);
  }

  /** A written child is the child that is read. */
  lemma ChildBack(code: seq<nat>, h: Header, data: seq<nat>, refs: seq<Ref>, i: nat)
    requires h.Valid() && i < |refs| && RefOk(code, refs[i])
    requires if IsList(h.type_) then data == [] else |refs| == FixedChildren(h.type_)
    requires data != [] ==> refs == []
    requires var c := code + Image(h, data, refs, 4 * |code|); 4 * |c| <= W32
    ensures Child(code + Image(h, data, refs, 4 * |code|), 4 * |code|, i) == refs[i]
  {
    var off := 4 * |code|;
    var image := Image(h, data, refs, off);
    ImageHeader(code, h, data, refs);
    assert image[FirstChild(h) + i] == ChildItem(refs[i], off);
    ItemAt(code, image, FirstChild(h) + i);
    ChildOf(code + image, code, h, refs, i, off, ChildItem(refs[i], off));
  }

  /** An appended item is found at its place behind the code. */
  lemma ItemAt(code: seq<nat>, image: seq<nat>, k: nat)
    requires k < |image| && 4 * |code + image| <= W32
    ensures At(code + image, 4 * |code|, 4 * k) == image[k]
  {
    Inside(code + image, 4 * |code|, k);
  }

  lemma ChildOf(c: seq<nat>, code: seq<nat>, h: Header, refs: seq<Ref>, i: nat, off: nat, item: nat)
    requires i < |refs| && RefOk(code, refs[i]) && off == 4 * |code| < W32 && item == ChildItem(refs[i], off)
    requires HeaderAt(c, off) == h && Children(c, off) == |refs| && At(c, off, 4 * (FirstChild(h) + i)) == item
    ensures Child(c, off, i) == refs[i]
  {
    ItemBack(refs[i], code, off);
  }

  /** The item of a child tells the child again. */
  lemma ItemBack(ref: Ref, code: seq<nat>, parent: nat)
    requires RefOk(code, ref) && parent == 4 * |code| < W32
    ensures var item := ChildItem(ref, parent);
      ref == if IsDirectItem(item) then Direct(item)
             else if item != 0 && item % 4 == 0 then Offset((parent + item) % W32)
             else Direct(0)
  {
    if ref.Offset? {
      DistanceBack(ref.off, parent);
    }
  }

  lemma ImageHeader(code: seq<nat>, h: Header, data: seq<nat>, refs: seq<Ref>)
    requires h.Valid() && (if IsList(h.type_) then data == [] else |refs| == FixedChildren(h.type_))
    requires var c := code + Image(h, data, refs, 4 * |code|); 4 * |c| <= W32
    ensures var c := code + Image(h, data, refs, 4 * |code|);
      && HeaderAt(c, 4 * |code|) == h && Children(c, 4 * |code|) == |refs|
      && (|data| == DataWords(h) ==> LengthItems(c, 4 * |code|) == |c| - |code|)
  {
    var c := code + Image(h, data, refs, 4 * |code|);
    HeaderBack(h);
    Inside(c, 4 * |code|, 0);
    assert c[|code|] == HeaderItem(h);
    if IsList(h.type_) {
      Inside(c, 4 * |code|, 1);
      assert c[|code| + 1] == |refs|;
    }
  }

  // ---------------------------------------------------------------- writing trees

  /** The buffer after a tree is written, the reference to it, and the offsets of the nodes in the order
      in which they were created. */
  datatype Written = Written(code: seq<nat>, ref: Ref, made: seq<nat>)
  datatype WrittenAll = WrittenAll(code: seq<nat>, refs: seq<Ref>, made: seq<nat>)

  /** The children first, then their parent. */
  function Write(code: seq<nat>, t: Tree): (w: Written)
    ensures code <= w.code
    decreases t, 1
  {
    match t
    case Leaf(item) => Written(code, Direct(item), [])
    case Node(h, data, children) =>
      var w := WriteAll(code, children);
      var off := 4 * |w.code|;
      Written(w.code + Image(h, data, w.refs, off), Offset(off), w.made + [off])
  }

  function WriteAll(code: seq<nat>, ts: seq<Tree>): (w: WrittenAll)
    ensures code <= w.code && |w.refs| == |ts|
    decreases ts, 0
  {
    if ts == [] then WrittenAll(code, [], [])
    else
      var first := Write(code, ts[0]);
      var rest := WriteAll(first.code, ts[1..]);
      WrittenAll(rest.code, [first.ref] + rest.refs, first.made + rest.made)
  }

  /** All the trees are represented by their references. */
  ghost predicate AllRepresented(code: seq<nat>, lo: nat, refs: seq<Ref>, ts: seq<Tree>)
    decreases ts
  {
    |refs| == |ts|
    && (ts == [] || (Represents(code, lo, |code|, refs[0], ts[0]) && AllRepresented(code, lo, refs[1..], ts[1..])))
  }

  /** A written tree reads back as the same tree, and all of it lies in what the writing appended. */
  lemma {:induction false} WriteReads(code: seq<nat>, t: Tree)
    requires ValidTree(t) && 4 * |Write(code, t).code| <= W32
    ensures var w := Write(code, t);
      && Represents(w.code, |code|, |w.code|, w.ref, t)
      && Read(w.code, w.ref, Height(t)) == Some(t) && RefOk(w.code, w.ref)
    decreases t, 1
  {
    var w := Write(code, t);
    match t {
      case Leaf(_) =>
      case Node(h, data, children) =>
        var a := WriteAll(code, children);
        WriteAllReads(code, children);
        NodeReads(a.code, |code|, h, data, a.refs, children);
    }
    ReadBack(w.code, |code|, |w.code|, w.ref, t, Height(t));
  }

  lemma {:induction false} WriteAllReads(code: seq<nat>, ts: seq<Tree>)
    requires AllValid(ts) && 4 * |WriteAll(code, ts).code| <= W32
    ensures AllRepresented(WriteAll(code, ts).code, |code|, WriteAll(code, ts).refs, ts)
    decreases ts, 0
  {
    if ts != [] {
      var first := Write(code, ts[0]);
      var rest := WriteAll(first.code, ts[1..]);
      WriteReads(code, ts[0]);
      WriteAllReads(first.code, ts[1..]);
      Grown(first.code, rest.code, |code|, |first.code|, first.ref, ts[0]);
      LowerAll(rest.code, |first.code|, |code|, rest.refs, ts[1..]);
      assert ([first.ref] + rest.refs)[1..] == rest.refs;
    }
  }

  /** What is represented stays so when the buffer grows, and in any larger segment. */
  lemma Grown(a: seq<nat>, b: seq<nat>, lo: nat, hi: nat, ref: Ref, t: Tree)
    requires ValidTree(t) && a <= b && lo <= hi <= |a| && 4 * |b| <= W32 && Represents(a, lo, hi, ref, t)
    ensures Represents(b, lo, |b|, ref, t)
  {
    assert b == a + b[|a|..];
    AppendStable(a, b[|a|..], lo, hi, ref, t);
    Wider(b, lo, hi, lo, |b|, ref, t);
  }

  lemma {:induction false} Wider(code: seq<nat>, lo: nat, hi: nat, lo': nat, hi': nat, ref: Ref, t: Tree)
    requires Represents(code, lo, hi, ref, t) && lo' <= lo && hi <= hi' <= |code|
    ensures Represents(code, lo', hi', ref, t)
    decreases t, 1
  {
    match t
    case Leaf(_) =>
    case Node(h, data, children) => WiderFrom(code, lo, hi, lo', hi', ref.off, 0, children);
  }

  lemma {:induction false} WiderFrom(code: seq<nat>, lo: nat, hi: nat, lo': nat, hi': nat, off: nat, i: nat, ts: seq<Tree>)
    requires RepresentsFrom(code, lo, hi, off, i, ts) && lo' <= lo && hi <= hi' <= |code|
    ensures RepresentsFrom(code, lo', hi', off, i, ts)
    decreases ts, 0
  {
    if ts != [] {
      Wider(code, lo, hi, lo', hi', Child(code, off, i), ts[0]);
      WiderFrom(code, lo, hi, lo', hi', off, i + 1, ts[1..]);
    }
  }

  lemma {:induction false} LowerAll(code: seq<nat>, lo: nat, lo': nat, refs: seq<Ref>, ts: seq<Tree>)
    requires AllRepresented(code, lo, refs, ts) && lo' <= lo
    ensures AllRepresented(code, lo', refs, ts)
    decreases ts
  {
    if ts != [] {
      Wider(code, lo, |code|, lo', |code|, refs[0], ts[0]);
      LowerAll(code, lo, lo', refs[1..], ts[1..]);
    }
  }

  lemma {:induction false} RefsOk(code: seq<nat>, lo: nat, refs: seq<Ref>, ts: seq<Tree>)
    requires AllRepresented(code, lo, refs, ts) && AllValid(ts)
    ensures forall i :: 0 <= i < |refs| ==> RefOk(code, refs[i])
    decreases ts
  {
    if ts != [] {
      RefsOk(code, lo, refs[1..], ts[1..]);
      forall i | 0 <= i < |refs| ensures RefOk(code, refs[i]) {
        if i > 0 {
          assert refs[i] == refs[1..][i - 1];
        }
      }
    }
  }

  /** A node over represented children represents its tree. */
  lemma NodeReads(code: seq<nat>, lo: nat, h: Header, data: seq<nat>, refs: seq<Ref>, ts: seq<Tree>)
    requires ValidTree(Node(h, data, ts)) && AllRepresented(code, lo, refs, ts) && lo <= |code|
    requires 4 * |code + Image(h, data, refs, 4 * |code|)| <= W32
    ensures var c := code + Image(h, data, refs, 4 * |code|);
      Represents(c, lo, |c|, Offset(4 * |code|), Node(h, data, ts))
  {
    var c := code + Image(h, data, refs, 4 * |code|);
    ImageHeader(code, h, data, refs);
    RefsOk(code, lo, refs, ts);
    NodeLaid(code, lo, h, data, refs);
    ChildrenRead(code, lo, h, data, refs, 0, ts);
  }

  lemma NodeLaid(code: seq<nat>, lo: nat, h: Header, data: seq<nat>, refs: seq<Ref>)
    requires h.Valid() && lo <= |code| && (if IsList(h.type_) then data == [] else |refs| == FixedChildren(h.type_))
    requires 4 * |code + Image(h, data, refs, 4 * |code|)| <= W32
    ensures var c := code + Image(h, data, refs, 4 * |code|); Laid(c, lo, |c|, 4 * |code|, h, data, |refs|)
  {
    var c := code + Image(h, data, refs, 4 * |code|);
    ImageHeader(code, h, data, refs);
    ImageData(code, h, data, refs);
    LaidAt(c, lo, |code|, h, data, |refs|);
  }

  lemma LaidAt(c: seq<nat>, lo: nat, at: nat, h: Header, data: seq<nat>, n: nat)
    requires lo <= at && at + ImageLength(h, data, n) <= |c| && c[at] == HeaderItem(h) && Children(c, 4 * at) == n
    requires forall i :: 0 <= i < |data| ==> c[at + 1 + i] == data[i]
    ensures Laid(c, lo, |c|, 4 * at, h, data, n)
  {
  }

  lemma ImageData(code: seq<nat>, h: Header, data: seq<nat>, refs: seq<Ref>)
    requires IsList(h.type_) ==> data == []
    ensures var c := code + Image(h, data, refs, 4 * |code|);
      && |c| == |code| + ImageLength(h, data, |refs|) && c[|code|] == HeaderItem(h)
      && forall i :: 0 <= i < |data| ==> c[|code| + 1 + i] == data[i]
  {
  }

  lemma {:induction false} ChildrenRead(code: seq<nat>, lo: nat, h: Header, data: seq<nat>, refs: seq<Ref>, i: nat,
                                        ts: seq<Tree>)
    requires h.Valid() && AllValid(ts) && i <= |refs| && lo <= |code|
    requires if IsList(h.type_) then data == [] else |refs| == FixedChildren(h.type_)
    requires data != [] ==> refs == []
    requires AllRepresented(code, lo, refs[i..], ts) && forall k :: 0 <= k < |refs| ==> RefOk(code, refs[k])
    requires 4 * |code + Image(h, data, refs, 4 * |code|)| <= W32
    ensures var c := code + Image(h, data, refs, 4 * |code|); RepresentsFrom(c, lo, |c|, 4 * |code|, i, ts)
    decreases ts
  {
    if ts != [] {
      var c := code + Image(h, data, refs, 4 * |code|);
      ChildBack(code, h, data, refs, i);
      Grown(code, c, lo, |code|, refs[i], ts[0]);
      assert refs[i..][1..] == refs[i + 1..];
      ChildrenRead(code, lo, h, data, refs, i + 1, ts[1..]);
    }
  }

  // ---------------------------------------------------------------- parsing in sequence

  /** CodeParser::next() from byte offset `off` on visits exactly the nodes at the listed offsets, each of
      which lies inside the buffer, and ends at the end of it. */
  ghost predicate Parses(code: seq<nat>, off: nat, made: seq<nat>)
    decreases |made|
  {
    if made == [] then off == 4 * |code|
    else
      off == made[0] && NodeInside(code, off) && Parses(code, off + 4 * LengthItems(code, off), made[1..])
  }

  ghost predicate NodeInside(code: seq<nat>, off: nat) {
    && off % 4 == 0 && off / 4 + FirstChild(HeaderAt(code, off)) <= |code|
    && off / 4 + LengthItems(code, off) <= |code| && LengthItems(code, off) > 0
  }

  lemma {:induction false} ParsesMore(a: seq<nat>, b: seq<nat>, off: nat, made: seq<nat>, more: seq<nat>)
    requires Parses(a, off, made) && a <= b && 4 * |b| <= W32 && Parses(b, 4 * |a|, more)
    ensures Parses(b, off, made + more)
    decreases |made|
  {
    if made == [] {
      assert made + more == more;
    } else {
      ParsesMore(a, b, off + 4 * LengthItems(a, off), made[1..], more);
      ParsesFirst(a, b, off, made, more);
    }
  }

  lemma SameNode(a: seq<nat>, b: seq<nat>, off: nat)
    requires a <= b && 4 * |b| <= W32 && NodeInside(a, off)
    ensures NodeInside(b, off) && LengthItems(b, off) == LengthItems(a, off)
  {
    SameLength(a, b, off);
  }

  lemma ParsesFirst(a: seq<nat>, b: seq<nat>, off: nat, made: seq<nat>, more: seq<nat>)
    requires made != [] && off == made[0] && NodeInside(a, off) && a <= b && 4 * |b| <= W32
    requires Parses(b, off + 4 * LengthItems(a, off), made[1..] + more)
    ensures Parses(b, off, made + more)
  {
    SameNode(a, b, off);
    assert (made + more)[1..] == made[1..] + more;
  }

  lemma SameLength(a: seq<nat>, b: seq<nat>, off: nat)
    requires a <= b && 4 * |b| <= W32 && off % 4 == 0 && off / 4 + FirstChild(HeaderAt(a, off)) <= |a|
    ensures HeaderAt(b, off) == HeaderAt(a, off) && LengthItems(b, off) == LengthItems(a, off)
  {
    Inside(a, off, 0);
    Inside(b, off, 0);
    if IsList(HeaderAt(a, off).type_) {
      Inside(a, off, 1);
      Inside(b, off, 1);
    }
  }

  lemma ParsesEmpty(code: seq<nat>)
    ensures Parses(code, 4 * |code|, [])
  {
  }

  lemma ParsesOne(code: seq<nat>, h: Header, data: seq<nat>, refs: seq<Ref>)
    requires h.Valid() && |data| == DataWords(h)
    requires if IsList(h.type_) then data == [] else |refs| == FixedChildren(h.type_)
    requires 4 * |code + Image(h, data, refs, 4 * |code|)| <= W32
    ensures Parses(code + Image(h, data, refs, 4 * |code|), 4 * |code|, [4 * |code|])
  {
    var c := code + Image(h, data, refs, 4 * |code|);
    var off := 4 * |code|;
    ImageHeader(code, h, data, refs);
    assert [off][1..] == [];
    assert off / 4 == |code| && LengthItems(c, off) == ImageLength(h, data, |refs|);
    ParsesEmpty(c);
  }

  /** The parser finds the nodes of a written tree in the order of their creation. */
  lemma {:induction false} ParseWrite(code: seq<nat>, t: Tree)
    requires ValidTree(t) && 4 * |Write(code, t).code| <= W32
    ensures Parses(Write(code, t).code, 4 * |code|, Write(code, t).made)
    decreases t, 1
  {
    match t
    case Leaf(_) =>
    case Node(h, data, children) =>
      var a := WriteAll(code, children);
      var c := a.code + Image(h, data, a.refs, 4 * |a.code|);
      ParseWriteAll(code, children);
      ParsesOne(a.code, h, data, a.refs);
      ParsesMore(a.code, c, 4 * |code|, a.made, [4 * |a.code|]);
  }

  lemma {:induction false} ParseWriteAll(code: seq<nat>, ts: seq<Tree>)
    requires AllValid(ts) && 4 * |WriteAll(code, ts).code| <= W32
    ensures Parses(WriteAll(code, ts).code, 4 * |code|, WriteAll(code, ts).made)
    decreases ts, 0
  {
    if ts != [] {
      var first := Write(code, ts[0]);
      var rest := WriteAll(first.code, ts[1..]);
      ParseWrite(code, ts[0]);
      ParseWriteAll(first.code, ts[1..]);
      ParsesMore(first.code, rest.code, 4 * |code|, first.made, rest.made);
    }
  }
}
