/** The flow graph of flat code: which basic blocks there are and how they are linked. */
module FlowGraphs {
  import opened Stmts
  import opened Flat

  predicate IsUncondJump(i: Instr) { i.Goto? || i.Ret? }

  /** is_cond_jump() of onejit/ir/util.cpp, which has no case for ASM_JLE. */
  predicate IsCondJump(i: Instr) { i.Jump? && i.op in {JA, JAE, JB, JBE, JE, JG, JGE, JL, JNE} }

  predicate EndsBlock(i: Instr) { IsUncondJump(i) || IsCondJump(i) }

  /** jump_label(), for the jumps that the graph recognises; a return has none. */
  function JumpLabel(i: Instr): Option<nat> {
    if i.Goto? || IsCondJump(i) then Some(i.target) else None
  }

  // ---------------------------------------------------------------- blocks

  /** Where the labels from i on end. */
  function LabelsEnd(p: seq<Instr>, i: nat): (j: nat)
    requires i <= |p|
    ensures i <= j <= |p|
    ensures forall k :: i <= k < j ==> p[k].LabelI?
    ensures j < |p| ==> !p[j].LabelI?
    decreases |p| - i
  {
    if i < |p| && p[i].LabelI? then LabelsEnd(p, i + 1) else i
  }

  /** Where the instructions from i on end: behind a jump, or before a label. */
  function BodyEnd(p: seq<Instr>, i: nat): (j: nat)
    requires i <= |p|
    ensures i <= j <= |p|
    ensures forall k :: i <= k < j ==> !p[k].LabelI?
    ensures forall k :: i <= k < j - 1 ==> !EndsBlock(p[k])
    ensures j < |p| && (j == i || !EndsBlock(p[j - 1])) ==> p[j].LabelI?
    ensures i < |p| && !p[i].LabelI? ==> i < j
    decreases |p| - i
  {
    if i == |p| || p[i].LabelI? then i
    else if EndsBlock(p[i]) then i + 1
    else BodyEnd(p, i + 1)
  }

  function BlockEnd(p: seq<Instr>, i: nat): (j: nat)
    requires i < |p|
    ensures i < j <= |p|
  {
    BodyEnd(p, LabelsEnd(p, i))
  }

  datatype Bounds = Bounds(start: nat, end: nat)

  function BlocksFrom(p: seq<Instr>, i: nat): (bs: seq<Bounds>)
    requires i <= |p|
    decreases |p| - i
  {
    if i == |p| then [] else [Bounds(i, BlockEnd(p, i))] + BlocksFrom(p, BlockEnd(p, i))
  }

  function Blocks(p: seq<Instr>): seq<Bounds> { BlocksFrom(p, 0) }

  /** Consecutive, non-empty pieces from i to the end. */
  predicate Partition(bs: seq<Bounds>, i: nat, n: nat) {
    if bs == [] then i == n
    else bs[0].start == i && i < bs[0].end <= n && Partition(bs[1..], bs[0].end, n)
  }

  /** Labels are first and a recognised jump is last; a block ends at nothing but such a jump or the next label. */
  predicate WellFormed(p: seq<Instr>, b: Bounds) {
    && b.start < b.end <= |p|
    && (forall k :: b.start < k < b.end && p[k].LabelI? ==> p[k - 1].LabelI?)
    && (forall k :: b.start <= k < b.end - 1 ==> !EndsBlock(p[k]))
    && (b.end < |p| && !EndsBlock(p[b.end - 1]) ==> p[b.end].LabelI?)
    && (b.end < |p| ==> !p[b.end - 1].LabelI?)
  }

  lemma {:induction false} BlocksPartition(p: seq<Instr>, i: nat)
    requires i <= |p|
    ensures Partition(BlocksFrom(p, i), i, |p|)
    ensures forall k :: 0 <= k < |BlocksFrom(p, i)| ==> WellFormed(p, BlocksFrom(p, i)[k])
    decreases |p| - i
  {
    if i < |p| {
      BlocksPartition(p, BlockEnd(p, i));
      BlockWellFormed(p, i);
      var rest := BlocksFrom(p, BlockEnd(p, i));
      assert BlocksFrom(p, i)[1..] == rest;
    }
  }

  lemma {:induction false} BlocksPieces(p: seq<Instr>, i: nat)
    requires i <= |p|
    ensures Partition(BlocksFrom(p, i), i, |p|)
    decreases |p| - i
  {
    if i < |p| {
      BlocksPieces(p, BlockEnd(p, i));
      assert BlocksFrom(p, i)[1..] == BlocksFrom(p, BlockEnd(p, i));
    }
  }

  lemma BlockWellFormed(p: seq<Instr>, i: nat)
    requires i < |p|
    ensures WellFormed(p, Bounds(i, BlockEnd(p, i)))
  {
    var m := LabelsEnd(p, i);
    var j := BodyEnd(p, m);
    assert forall k :: i <= k < j - 1 ==> !EndsBlock(p[k]);
  }

  /** A block begins behind each Goto, return and conditional jump other than ASM_JLE, at each label that does not
      follow another one, and nowhere else. */
  lemma BoundaryExact(p: seq<Instr>, i: nat)
    requires 0 < i < |p|
    ensures BlockOf(Blocks(p), i - 1) != BlockOf(Blocks(p), i) <==>
      || p[i - 1].Goto? || p[i - 1].Ret? || (p[i - 1].Jump? && p[i - 1].op != JLE && p[i - 1].op != BAD_ST3)
      || (p[i].LabelI? && !p[i - 1].LabelI?)
  {
    var b := BlockOf(Blocks(p), i - 1);
    BlockAt(p, i - 1);
    BlockOfExact(p, i, b);
    BoundaryIn(p, i, Blocks(p)[b]);
  }

  lemma BoundaryIn(p: seq<Instr>, i: nat, b: Bounds)
    requires 0 < i < |p| && WellFormed(p, b) && b.start < i <= b.end
    ensures i == b.end <==>
      || p[i - 1].Goto? || p[i - 1].Ret? || (p[i - 1].Jump? && p[i - 1].op != JLE && p[i - 1].op != BAD_ST3)
      || (p[i].LabelI? && !p[i - 1].LabelI?)
  {
  }

  /** Blocks partition the code in order, labels stand only at the start of a block, recognised jumps
      only at its end. */
  lemma {:induction false} PartitionAt(bs: seq<Bounds>, i: nat, n: nat, k: nat)
    requires Partition(bs, i, n) && k < |bs|
    ensures i <= bs[k].start < bs[k].end <= n
    ensures bs[k].start == if k == 0 then i else bs[k - 1].end
    ensures bs[k].end == n <==> k == |bs| - 1
  {
    if k > 0 {
      PartitionAt(bs[1..], bs[0].end, n, k - 1);
    } else if |bs| > 1 {
      PartitionAt(bs[1..], bs[0].end, n, 0);
    }
  }

  /** The block that holds an instruction. */
  function BlockOf(bs: seq<Bounds>, pc: nat): (b: nat)
    ensures b <= |bs|
    ensures b < |bs| ==> pc < bs[b].end
    ensures forall k :: 0 <= k < b ==> bs[k].end <= pc
  {
    if bs == [] || pc < bs[0].end then 0 else 1 + BlockOf(bs[1..], pc)
  }

  lemma BlockOfExact(p: seq<Instr>, pc: nat, b: nat)
    requires b < |Blocks(p)|
    ensures BlockOf(Blocks(p), pc) == b <==> Blocks(p)[b].start <= pc < Blocks(p)[b].end
    ensures pc < |p| ==> BlockOf(Blocks(p), pc) < |Blocks(p)|
  {
    var bs := Blocks(p);
    var c := BlockOf(bs, pc);
    BlocksPieces(p, 0);
    PartitionAt(bs, 0, |p|, b);
    PartitionAt(bs, 0, |p|, |bs| - 1);
    if c < |bs| {
      PartitionAt(bs, 0, |p|, c);
      if c < b {
        EndsGrow(bs, 0, |p|, c, b - 1);
      }
    }
  }

  lemma {:induction false} EndsGrow(bs: seq<Bounds>, i: nat, n: nat, j: nat, k: nat)
    requires Partition(bs, i, n) && j <= k < |bs|
    ensures bs[j].end <= bs[k].end
    decreases k
  {
    if j < k {
      PartitionAt(bs, i, n, k);
      EndsGrow(bs, i, n, j, k - 1);
    }
  }

  // ---------------------------------------------------------------- links

  predicate InCode(p: seq<Instr>, bs: seq<Bounds>) {
    forall k :: 0 <= k < |bs| ==> bs[k].start < bs[k].end <= |p|
  }

  /** The last of the blocks that holds label l. */
  function LabelBlock(p: seq<Instr>, bs: seq<Bounds>, l: nat): (b: Option<nat>)
    requires InCode(p, bs)
    ensures b.Some? ==> b.value < |bs| && LabelI(l) in p[bs[b.value].start..bs[b.value].end]
    ensures b.None? ==> forall k :: 0 <= k < |bs| ==> LabelI(l) !in p[bs[k].start..bs[k].end]
  {
    if bs == [] then None
    else if LabelI(l) in p[bs[|bs| - 1].start..bs[|bs| - 1].end] then Some(|bs| - 1)
    else LabelBlock(p, bs[..|bs| - 1], l)
  }

  /** Whether the jump at the end of block b goes to a label that stands. */
  predicate Resolves(p: seq<Instr>, bs: seq<Bounds>, b: nat)
    requires b < |bs| && InCode(p, bs)
  {
    var l := JumpLabel(p[bs[b].end - 1]);
    l.Some? ==> LabelBlock(p, bs, l.value).Some?
  }

  function FallsInto(p: seq<Instr>, bs: seq<Bounds>, b: nat): seq<nat>
    requires b < |bs| && bs[b].start < bs[b].end <= |p|
  {
    if !IsUncondJump(p[bs[b].end - 1]) && b + 1 < |bs| then [b + 1] else []
  }

  /** The blocks that may follow block b. */
  function NextList(p: seq<Instr>, bs: seq<Bounds>, b: nat): (r: seq<nat>)
    requires b < |bs| && InCode(p, bs)
    ensures forall k :: 0 <= k < |r| ==> r[k] < |bs|
  {
    var l := JumpLabel(p[bs[b].end - 1]);
    FallsInto(p, bs, b) +
    if l.Some? && LabelBlock(p, bs, l.value).Some? then [LabelBlock(p, bs, l.value).value] else []
  }

  /** The lists of the first n blocks. */
  function Nexts(p: seq<Instr>, bs: seq<Bounds>, n: nat): (r: seq<seq<nat>>)
    requires n <= |bs| && InCode(p, bs)
    ensures |r| == n && forall b :: 0 <= b < n ==> r[b] == NextList(p, bs, b)
  {
    seq(n, b requires 0 <= b < n => NextList(p, bs, b))
  }

  /** The blocks from which block b may be entered, each once and in order. */
  function PrevList(nexts: seq<seq<nat>>, b: nat): (r: seq<nat>)
    ensures forall k :: 0 <= k < |r| ==> r[k] < |nexts|
    ensures forall f: nat :: f in r <==> f < |nexts| && b in nexts[f]
    ensures forall i, j :: 0 <= i < j < |r| ==> r[i] < r[j]
  {
    if nexts == [] then []
    else
      var n := |nexts| - 1;
      PrevList(nexts[..n], b) + (if b in nexts[n] then [n] else [])
  }

  function Prevs(nexts: seq<seq<nat>>, n: nat): (r: seq<seq<nat>>)
    ensures |r| == n && forall b :: 0 <= b < n ==> r[b] == PrevList(nexts, b)
  {
    seq(n, b requires 0 <= b < n => PrevList(nexts, b))
  }

  /** The links are exact inverses of each other, and no block is listed twice among the predecessors. */
  lemma PrevInverse(p: seq<Instr>, b: nat, f: nat)
    requires b < |Blocks(p)| && f < |Blocks(p)|
    ensures var bs := Blocks(p);
      && InCode(p, bs)
      && (f in PrevList(Nexts(p, bs, |bs|), b) <==> b in NextList(p, bs, f))
      && (forall i, j :: 0 <= i < j < |PrevList(Nexts(p, bs, |bs|), b)| ==>
            PrevList(Nexts(p, bs, |bs|), b)[i] != PrevList(Nexts(p, bs, |bs|), b)[j])
  {
    BlocksPartition(p, 0);
  }

  // ---------------------------------------------------------------- steps stay in the graph

  lemma BlockAt(p: seq<Instr>, pc: nat)
    requires pc < |p|
    ensures var bs := Blocks(p);
      && InCode(p, bs) && BlockOf(bs, pc) < |bs|
      && bs[BlockOf(bs, pc)].start <= pc < bs[BlockOf(bs, pc)].end
      && WellFormed(p, bs[BlockOf(bs, pc)])
      && (bs[BlockOf(bs, pc)].end < |p| ==>
            BlockOf(bs, pc) + 1 < |bs| && BlockOf(bs, bs[BlockOf(bs, pc)].end) == BlockOf(bs, pc) + 1)
  {
    var bs := Blocks(p);
    BlocksPartition(p, 0);
    assert bs != [];
    BlockOfExact(p, pc, 0);
    var b := BlockOf(bs, pc);
    BlockOfExact(p, pc, b);
    PartitionAt(bs, 0, |p|, b);
    if bs[b].end < |p| {
      PartitionAt(bs, 0, |p|, b + 1);
      BlockOfExact(p, bs[b].end, b + 1);
    }
  }

  lemma InSlice(p: seq<Instr>, lo: nat, hi: nat, i: nat)
    requires lo <= i < hi <= |p|
    ensures p[i] in p[lo..hi]
  {
    assert p[i] == p[lo..hi][i - lo];
  }

  lemma LabelHolder(p: seq<Instr>, l: nat, i: nat)
    requires UniqueLabels(p) && i < |p| && p[i] == LabelI(l)
    ensures var bs := Blocks(p); InCode(p, bs) && LabelBlock(p, bs, l) == Some(BlockOf(bs, i))
  {
    var bs := Blocks(p);
    BlockAt(p, i);
    var b := BlockOf(bs, i);
    InSlice(p, bs[b].start, bs[b].end, i);
    assert LabelBlock(p, bs, l).Some?;
    var c := LabelBlock(p, bs, l).value;
    OnePlace(p, l, i, bs[c].start, bs[c].end);
    BlockOfExact(p, i, c);
  }

  lemma OnePlace(p: seq<Instr>, l: nat, i: nat, lo: nat, hi: nat)
    requires UniqueLabels(p) && i < |p| && p[i] == LabelI(l) && lo <= hi <= |p| && LabelI(l) in p[lo..hi]
    ensures lo <= i < hi
  {
    var s := p[lo..hi];
    var k :| 0 <= k < |s| && s[k] == LabelI(l);
    FindPlaced(p, i);
    FindPlaced(p, lo + k);
  }

  /** The step goes to the next instruction of its block, enters a successor of the block, or leaves the
      code. */
  ghost predicate Stays(p: seq<Instr>, c: Config, d: Config)
    requires c.pc < |p|
  {
    var bs := Blocks(p);
    && InCode(p, bs)
    && var b := BlockOf(bs, c.pc);
    && b < |bs| && bs[b].start <= c.pc < bs[b].end
    && ((d.pc == c.pc + 1 < bs[b].end) || d.pc == |p| || BlockOf(bs, d.pc) in NextList(p, bs, b))
  }

  /** The graph does not look for the label of an ASM_JLE: the block of the label has to be a successor for another
      reason, that the block ends there. */
  ghost predicate LinkedAnyway(p: seq<Instr>, pc: nat)
    requires pc < |p| && p[pc].Jump?
  {
    && InCode(p, Blocks(p)) && BlockOf(Blocks(p), pc) < |Blocks(p)|
    && var l := LabelBlock(p, Blocks(p), p[pc].target);
       l.Some? && l.value in NextList(p, Blocks(p), BlockOf(Blocks(p), pc))
  }

  /** Every step of the machine stays in the graph, unless it takes an ASM_JLE, does not just go to the next instruction
      with it, and the block of its label is no successor for another reason. */
  lemma StepStaysExact(p: seq<Instr>, c: Config, d: Config)
    requires UniqueLabels(p) && Step(p, c) == Some(d)
    ensures c.pc < |p|
    ensures Stays(p, c, d) <==> (p[c.pc].Jump? && p[c.pc].op == JLE ==> d.pc == c.pc + 1 || LinkedAnyway(p, c.pc))
  {
    StepTarget(p, c, d);
    if p[c.pc].Jump? && p[c.pc].op == JLE {
      OverlookedExact(p, c, d);
    } else if d.pc == c.pc + 1 && !IsUncondJump(p[c.pc]) {
      NextStays(p, c, d);
    } else {
      if p[c.pc].Jump? {
        JumpRecognised(p, c, d);
      }
      TargetStays(p, c, d);
    }
  }

  lemma JumpRecognised(p: seq<Instr>, c: Config, d: Config)
    requires Step(p, c) == Some(d) && p[c.pc].Jump? && p[c.pc].op != JLE
    ensures IsCondJump(p[c.pc])
  {
  }

  lemma NextStays(p: seq<Instr>, c: Config, d: Config)
    requires c.pc < |p| && d.pc == c.pc + 1 && !IsUncondJump(p[c.pc])
    ensures Stays(p, c, d)
  {
    EnterNext(p, c.pc);
  }

  lemma TargetStays(p: seq<Instr>, c: Config, d: Config)
    requires UniqueLabels(p) && c.pc < |p| && (p[c.pc].Goto? || IsCondJump(p[c.pc]))
    requires Find(p, p[c.pc].target) == Some(d.pc)
    ensures Stays(p, c, d)
  {
    EnterTarget(p, c.pc, d.pc);
  }

  lemma OverlookedExact(p: seq<Instr>, c: Config, d: Config)
    requires UniqueLabels(p) && c.pc < |p| && p[c.pc].Jump? && p[c.pc].op == JLE
    requires d.pc == c.pc + 1 || Find(p, p[c.pc].target) == Some(d.pc)
    ensures Stays(p, c, d) <==> d.pc == c.pc + 1 || LinkedAnyway(p, c.pc)
  {
    if d.pc == c.pc + 1 {
      NextStays(p, c, d);
    } else {
      Overlooked(p, c.pc, d.pc);
    }
  }

  /** A jump that is overlooked and taken leaves its block, and enters the block of its label. */
  lemma Overlooked(p: seq<Instr>, pc: nat, to: nat)
    requires UniqueLabels(p) && pc < |p| && p[pc].Jump? && Find(p, p[pc].target) == Some(to)
    ensures var bs := Blocks(p);
      && InCode(p, bs) && BlockOf(bs, pc) < |bs| && bs[BlockOf(bs, pc)].start <= pc < bs[BlockOf(bs, pc)].end
      && LabelBlock(p, bs, p[pc].target) == Some(BlockOf(bs, to))
  {
    BlockAt(p, pc);
    LabelHolder(p, p[pc].target, to);
  }

  /** Every step stays in the graph, as long as the instruction is not the one jump that the graph overlooks. */
  lemma StepStays(p: seq<Instr>, c: Config, d: Config)
    requires UniqueLabels(p) && Step(p, c) == Some(d) && (p[c.pc].Jump? ==> p[c.pc].op != JLE)
    ensures Stays(p, c, d)
  {
    StepStaysExact(p, c, d);
  }

  lemma StepTarget(p: seq<Instr>, c: Config, d: Config)
    requires Step(p, c) == Some(d)
    ensures c.pc < |p|
    ensures (d.pc == c.pc + 1 && !IsUncondJump(p[c.pc]))
      || ((p[c.pc].Goto? || p[c.pc].Jump?) && Find(p, p[c.pc].target) == Some(d.pc))
  {
  }

  lemma EnterNext(p: seq<Instr>, pc: nat)
    requires pc < |p| && !IsUncondJump(p[pc])
    ensures var bs := Blocks(p);
      && InCode(p, bs)
      && var b := BlockOf(bs, pc);
      && b < |bs| && bs[b].start <= pc < bs[b].end
      && (pc + 1 < bs[b].end || pc + 1 == |p| || BlockOf(bs, pc + 1) in NextList(p, bs, b))
  {
    BlockAt(p, pc);
    var bs := Blocks(p);
    var b := BlockOf(bs, pc);
    if pc + 1 == bs[b].end < |p| {
      assert FallsInto(p, bs, b) == [b + 1];
    }
  }

  lemma EnterTarget(p: seq<Instr>, pc: nat, to: nat)
    requires UniqueLabels(p) && pc < |p| && (p[pc].Goto? || IsCondJump(p[pc])) && Find(p, p[pc].target) == Some(to)
    ensures var bs := Blocks(p);
      && InCode(p, bs)
      && var b := BlockOf(bs, pc);
      && b < |bs| && bs[b].start <= pc < bs[b].end
      && BlockOf(bs, to) in NextList(p, bs, b)
  {
    BlockAt(p, pc);
    var bs := Blocks(p);
    var b := BlockOf(bs, pc);
    assert EndsBlock(p[pc]) && pc == bs[b].end - 1;
    LabelHolder(p, p[pc].target, to);
    NextHasTarget(p, bs, b, p[pc].target);
  }

  /** The successors of a block: the next block, unless its last instruction always jumps; and the block of the label of
      a Goto or of a conditional jump other than ASM_JLE. */
  lemma NextExact(p: seq<Instr>, b: nat, j: nat)
    requires UniqueLabels(p) && b < |Blocks(p)|
    ensures InCode(p, Blocks(p))
    ensures var bs := Blocks(p); var last := p[bs[b].end - 1];
      j in NextList(p, bs, b) <==>
        || (j == b + 1 < |bs| && !last.Goto? && !last.Ret?)
        || ((last.Goto? || (last.Jump? && last.op != JLE && last.op != BAD_ST3)) && Holder(p, bs, last.target) == Some(j))
  {
    BlocksInCode(p);
    var last := p[Blocks(p)[b].end - 1];
    if JumpLabel(last).Some? {
      LabelFound(p, last.target);
    }
    NextMembers(p, Blocks(p), b, j);
    NextLinks(p, Blocks(p), b, j, last);
  }

  lemma BlocksInCode(p: seq<Instr>)
    ensures InCode(p, Blocks(p))
  {
    BlocksPartition(p, 0);
  }

  function Holder(p: seq<Instr>, bs: seq<Bounds>, l: nat): Option<nat> {
    match Find(p, l) case None => None case Some(i) => Some(BlockOf(bs, i))
  }

  lemma NextLinks(p: seq<Instr>, bs: seq<Bounds>, b: nat, j: nat, last: Instr)
    requires b < |bs| && InCode(p, bs) && last == p[bs[b].end - 1]
    requires JumpLabel(last).Some? ==> LabelBlock(p, bs, last.target) == Holder(p, bs, last.target)
    requires j in NextList(p, bs, b)
      <==> j in FallsInto(p, bs, b) || (JumpLabel(last).Some? && LabelBlock(p, bs, last.target) == Some(j))
    ensures j in NextList(p, bs, b) <==>
      || (j == b + 1 < |bs| && !last.Goto? && !last.Ret?)
      || ((last.Goto? || (last.Jump? && last.op != JLE && last.op != BAD_ST3)) && Holder(p, bs, last.target) == Some(j))
  {
  }

  lemma NextMembers(p: seq<Instr>, bs: seq<Bounds>, b: nat, j: nat)
    requires b < |bs| && InCode(p, bs)
    ensures var l := JumpLabel(p[bs[b].end - 1]);
      j in NextList(p, bs, b) <==> j in FallsInto(p, bs, b) || (l.Some? && LabelBlock(p, bs, l.value) == Some(j))
  {
  }

  /** The block of a label is the one that holds its position. */
  lemma LabelFound(p: seq<Instr>, l: nat)
    requires UniqueLabels(p)
    ensures InCode(p, Blocks(p))
    ensures LabelBlock(p, Blocks(p), l) == Holder(p, Blocks(p), l)
  {
    BlocksInCode(p);
    if Find(p, l).Some? {
      LabelHolder(p, l, Find(p, l).value);
    }
  }

  lemma NextHasTarget(p: seq<Instr>, bs: seq<Bounds>, b: nat, l: nat)
    requires b < |bs| && InCode(p, bs) && JumpLabel(p[bs[b].end - 1]) == Some(l) && LabelBlock(p, bs, l).Some?
    ensures LabelBlock(p, bs, l).value in NextList(p, bs, b)
  {
    var r := NextList(p, bs, b);
    assert r[|r| - 1] == LabelBlock(p, bs, l).value;
  }
}
