/** The class FlowGraph of onejit/flowgraph.cpp. All successor and predecessor lists are slices of one
    array whose size is fixed before anything is known about them, and a write outside of it is dropped
    without notice; the size is proved to be enough. */
module FlowGraphBuilder {
  import opened Stmts
  import opened Flat
  import opened FlowGraphs

  // ---------------------------------------------------------------- capacity

  /** What build_basicblocks() counts for one block. */
  function Weight(p: seq<Instr>, b: Bounds): nat
    requires b.start < b.end <= |p|
  {
    var last := p[b.end - 1];
    if IsUncondJump(last) then 1
    else if IsCondJump(last) then (if b.end == |p| then 1 else 2)
    else if b.end < |p| then 1
    else 0
  }

  function TotalWeight(p: seq<Instr>, bs: seq<Bounds>): nat
    requires InCode(p, bs)
  {
    if bs == [] then 0 else TotalWeight(p, bs[..|bs| - 1]) + Weight(p, bs[|bs| - 1])
  }

  function TotalLength(ss: seq<seq<nat>>): nat {
    if ss == [] then 0 else TotalLength(ss[..|ss| - 1]) + |ss[|ss| - 1]|
  }

  lemma {:induction false} LengthPrefix(ss: seq<seq<nat>>, i: nat)
    requires i < |ss|
    ensures TotalLength(ss[..i]) + |ss[i]| == TotalLength(ss[..i + 1]) <= TotalLength(ss)
    decreases |ss| - i
  {
    assert ss[..i + 1][..i] == ss[..i];
    if i + 1 < |ss| {
      LengthPrefix(ss, i + 1);
    } else {
      assert ss[..i + 1] == ss;
    }
  }

  /** A block has no more successors than it weighs: exactly as many, if its jump has a label that stands, and one less
      behind a return. */
  lemma NextWeight(p: seq<Instr>, bs: seq<Bounds>, b: nat)
    requires Partition(bs, 0, |p|) && InCode(p, bs) && b < |bs|
    ensures |NextList(p, bs, b)| <= Weight(p, bs[b])
    ensures Resolves(p, bs, b) ==> |NextList(p, bs, b)| + (if p[bs[b].end - 1].Ret? then 1 else 0) == Weight(p, bs[b])
  {
    PartitionAt(bs, 0, |p|, b);
  }

  lemma {:induction false} LengthWeight(p: seq<Instr>, bs: seq<Bounds>, lists: seq<seq<nat>>)
    requires InCode(p, bs) && |lists| == |bs| && forall b :: 0 <= b < |bs| ==> |lists[b]| <= Weight(p, bs[b])
    ensures TotalLength(lists) <= TotalWeight(p, bs)
  {
    if bs != [] {
      LengthWeight(p, bs[..|bs| - 1], lists[..|bs| - 1]);
    }
  }

  /** How many of the numbers below m occur in x. */
  function Occurring(x: seq<nat>, m: nat): nat {
    if m == 0 then 0 else Occurring(x, m - 1) + (if m - 1 in x then 1 else 0)
  }

  lemma {:induction false} OccurringAtMost(x: seq<nat>, m: nat)
    ensures Occurring(x, m) <= |x|
  {
    if x == [] {
      NoneOccurs(m);
    } else {
      OccurringAtMost(x[..|x| - 1], m);
      OneMore(x, m);
    }
  }

  lemma {:induction false} NoneOccurs(m: nat)
    ensures Occurring([], m) == 0
  {
    if m > 0 {
      NoneOccurs(m - 1);
    }
  }

  lemma {:induction false} OneMore(x: seq<nat>, m: nat)
    requires x != []
    ensures Occurring(x, m) <= Occurring(x[..|x| - 1], m) + (if x[|x| - 1] < m then 1 else 0)
  {
    if m > 0 {
      OneMore(x, m - 1);
      assert x == x[..|x| - 1] + [x[|x| - 1]];
    }
  }

  lemma {:induction false} PrevsMore(nexts: seq<seq<nat>>, m: nat)
    requires nexts != []
    ensures TotalLength(Prevs(nexts, m))
      == TotalLength(Prevs(nexts[..|nexts| - 1], m)) + Occurring(nexts[|nexts| - 1], m)
  {
    if m > 0 {
      PrevsMore(nexts, m - 1);
      var front := nexts[..|nexts| - 1];
      assert Prevs(nexts, m)[..m - 1] == Prevs(nexts, m - 1);
      assert Prevs(front, m)[..m - 1] == Prevs(front, m - 1);
    }
  }

  /** There are no more predecessor entries than successor entries. */
  lemma {:induction false} PrevFits(nexts: seq<seq<nat>>, m: nat)
    ensures TotalLength(Prevs(nexts, m)) <= TotalLength(nexts)
  {
    if nexts == [] {
      NoPrevs(m);
    } else {
      PrevFits(nexts[..|nexts| - 1], m);
      PrevsMore(nexts, m);
      OccurringAtMost(nexts[|nexts| - 1], m);
    }
  }

  lemma {:induction false} NoPrevs(m: nat)
    ensures TotalLength(Prevs([], m)) == 0
  {
    if m > 0 {
      NoPrevs(m - 1);
      assert Prevs([], m)[..m - 1] == Prevs([], m - 1);
    }
  }

  /** The largest label among the first n instructions, or 0. */
  function MaxLabel(p: seq<Instr>, n: nat): (l: nat)
    requires n <= |p|
    ensures forall i :: 0 <= i < n && p[i].LabelI? ==> p[i].index <= l
  {
    if n == 0 then 0
    else
      var m := MaxLabel(p, n - 1);
      if p[n - 1].LabelI? && p[n - 1].index > m then p[n - 1].index else m
  }

  /** The size of the array: a table of labels, and twice what the blocks weigh. */
  function Capacity(p: seq<Instr>): nat
    requires InCode(p, Blocks(p))
  {
    1 + MaxLabel(p, |p|) + 2 * TotalWeight(p, Blocks(p))
  }

  /** The label table, all successors and all predecessors fit into the array, whatever the code. */
  lemma CapacityEnough(p: seq<Instr>)
    ensures InCode(p, Blocks(p))
    ensures var bs := Blocks(p); var nexts := Nexts(p, bs, |bs|);
      1 + MaxLabel(p, |p|) + TotalLength(nexts) + TotalLength(Prevs(nexts, |bs|)) <= Capacity(p)
  {
    var bs := Blocks(p);
    BlocksPartition(p, 0);
    var nexts := Nexts(p, bs, |bs|);
    forall b | 0 <= b < |bs| ensures |nexts[b]| <= Weight(p, bs[b]) {
      NextWeight(p, bs, b);
    }
    LengthWeight(p, bs, nexts);
    PrevFits(nexts, |bs|);
  }

  // ---------------------------------------------------------------- slices of the array

  datatype Slice = Slice(lo: nat, hi: nat)

  datatype BasicBlock = BasicBlock(bounds: Bounds, next: Slice, prev: Slice)

  const EMPTY: Slice := Slice(0, 0)

  function PrevSlice(lo: nat, hi: nat): Slice { if lo < hi then Slice(lo, hi) else EMPTY }

  type Links = seq<Option<nat>>

  /** The slice holds the list. */
  predicate Holds(links: Links, s: Slice, list: seq<nat>) {
    && s.lo + |list| == s.hi <= |links|
    && forall j :: 0 <= j < |list| ==> links[s.lo + j] == Some(list[j])
  }

  /** The array is the same outside of [lo, hi). */
  predicate SameOutside(a: Links, b: Links, lo: nat, hi: nat) {
    |a| == |b| && forall j :: 0 <= j < |a| && !(lo <= j < hi) ==> a[j] == b[j]
  }

  /** The slices hold the lists, below top. */
  predicate AllHold(links: Links, slices: seq<Slice>, lists: seq<seq<nat>>, top: nat) {
    && |slices| <= |lists|
    && forall b :: 0 <= b < |slices| ==> slices[b].hi <= top && Holds(links, slices[b], lists[b])
  }

  lemma StillHold(a: Links, b: Links, slices: seq<Slice>, lists: seq<seq<nat>>, top: nat, lo: nat, hi: nat)
    requires AllHold(a, slices, lists, top) && SameOutside(a, b, lo, hi) && top <= lo
    ensures AllHold(b, slices, lists, top)
  {
  }

  lemma HoldsMore(links: Links, slices: seq<Slice>, lists: seq<seq<nat>>, top: nat, s: Slice, more: nat)
    requires AllHold(links, slices, lists, top) && |slices| < |lists| && top <= more
    requires s.hi <= more && Holds(links, s, lists[|slices|])
    ensures AllHold(links, slices + [s], lists, more)
  {
  }

  lemma HigherTop(links: Links, slices: seq<Slice>, lists: seq<seq<nat>>, top: nat, more: nat)
    requires AllHold(links, slices, lists, top) && top <= more
    ensures AllHold(links, slices, lists, more)
  {
  }

  lemma HoldsAppend(before: Links, links: Links, lo: nat, hi: nat, list: seq<nat>, x: nat)
    requires Holds(before, Slice(lo, hi), list) && hi < |before| && links == before[hi := Some(x)]
    ensures Holds(links, Slice(lo, hi + 1), list + [x])
  {
  }

  lemma StillTable(p: seq<Instr>, bs: seq<Bounds>, a: Links, b: Links, n: nat, lo: nat, hi: nat)
    requires InCode(p, bs) && Table(p, bs, a, n) && SameOutside(a, b, lo, hi) && n <= lo
    ensures Table(p, bs, b, n)
  {
  }

  lemma HoldsBoth(a: Links, b: Links, lo: nat, mid: nat, hi: nat, first: seq<nat>, second: seq<nat>)
    requires Holds(a, Slice(lo, mid), first) && SameOutside(a, b, mid, hi) && Holds(b, Slice(mid, hi), second)
    ensures Holds(b, Slice(lo, hi), first + second)
  {
  }

  /** The blocks before start have been seen, with their weight. */
  ghost predicate Scanned(p: seq<Instr>, bs: seq<Bounds>, seen: seq<Bounds>, start: nat, jumps: nat) {
    start <= |p| && seen + BlocksFrom(p, start) == bs && InCode(p, seen) && jumps == TotalWeight(p, seen)
  }

  lemma SeenMore(p: seq<Instr>, bs: seq<Bounds>, seen: seq<Bounds>, start: nat, jumps: nat)
    requires start < |p| && Scanned(p, bs, seen, start, jumps)
    ensures var b := Bounds(start, BlockEnd(p, start));
      Scanned(p, bs, seen + [b], b.end, jumps + Weight(p, b))
  {
    var b := Bounds(start, BlockEnd(p, start));
    assert (seen + [b]) + BlocksFrom(p, b.end) == seen + ([b] + BlocksFrom(p, b.end));
    OneHeavier(p, seen, b);
  }

  lemma OneHeavier(p: seq<Instr>, seen: seq<Bounds>, b: Bounds)
    requires InCode(p, seen) && b.start < b.end <= |p|
    ensures TotalWeight(p, seen + [b]) == TotalWeight(p, seen) + Weight(p, b)
  {
    assert (seen + [b])[..|seen|] == seen;
  }

  predicate SameBounds(blocks: seq<BasicBlock>, bs: seq<Bounds>) {
    |blocks| == |bs| && forall b :: 0 <= b < |bs| ==> blocks[b].bounds == bs[b]
  }

  /** The table of labels that resolve_labels() fills. */
  ghost predicate Table(p: seq<Instr>, bs: seq<Bounds>, links: Links, n: nat)
    requires InCode(p, bs)
  {
    n <= |links| && forall l: nat :: l < n ==> links[l] == LabelBlock(p, bs, l)
  }

  predicate AllWellFormed(p: seq<Instr>, bs: seq<Bounds>) { forall k :: 0 <= k < |bs| ==> WellFormed(p, bs[k]) }

  predicate LabelsBelow(p: seq<Instr>, n: nat) { forall i :: 0 <= i < |p| && p[i].LabelI? ==> p[i].index < n }

  /** Every jump that ends a block goes to a label that stands. */
  predicate AllResolve(p: seq<Instr>, bs: seq<Bounds>)
    requires InCode(p, bs)
  {
    forall b :: 0 <= b < |bs| ==> Resolves(p, bs, b)
  }

  /** Blocks without links. */
  function Unlinked(bs: seq<Bounds>): (r: seq<BasicBlock>)
    ensures |r| == |bs| && forall b :: 0 <= b < |bs| ==> r[b] == BasicBlock(bs[b], EMPTY, EMPTY)
  {
    seq(|bs|, b requires 0 <= b < |bs| => BasicBlock(bs[b], EMPTY, EMPTY))
  }

  function NextSlices(blocks: seq<BasicBlock>, n: nat): (r: seq<Slice>)
    requires n <= |blocks|
    ensures |r| == n && forall b :: 0 <= b < n ==> r[b] == blocks[b].next
  {
    seq(n, b requires 0 <= b < n => blocks[b].next)
  }

  function PrevSlices(blocks: seq<BasicBlock>, n: nat): (r: seq<Slice>)
    requires n <= |blocks|
    ensures |r| == n && forall b :: 0 <= b < n ==> r[b] == blocks[b].prev
  {
    seq(n, b requires 0 <= b < n => blocks[b].prev)
  }

  // ---------------------------------------------------------------- the class

  class FlowGraph {
    var code: seq<Instr>
    var blocks: seq<BasicBlock>
    var links: Links
    var labelN: nat
    var linkAvail: nat
    var errors: nat

    constructor ()
      ensures blocks == [] && links == [] && errors == 0
    {
      code, blocks, links, labelN, linkAvail, errors := [], [], [], 0, 0, 0;
    }

    /** links_.set(): a write outside of the array is dropped. */
    method SetLink(i: nat, to: nat)
      modifies this`links
      ensures links == if i < |old(links)| then old(links)[i := Some(to)] else old(links)
    {
      if i < |links| {
        links := links[i := Some(to)];
      }
    }

    /** links_.span(): empty when it does not fit. */
    method LinkSpan(lo: nat, hi: nat) returns (s: Slice)
      ensures s == if lo <= hi <= |links| then Slice(lo, hi) else EMPTY
    {
      s := if lo <= hi <= |links| then Slice(lo, hi) else EMPTY;
    }

    /** Builds the graph, whose blocks and links are those of FlowGraphs; false exactly when a jump at the
        end of a block has no label to go to. */
    method Build(p: seq<Instr>) returns (ok: bool)
      modifies this
      ensures InCode(p, Blocks(p)) && ok == AllResolve(p, Blocks(p))
      ensures errors == old(errors) + if ok then 0 else 1
      ensures ok ==>
        && SameBounds(blocks, Blocks(p))
        && AllHold(links, NextSlices(blocks, |blocks|), Nexts(p, Blocks(p), |blocks|), |links|)
        && AllHold(links, PrevSlices(blocks, |blocks|), Prevs(Nexts(p, Blocks(p), |blocks|), |blocks|), |links|)
    {
      code, blocks, links, labelN, linkAvail := p, [], [], 0, 0;
      ghost var bs := Blocks(p);
      BlocksPartition(p, 0);
      if |p| == 0 {
        assert bs == [];
        return true;
      }
      CapacityEnough(p);
      BuildBlocks(bs);
      ok := ResolveLinks(bs, Nexts(p, bs, |bs|));
    }

    method ResolveLinks(ghost bs: seq<Bounds>, ghost nexts: seq<seq<nat>>) returns (ok: bool)
      requires blocks == Unlinked(bs) && InCode(code, bs) && AllWellFormed(code, bs) && LabelsBelow(code, labelN)
      requires nexts == Nexts(code, bs, |bs|) && forall l :: 0 <= l < |links| ==> links[l] == None
      requires labelN + TotalLength(nexts) + TotalLength(Prevs(nexts, |bs|)) <= |links|
      modifies this`blocks, this`links, this`linkAvail, this`errors
      ensures ok == AllResolve(code, bs) && errors == old(errors) + if ok then 0 else 1
      ensures ok ==>
        && SameBounds(blocks, bs)
        && AllHold(links, NextSlices(blocks, |blocks|), nexts, |links|)
        && AllHold(links, PrevSlices(blocks, |blocks|), Prevs(nexts, |bs|), |links|)
    {
      ResolveLabels(bs);
      ok := ResolveNext(bs, nexts);
      if ok {
        ResolvePrev(bs, nexts, Prevs(nexts, |bs|));
      }
    }

    method BuildBlocks(ghost bs: seq<Bounds>)
      requires code != [] && blocks == [] && bs == Blocks(code) && InCode(code, bs)
      modifies this`blocks, this`links, this`labelN, this`linkAvail
      ensures blocks == Unlinked(bs) && linkAvail == labelN == 1 + MaxLabel(code, |code|)
      ensures |links| == labelN + 2 * TotalWeight(code, bs) && forall l :: 0 <= l < |links| ==> links[l] == None
    {
      var jumps, labelMax := ScanBlocks(bs);
      labelN := 1 + labelMax;
      linkAvail := labelN;
      links := seq(1 + labelMax + jumps * 2, i => None);
    }

    method ScanBlocks(ghost bs: seq<Bounds>) returns (jumps: nat, labelMax: nat)
      requires blocks == [] && bs == Blocks(code)
      modifies this`blocks
      ensures InCode(code, bs) && blocks == Unlinked(bs)
      ensures jumps == TotalWeight(code, bs) && labelMax == MaxLabel(code, |code|)
    {
      var n := |code|;
      var start := 0;
      jumps, labelMax := 0, 0;
      ghost var seen: seq<Bounds> := [];
      while start < n
        invariant start <= n && blocks == Unlinked(seen) && Scanned(code, bs, seen, start, jumps)
        invariant labelMax == MaxLabel(code, start)
      {
        SeenMore(code, bs, seen, start, jumps);
        var i, more, top := ScanBlock(start, labelMax);
        AddBlock(Bounds(start, i), seen);
        seen := seen + [Bounds(start, i)];
        start, jumps, labelMax := i, jumps + more, top;
      }
      assert seen == bs;
    }

    method AddBlock(b: Bounds, ghost seen: seq<Bounds>)
      requires blocks == Unlinked(seen)
      modifies this`blocks
      ensures blocks == Unlinked(seen + [b])
    {
      blocks := blocks + [BasicBlock(b, EMPTY, EMPTY)];
    }

    /** The two inner loops of build_basicblocks(): the end of the block, what it adds to `jumps`, and
        the new maximum of the labels. */
    method ScanBlock(start: nat, labels: nat) returns (i: nat, jumps: nat, labelMax: nat)
      requires start < |code| && labels == MaxLabel(code, start)
      ensures i == BlockEnd(code, start) && jumps == Weight(code, Bounds(start, i)) && labelMax == MaxLabel(code, i)
    {
      i, labelMax := ScanLabels(start, labels);
      i, jumps := ScanBody(start, i, labelMax);
    }

    method ScanLabels(start: nat, labels: nat) returns (i: nat, labelMax: nat)
      requires start < |code| && labels == MaxLabel(code, start)
      ensures i == LabelsEnd(code, start) && labelMax == MaxLabel(code, i)
    {
      i, labelMax := start, labels;
      while i < |code| && code[i].LabelI?
        invariant start <= i <= |code| && LabelsEnd(code, start) == LabelsEnd(code, i)
        invariant labelMax == MaxLabel(code, i)
      {
        labelMax := if code[i].index > labelMax then code[i].index else labelMax;
        i := i + 1;
      }
    }

    method ScanBody(start: nat, body: nat, ghost labels: nat) returns (i: nat, jumps: nat)
      requires start < |code| && body == LabelsEnd(code, start) && labels == MaxLabel(code, body)
      ensures i == BodyEnd(code, body) && start < i && jumps == Weight(code, Bounds(start, i))
      ensures MaxLabel(code, i) == labels
    {
      var n := |code|;
      i, jumps := body, 0;
      while i < n
        invariant body <= i <= n && BodyEnd(code, body) == BodyEnd(code, i) && labels == MaxLabel(code, i)
        invariant i > start ==> !EndsBlock(code[i - 1])
        invariant i == body ==> i == n || !code[i].LabelI?
      {
        if code[i].LabelI? {
          return i, 1;
        }
        i := i + 1;
        if IsUncondJump(code[i - 1]) {
          return i, 1;
        } else if IsCondJump(code[i - 1]) {
          return i, if i == n then 1 else 2;
        }
      }
    }

    method ResolveLabels(ghost bs: seq<Bounds>)
      requires SameBounds(blocks, bs) && InCode(code, bs) && AllWellFormed(code, bs) && LabelsBelow(code, labelN)
      requires labelN <= |links| && forall l :: 0 <= l < |links| ==> links[l] == None
      modifies this`links
      ensures Table(code, bs, links, labelN) && |links| == |old(links)|
    {
      for b := 0 to |blocks|
        invariant |links| == |old(links)| && InCode(code, bs[..b]) && Table(code, bs[..b], links, labelN)
      {
        ghost var before := links;
        SetLabels(b);
        TableMore(code, bs, before, links, labelN, b);
      }
      assert bs[..|bs|] == bs;
    }

    /** The inner loop of resolve_labels(): the labels at the start of block b. */
    method SetLabels(b: nat)
      requires b < |blocks| && WellFormed(code, blocks[b].bounds) && LabelsBelow(code, labelN) && labelN <= |links|
      modifies this`links
      ensures |links| == |old(links)|
      ensures forall l: nat :: l < labelN ==>
        links[l] == if LabelI(l) in code[blocks[b].bounds.start..blocks[b].bounds.end] then Some(b) else old(links)[l]
    {
      var bounds := blocks[b].bounds;
      var j := bounds.start;
      while j < bounds.end && code[j].LabelI?
        invariant bounds.start <= j <= bounds.end && |links| == |old(links)|
        invariant forall l: nat :: l < labelN ==>
          links[l] == if LabelI(l) in code[bounds.start..j] then Some(b) else old(links)[l]
      {
        assert code[bounds.start..j + 1] == code[bounds.start..j] + [code[j]];
        SetLink(code[j].index, b);
        j := j + 1;
      }
      NoLabelsAfter(code, bounds, j);
    }

    method ResolveNext(ghost bs: seq<Bounds>, ghost nexts: seq<seq<nat>>) returns (ok: bool)
      requires SameBounds(blocks, bs) && InCode(code, bs) && |nexts| == |bs|
      requires forall b :: 0 <= b < |bs| ==> nexts[b] == NextList(code, bs, b)
      requires LabelsBelow(code, labelN) && Table(code, bs, links, labelN) && labelN + TotalLength(nexts) <= |links|
      requires forall b :: 0 <= b < |blocks| ==> blocks[b].prev == EMPTY
      modifies this`blocks, this`links, this`linkAvail, this`errors
      ensures ok == AllResolve(code, bs) && errors == old(errors) + if ok then 0 else 1
      ensures SameBounds(blocks, bs) && |links| == |old(links)|
      ensures ok ==>
        linkAvail == labelN + TotalLength(nexts) && AllHold(links, NextSlices(blocks, |blocks|), nexts, linkAvail)
      ensures forall b :: 0 <= b < |blocks| ==> blocks[b].prev == EMPTY
    {
      var n := |blocks|;
      var linkStart := labelN;
      ghost var slices: seq<Slice> := [];
      assert nexts[..0] == [];
      for i := 0 to n
        invariant |links| == |old(links)| && errors == old(errors) && |slices| == i
        invariant Linked(bs, nexts, slices, linkStart)
        invariant forall b :: 0 <= b < n ==> blocks[b].prev == EMPTY
      {
        var good, linkEnd := NextTurn(i, linkStart, bs, nexts, slices);
        if !good {
          return false;
        }
        slices := slices + [Slice(linkStart, linkEnd)];
        linkStart := linkEnd;
      }
      assert nexts[..n] == nexts;
      assert slices == NextSlices(blocks, n);
      linkAvail := linkStart;
      return true;
    }

    /** The successors of the first blocks are linked, up to top. */
    ghost predicate Linked(bs: seq<Bounds>, nexts: seq<seq<nat>>, slices: seq<Slice>, top: nat)
      reads this
    {
      && SameBounds(blocks, bs) && InCode(code, bs) && Table(code, bs, links, labelN)
      && |slices| <= |nexts| == |bs| && top == labelN + TotalLength(nexts[..|slices|])
      && AllHold(links, slices, nexts, top)
      && forall b :: 0 <= b < |slices| ==> blocks[b].next == slices[b] && Resolves(code, bs, b)
    }

    method NextTurn(i: nat, linkStart: nat, ghost bs: seq<Bounds>, ghost nexts: seq<seq<nat>>,
        ghost slices: seq<Slice>) returns (ok: bool, linkEnd: nat)
      requires Linked(bs, nexts, slices, linkStart) && i == |slices| < |bs| && nexts[i] == NextList(code, bs, i)
      requires LabelsBelow(code, labelN) && labelN + TotalLength(nexts) <= |links|
      modifies this`blocks, this`links, this`errors
      ensures ok == Resolves(code, bs, i) && errors == old(errors) + if ok then 0 else 1
      ensures |links| == |old(links)| && SameBounds(blocks, bs)
      ensures ok ==> linkStart <= linkEnd && Linked(bs, nexts, slices + [Slice(linkStart, linkEnd)], linkEnd)
      ensures forall b :: 0 <= b < |blocks| ==> blocks[b].prev == old(blocks)[b].prev
    {
      LengthPrefix(nexts, i);
      ok, linkEnd := ResolveBlock(i, linkStart, bs);
      if ok {
        StillHold(old(links), links, slices, nexts, linkStart, linkStart, linkEnd);
        HoldsMore(links, slices, nexts, linkStart, Slice(linkStart, linkEnd), linkEnd);
        StillTable(code, bs, old(links), links, labelN, linkStart, linkEnd);
      }
    }

    /** One turn of the loop in resolve_next(), on the array. */
    method ResolveBlock(i: nat, linkStart: nat, ghost bs: seq<Bounds>) returns (ok: bool, linkEnd: nat)
      requires SameBounds(blocks, bs) && InCode(code, bs) && i < |bs|
      requires LabelsBelow(code, labelN) && Table(code, bs, links, labelN)
      requires labelN <= linkStart && linkStart + |NextList(code, bs, i)| <= |links|
      modifies this`blocks, this`links, this`errors
      ensures ok == Resolves(code, bs, i) && errors == old(errors) + if ok then 0 else 1
      ensures SameOutside(old(links), links, linkStart, linkStart + |NextList(code, bs, i)|)
      ensures if ok then linkEnd == linkStart + |NextList(code, bs, i)|
          && blocks == old(blocks)[i := old(blocks)[i].(next := Slice(linkStart, linkEnd))]
          && Holds(links, Slice(linkStart, linkEnd), NextList(code, bs, i))
        else blocks == old(blocks)
    {
      linkEnd := linkStart;
      var node := code[blocks[i].bounds.end - 1];
      NextParts(code, bs, i);
      ghost var fall := FallsInto(code, bs, i);
      if !IsUncondJump(node) && i + 1 < |blocks| {
        SetLink(linkEnd, i + 1);
        linkEnd := linkEnd + 1;
      }
      assert Holds(links, Slice(linkStart, linkEnd), fall) && SameOutside(old(links), links, linkStart, linkEnd);
      ghost var before := links;
      var more;
      ok, more := AddTarget(node, linkEnd, bs);
      if !ok {
        return;
      }
      HoldsBoth(before, links, linkStart, linkEnd, more, fall, TargetOf(code, bs, node));
      linkEnd := more;
      var s := LinkSpan(linkStart, linkEnd);
      blocks := blocks[i := blocks[i].(next := s)];
    }

    /** The part for a jump: its target is looked up in the table. */
    method AddTarget(node: Instr, linkEnd: nat, ghost bs: seq<Bounds>) returns (ok: bool, end: nat)
      requires InCode(code, bs) && LabelsBelow(code, labelN) && Table(code, bs, links, labelN)
      requires linkEnd + |TargetOf(code, bs, node)| <= |links|
      modifies this`links, this`errors
      ensures ok == (JumpLabel(node).Some? ==> LabelBlock(code, bs, JumpLabel(node).value).Some?)
      ensures errors == old(errors) + if ok then 0 else 1
      ensures if ok then end == linkEnd + |TargetOf(code, bs, node)| && SameOutside(old(links), links, linkEnd, end)
          && Holds(links, Slice(linkEnd, end), TargetOf(code, bs, node))
        else links == old(links)
    {
      ok, end := true, linkEnd;
      var l := JumpLabel(node);
      if l.Some? {
        if l.value >= labelN {
          NoSuchLabel(code, bs, l.value, labelN);
          errors := errors + 1;
          return false, end;
        }
        assert links[l.value] == LabelBlock(code, bs, l.value);
        if links[l.value].None? {
          errors := errors + 1;
          return false, end;
        }
        SetLink(end, links[l.value].value);
        end := end + 1;
      }
    }

    method ResolvePrev(ghost bs: seq<Bounds>, ghost nexts: seq<seq<nat>>, ghost prevs: seq<seq<nat>>)
      requires SameBounds(blocks, bs) && |nexts| == |bs| && prevs == Prevs(nexts, |bs|)
      requires AllHold(links, NextSlices(blocks, |blocks|), nexts, linkAvail)
      requires linkAvail + TotalLength(prevs) <= |links|
      requires forall b :: 0 <= b < |blocks| ==> blocks[b].prev == EMPTY
      modifies this`blocks, this`links, this`linkAvail
      ensures SameBounds(blocks, bs) && |links| == |old(links)|
      ensures AllHold(links, NextSlices(blocks, |blocks|), nexts, |links|)
      ensures AllHold(links, PrevSlices(blocks, |blocks|), prevs, |links|)
    {
      var n := |blocks|;
      var linkStart := linkAvail;
      ghost var slices := NextSlices(blocks, n);
      ghost var done: seq<Slice> := [];
      assert prevs[..0] == [];
      for i := 0 to n
        invariant |links| == |old(links)| && |done| == i && linkAvail == old(linkAvail) && |blocks| == n
        invariant NextSlices(blocks, n) == slices && BothLinked(bs, slices, nexts, done, prevs, linkStart)
      {
        var linkEnd := PrevTurn(i, linkStart, bs, nexts, prevs, done);
        done := done + [PrevSlice(linkStart, linkEnd)];
        linkStart := linkEnd;
      }
      assert prevs[..n] == prevs && done == PrevSlices(blocks, n);
      HigherTop(links, slices, nexts, linkAvail, |links|);
      HigherTop(links, done, prevs, linkStart, |links|);
      linkAvail := linkStart;
    }

    /** All successors and the predecessors of the first blocks are linked, these up to top. */
    ghost predicate BothLinked(bs: seq<Bounds>, slices: seq<Slice>, nexts: seq<seq<nat>>, done: seq<Slice>,
        prevs: seq<seq<nat>>, top: nat)
      reads this
    {
      && SameBounds(blocks, bs) && |nexts| == |prevs| == |bs| && |done| <= |bs|
      && AllHold(links, slices, nexts, linkAvail)
      && top == linkAvail + TotalLength(prevs[..|done|]) && AllHold(links, done, prevs, top)
      && forall b :: 0 <= b < |bs| ==> blocks[b].prev == if b < |done| then done[b] else EMPTY
    }

    method PrevTurn(i: nat, linkStart: nat, ghost bs: seq<Bounds>, ghost nexts: seq<seq<nat>>,
        ghost prevs: seq<seq<nat>>, ghost done: seq<Slice>) returns (linkEnd: nat)
      requires |blocks| == |bs| && BothLinked(bs, NextSlices(blocks, |blocks|), nexts, done, prevs, linkStart)
      requires i == |done| < |bs| && prevs[i] == PrevList(nexts, i) && linkAvail + TotalLength(prevs) <= |links|
      modifies this`blocks, this`links
      ensures |links| == |old(links)| && |blocks| == |bs|
      ensures NextSlices(blocks, |blocks|) == old(NextSlices(blocks, |blocks|))
      ensures linkStart <= linkEnd
      ensures BothLinked(bs, NextSlices(blocks, |blocks|), nexts, done + [PrevSlice(linkStart, linkEnd)], prevs,
                         linkEnd)
    {
      LengthPrefix(prevs, i);
      ghost var slices := NextSlices(blocks, |blocks|);
      HigherTop(links, slices, nexts, linkAvail, linkStart);
      linkEnd := ResolvePrevOf(i, linkStart, nexts);
      StillHold(old(links), links, done, prevs, linkStart, linkStart, linkEnd);
      StillHold(old(links), links, slices, nexts, linkAvail, linkStart, linkEnd);
      HoldsMore(links, done, prevs, linkStart, PrevSlice(linkStart, linkEnd), linkEnd);
    }

    /** One turn of the outer loop in resolve_prev(). */
    method ResolvePrevOf(i: nat, linkStart: nat, ghost nexts: seq<seq<nat>>) returns (linkEnd: nat)
      requires i < |blocks| == |nexts| && AllHold(links, NextSlices(blocks, |blocks|), nexts, linkStart)
      requires linkStart + |PrevList(nexts, i)| <= |links| && blocks[i].prev == EMPTY
      modifies this`blocks, this`links
      ensures linkEnd == linkStart + |PrevList(nexts, i)| && SameOutside(old(links), links, linkStart, linkEnd)
      ensures Holds(links, PrevSlice(linkStart, linkEnd), PrevList(nexts, i))
      ensures blocks == old(blocks)[i := old(blocks)[i].(prev := PrevSlice(linkStart, linkEnd))]
      ensures NextSlices(blocks, |blocks|) == NextSlices(old(blocks), |blocks|)
    {
      linkEnd := CollectPrev(i, linkStart, nexts);
      SetPrev(i, linkStart, linkEnd);
    }

    method SetPrev(i: nat, lo: nat, hi: nat)
      requires i < |blocks| && lo <= hi <= |links| && blocks[i].prev == EMPTY
      modifies this`blocks
      ensures blocks == old(blocks)[i := old(blocks)[i].(prev := PrevSlice(lo, hi))]
      ensures NextSlices(blocks, |blocks|) == NextSlices(old(blocks), |blocks|)
    {
      if lo < hi {
        var s := LinkSpan(lo, hi);
        blocks := blocks[i := blocks[i].(prev := s)];
      }
    }

    /** The two inner loops of resolve_prev(): writes the predecessors of block i from linkStart on. */
    method CollectPrev(i: nat, linkStart: nat, ghost nexts: seq<seq<nat>>) returns (linkEnd: nat)
      requires |nexts| == |blocks| && AllHold(links, NextSlices(blocks, |blocks|), nexts, linkStart)
      requires linkStart + |PrevList(nexts, i)| <= |links|
      modifies this`links
      ensures linkEnd == linkStart + |PrevList(nexts, i)|
      ensures SameOutside(old(links), links, linkStart, linkEnd)
      ensures Holds(links, Slice(linkStart, linkEnd), PrevList(nexts, i))
    {
      linkEnd := linkStart;
      ghost var slices := NextSlices(blocks, |blocks|);
      ghost var done: seq<nat> := [];
      assert nexts[..0] == [];
      for f := 0 to |blocks|
        invariant linkEnd == linkStart + |done| <= |links| && done == PrevList(nexts[..f], i)
        invariant SameOutside(old(links), links, linkStart, linkEnd)
        invariant Holds(links, Slice(linkStart, linkEnd), done)
      {
        PrevListGrows(nexts, i, f);
        StillHold(old(links), links, slices, nexts, linkStart, linkStart, linkEnd);
        assert slices[f] == blocks[f].next;
        if i in nexts[f] {
          HoldsAppend(links, links[linkEnd := Some(f)], linkStart, linkEnd, done, f);
          done := done + [f];
        }
        linkEnd := AddIfJumps(f, i, linkEnd, nexts[f]);
      }
      assert nexts[..|blocks|] == nexts;
    }

    method AddIfJumps(from: nat, to: nat, linkEnd: nat, ghost list: seq<nat>) returns (end: nat)
      requires from < |blocks| && Holds(links, blocks[from].next, list) && (to in list ==> linkEnd < |links|)
      modifies this`links
      ensures end == linkEnd + if to in list then 1 else 0
      ensures links == if to in list then old(links)[linkEnd := Some(from)] else old(links)
    {
      end := linkEnd;
      var found := JumpsFrom(from, to, list);
      if found {
        SetLink(linkEnd, from);
        end := linkEnd + 1;
      }
    }

    /** The innermost loop: whether block `to` is among the successors of block `from`. */
    method JumpsFrom(from: nat, to: nat, ghost list: seq<nat>) returns (found: bool)
      requires from < |blocks| && Holds(links, blocks[from].next, list)
      ensures found <==> to in list
    {
      var s := blocks[from].next;
      var k := s.lo;
      while k < s.hi && links[k] != Some(to)
        invariant s.lo <= k <= s.hi
        invariant forall j :: s.lo <= j < k ==> links[j] != Some(to)
      {
        k := k + 1;
      }
      FoundIn(links, s, list, to, k);
      found := k < s.hi;
    }
  }

  // ---------------------------------------------------------------- helpers of the class

  /** The block that a jump goes to. */
  function TargetOf(p: seq<Instr>, bs: seq<Bounds>, i: Instr): (r: seq<nat>)
    requires InCode(p, bs)
  {
    var l := JumpLabel(i);
    if l.Some? && LabelBlock(p, bs, l.value).Some? then [LabelBlock(p, bs, l.value).value] else []
  }

  lemma NextParts(p: seq<Instr>, bs: seq<Bounds>, b: nat)
    requires b < |bs| && InCode(p, bs)
    ensures NextList(p, bs, b) == FallsInto(p, bs, b) + TargetOf(p, bs, p[bs[b].end - 1])
  {
  }

  lemma NoLabelsAfter(p: seq<Instr>, b: Bounds, j: nat)
    requires WellFormed(p, b) && b.start <= j <= b.end && (j < b.end ==> !p[j].LabelI?)
    ensures forall l: nat :: LabelI(l) in p[b.start..b.end] <==> LabelI(l) in p[b.start..j]
  {
    var rest := p[j..b.end];
    assert p[b.start..b.end] == p[b.start..j] + rest;
    forall k | 0 <= k < |rest| ensures !rest[k].LabelI? {
      StaysBody(p, b, j, j + k);
    }
  }

  lemma {:induction false} StaysBody(p: seq<Instr>, b: Bounds, j: nat, k: nat)
    requires WellFormed(p, b) && b.start <= j <= k < b.end && !p[j].LabelI?
    ensures !p[k].LabelI?
  {
    if k > j {
      StaysBody(p, b, j, k - 1);
    }
  }

  lemma TableMore(p: seq<Instr>, bs: seq<Bounds>, before: Links, links: Links, n: nat, b: nat)
    requires InCode(p, bs) && b < |bs| && InCode(p, bs[..b]) && Table(p, bs[..b], before, n) && |links| == |before|
    requires forall l: nat :: l < n ==>
      links[l] == if LabelI(l) in p[bs[b].start..bs[b].end] then Some(b) else before[l]
    ensures InCode(p, bs[..b + 1]) && Table(p, bs[..b + 1], links, n)
  {
    assert bs[..b + 1][..b] == bs[..b];
  }

  lemma PrevListGrows(nexts: seq<seq<nat>>, b: nat, f: nat)
    requires f < |nexts|
    ensures PrevList(nexts[..f + 1], b) == PrevList(nexts[..f], b) + (if b in nexts[f] then [f] else [])
    ensures |PrevList(nexts[..f + 1], b)| <= |PrevList(nexts, b)|
  {
    assert nexts[..f + 1][..f] == nexts[..f];
    PrevListPrefix(nexts, b, f + 1);
  }

  lemma {:induction false} PrevListPrefix(nexts: seq<seq<nat>>, b: nat, f: nat)
    requires f <= |nexts|
    ensures |PrevList(nexts[..f], b)| <= |PrevList(nexts, b)|
    decreases |nexts|
  {
    if f < |nexts| {
      PrevListPrefix(nexts[..|nexts| - 1], b, f);
      assert nexts[..|nexts| - 1][..f] == nexts[..f];
    } else {
      assert nexts[..f] == nexts;
    }
  }

  lemma FoundIn(links: Links, s: Slice, list: seq<nat>, b: nat, k: nat)
    requires Holds(links, s, list) && s.lo <= k <= s.hi
    requires forall j :: s.lo <= j < k ==> links[j] != Some(b)
    requires k < s.hi ==> links[k] == Some(b)
    ensures k < s.hi <==> b in list
  {
    if k < s.hi {
      assert list[k - s.lo] == b;
    } else {
      forall j | 0 <= j < |list| ensures list[j] != b {
        assert links[s.lo + j] == Some(list[j]);
      }
    }
  }

  lemma NoSuchLabel(p: seq<Instr>, bs: seq<Bounds>, l: nat, n: nat)
    requires InCode(p, bs) && LabelsBelow(p, n) && l >= n
    ensures LabelBlock(p, bs, l).None?
  {
    forall k | 0 <= k < |bs| ensures LabelI(l) !in p[bs[k].start..bs[k].end] {
      var s := p[bs[k].start..bs[k].end];
      forall j | 0 <= j < |s| ensures s[j] != LabelI(l) {
        assert s[j] == p[bs[k].start + j];
      }
    }
  }
}
