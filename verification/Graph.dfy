/** The class Graph of onestl/graph.cpp: a matrix in a BitSet and the degrees beside it. */
module Graphs {
  import opened Stmts
  import opened BitSets
  import opened GraphSpec

  class Graph {
    var bits: BitSet
    var degree: array<nat>

    ghost predicate Separate()
      reads this, bits
    {
      degree != bits.data
    }

    /** The matrix is square and symmetric, and the degrees are those of the matrix. */
    ghost predicate Valid()
      reads this, bits, bits.data, degree
    {
      && Separate() && bits.Valid() && bits.size == degree.Length * degree.Length
      && Symmetric(bits.Contents(), degree.Length)
      && forall a :: 0 <= a < degree.Length ==> degree[a] == Degree(bits.Contents(), degree.Length, a)
    }

    ghost function Matrix(): seq<bool>
      reads this, bits, bits.data, degree
      requires bits.Valid()
    {
      bits.Contents()
    }

    constructor (n: nat)
      ensures Valid() && fresh(bits) && fresh(bits.data) && fresh(degree) && degree.Length == n
      ensures forall a: nat, b: nat :: !Edge(Matrix(), n, a, b)
    {
      bits := new BitSet(n * n);
      degree := new nat[n](i => 0);
      new;
      EmptyGraph(bits.Contents(), n);
    }

    /** degree(): how many neighbours, a self-edge counting twice; 0 outside. */
    method DegreeOf(a: nat) returns (d: nat)
      requires Valid()
      ensures d == Degree(Matrix(), degree.Length, a)
    {
      if a >= degree.Length {
        ZeroDegree(Matrix(), degree.Length, a);
      }
      d := if a < degree.Length then degree[a] else 0;
    }

    /** operator(): the index is computed in 32 bits. */
    method Connected(x: nat, y: nat) returns (r: bool)
      requires Valid()
      ensures r == Answer(Matrix(), degree.Length, x, y)
      ensures degree.Length <= 0x1_0000 ==> r == Edge(Matrix(), degree.Length, x, y)
    {
      var a, b := x, y;
      if a < b {
        a, b := b, a;
      }
      var n := degree.Length;
      r := false;
      if a < n {
        r := bits.Get(Index32(a, b, n));
      }
      if n <= 0x1_0000 {
        SmallAnswer(Matrix(), n, x, y);
      }
    }

    /** set(): adds or removes an edge, and keeps the degrees. Outside nothing happens. */
    method SetEdge(x: nat, y: nat, value: bool)
      requires Valid()
      modifies bits.data, degree
      ensures Valid() && bits == old(bits) && degree == old(degree)
      ensures Changed(old(Matrix()), Matrix(), degree.Length, x, y, value)
      ensures !(x < degree.Length && y < degree.Length) ==> Matrix() == old(Matrix())
    {
      var a, b := x, y;
      if a < b {
        a, b := b, a;
      }
      var n := degree.Length;
      ghost var m := bits.Contents();
      if a < n {
        IndexBound(a, b, n);
        var prev := bits.Get(a + b * n);
        SetBits(m, n, a, b, value);
        if prev != value {
          ChangeEdge(a, b, value);
        } else {
          assert Edge(m, n, a, b) == Edge(m, n, b, a) == value;
        }
      }
    }

    method ChangeEdge(a: nat, b: nat, value: bool)
      requires Valid() && b <= a < degree.Length && Edge(Matrix(), degree.Length, a, b) != value
      modifies bits.data, degree
      ensures Valid() && Changed(old(Matrix()), Matrix(), degree.Length, a, b, value)
    {
      var n := degree.Length;
      ghost var m := bits.Contents();
      ghost var d := degree[..];
      SetBits(m, n, a, b, value);
      DegreePositive(m, n, a, b, value);
      AddDegree(a, value);
      AddDegree(b, value);
      SetBoth(a, b, value);
      ghost var w := bits.Contents();
      ChangedSymmetric(m, w, n, a, b, value);
      AllDegreesChanged(m, w, n, a, b, value, d, degree[..]);
    }

    method AddDegree(a: nat, value: bool)
      requires a < degree.Length && (!value ==> degree[a] > 0)
      modifies degree
      ensures degree[..] == old(degree[..])[a := old(degree[a]) + if value then 1 else -1]
    {
      degree[a] := if value then degree[a] + 1 else degree[a] - 1;
    }

    /** Both bits of an edge. */
    method SetBoth(a: nat, b: nat, value: bool)
      requires bits.Valid() && bits.size == degree.Length * degree.Length && a < degree.Length && b < degree.Length
      modifies bits.data
      ensures bits.Valid() && a + b * degree.Length < bits.size && b + a * degree.Length < bits.size
      ensures bits.Contents() == old(bits.Contents())[a + b * degree.Length := value][b + a * degree.Length := value]
    {
      var n := degree.Length;
      IndexBound(a, b, n);
      IndexBound(b, a, n);
      bits.Set(a + b * n, value);
      if a != b {
        bits.Set(b + a * n, value);
      }
    }

    /** first_set(): the first neighbour from `first` on. */
    method FirstNeighbour(node: nat, first: nat) returns (r: Option<nat>)
      requires Valid()
      ensures r.Some? ==> first <= r.value < degree.Length && Edge(Matrix(), degree.Length, node, r.value)
      ensures forall b: nat :: first <= b && (r.Some? ==> b < r.value) ==> !Edge(Matrix(), degree.Length, node, b)
    {
      var n := degree.Length;
      ghost var m := Matrix();
      if first >= n || node >= n || degree[node] == 0 {
        NoneThere(m, n, node, first);
        return None;
      }
      var row := node * n;
      IndexBound(n - 1, node, n);
      var found := SearchRow(row + first, row + n);
      RowSearch(m, bits.data[..], n, node, first, found);
      r := match found case None => None case Some(p) => Some(p - row);
    }

    method SearchRow(start: nat, end: nat) returns (r: Option<nat>)
      requires bits.Valid() && end <= bits.size
      ensures IsFirst(bits.data[..], true, start, end, r)
    {
      r := bits.FindBit(true, start, end);
      FindExact(bits.data[..], true, start, end);
    }

    /** remove(): every edge at the node goes, and no other. */
    method Remove(node: nat)
      requires Valid()
      modifies bits.data, degree
      ensures Valid() && bits == old(bits) && degree == old(degree)
      ensures forall a: nat, b: nat :: a < degree.Length && b < degree.Length ==>
        Edge(Matrix(), degree.Length, a, b) == (a != node && b != node && Edge(old(Matrix()), degree.Length, a, b))
    {
      var n := degree.Length;
      var deg := DegreeOf(node);
      var other := 0;
      if node >= n {
        return;
      }
      while deg != 0
        invariant Valid() && bits == old(bits) && degree == old(degree)
        invariant Neighbours(Matrix(), n, node, n) <= deg
        invariant forall b: nat :: b < other ==> !Edge(Matrix(), n, node, b)
        invariant forall a: nat, b: nat :: a != node && b != node ==>
          Edge(Matrix(), n, a, b) == Edge(old(Matrix()), n, a, b)
        decreases deg
      {
        var found := FirstNeighbour(node, other);
        if found.None? {
          break;
        }
        other := found.value;
        ghost var m := Matrix();
        SetEdge(node, other, false);
        NeighboursChanged(m, Matrix(), n, node, other, n);
        OthersKept(m, Matrix(), n, node, other);
        deg := deg - 1;
        other := other + 1;
      }
      NoNeighbours(Matrix(), n, node, n);
      Isolated(Matrix(), n, node);
    }

    /** reset(): n nodes and no edges. */
    method Reset(n: nat)
      requires Valid()
      modifies this, bits, bits.data, degree
      ensures Valid() && bits == old(bits) && degree.Length == n && fresh(degree)
      ensures bits.data == old(bits.data) || fresh(bits.data)
      ensures forall a: nat, b: nat :: !Edge(Matrix(), n, a, b)
    {
      bits.Resize(n * n);
      degree := new nat[n](i => 0);
      bits.Fill(false, 0, n * n);
      EmptyGraph(bits.Contents(), n);
    }

    /** dup(): becomes a copy of the other graph. */
    method Dup(other: Graph)
      requires Valid() && other.Valid()
      requires other != this ==> other.bits != bits && {other.bits.data, other.degree} !! {bits.data, degree}
      modifies this, bits, bits.data, degree
      ensures Valid() && degree.Length == other.degree.Length && Matrix() == other.Matrix()
      ensures other != this ==> other.Matrix() == old(other.Matrix()) && other.degree == old(other.degree)
    {
      if this == other {
        return;
      }
      ghost var m := other.Matrix();
      Reset(other.degree.Length);
      assert other.Valid() && other.Matrix() == m;
      bits.Copy(other.bits);
      assert other.Valid() && other.Matrix() == m;
      CopyDegrees(other.degree);
      assert other.Valid() && other.Matrix() == m;
      forall a | 0 <= a < degree.Length ensures degree[a] == Degree(m, degree.Length, a) {
        assert degree[..][a] == other.degree[..][a];
      }
    }

    method CopyDegrees(src: array<nat>)
      requires src != degree && src.Length == degree.Length
      modifies degree
      ensures degree[..] == src[..]
    {
      for i := 0 to degree.Length
        invariant degree[..i] == src[..i]
      {
        degree[i] := src[i];
        assert degree[..i + 1] == degree[..i] + [degree[i]] && src[..i + 1] == src[..i] + [src[i]];
      }
      assert degree[..degree.Length] == degree[..] && src[..src.Length] == src[..];
    }
  }

  lemma DegreePositive(m: seq<bool>, n: nat, a: nat, b: nat, v: bool)
    requires a < n && b < n && Symmetric(m, n) && Edge(m, n, a, b) != v
    ensures !v ==> Degree(m, n, a) > 0 && Degree(m, n, b) > 0 && (a == b ==> Degree(m, n, a) > 1)
  {
    assert Edge(m, n, a, b) == Edge(m, n, b, a);
    NoNeighbours(m, n, a, n);
    NoNeighbours(m, n, b, n);
  }

  lemma NoneThere(m: seq<bool>, n: nat, node: nat, first: nat)
    requires first >= n || node >= n || Degree(m, n, node) == 0
    ensures forall b: nat :: first <= b ==> !Edge(m, n, node, b)
  {
    if first < n && node < n {
      NoNeighbours(m, n, node, n);
    }
  }

  lemma RowSearch(m: seq<bool>, words: seq<nat>, n: nat, node: nat, first: nat, r: Option<nat>)
    requires |m| == n * n && m == BitsOf(words, |m|) && node < n && first < n && Symmetric(m, n)
    requires IsFirst(words, true, node * n + first, node * n + n, r)
    ensures r.Some? ==> node * n + first <= r.value < node * n + n && Edge(m, n, node, r.value - node * n)
    ensures forall b: nat :: first <= b && (r.Some? ==> b < r.value - node * n) ==> !Edge(m, n, node, b)
  {
    if r.Some? {
      IndexBound(r.value - node * n, node, n);
      assert Edge(m, n, r.value - node * n, node) == Edge(m, n, node, r.value - node * n);
    }
    forall b: nat | first <= b < n && (r.Some? ==> b < r.value - node * n) ensures !Edge(m, n, node, b) {
      IndexBound(b, node, n);
      assert !Bit(words, node * n + b);
      assert Edge(m, n, b, node) == Edge(m, n, node, b);
    }
  }

  lemma OthersKept(m: seq<bool>, w: seq<bool>, n: nat, node: nat, other: nat)
    requires Changed(m, w, n, node, other, false)
    ensures forall a: nat, b: nat :: a != node && b != node ==> Edge(w, n, a, b) == Edge(m, n, a, b)
  {
  }

  lemma Isolated(m: seq<bool>, n: nat, node: nat)
    requires Symmetric(m, n) && forall b: nat :: b < n ==> !Edge(m, n, node, b)
    ensures forall a: nat, b: nat :: Edge(m, n, a, b) ==> a != node && b != node
  {
    forall a: nat, b: nat | Edge(m, n, a, b) ensures a != node && b != node {
      assert Edge(m, n, b, a);
    }
  }
}
