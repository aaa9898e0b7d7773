/** Undirected graphs as square matrices of bits: edges, degrees and their laws. */
module GraphSpec {
  import opened Values
  import opened Imm

  /** The bit of an edge, in row b and column a. */
  predicate Edge(m: seq<bool>, n: nat, a: nat, b: nat) { a < n && b < n && a + b * n < |m| && m[a + b * n] }

  ghost predicate Symmetric(m: seq<bool>, n: nat) { forall a: nat, b: nat :: Edge(m, n, a, b) == Edge(m, n, b, a) }

  function One(b: bool): nat { if b then 1 else 0 }

  /** How many of the first k nodes are neighbours of a. */
  function Neighbours(m: seq<bool>, n: nat, a: nat, k: nat): nat {
    if k == 0 then 0 else Neighbours(m, n, a, k - 1) + One(Edge(m, n, a, k - 1))
  }

  /** A node's own edge counts twice. */
  function Degree(m: seq<bool>, n: nat, a: nat): nat { Neighbours(m, n, a, n) + One(Edge(m, n, a, a)) }

  lemma IndexBound(a: nat, b: nat, n: nat)
    requires a < n && b < n
    ensures 0 <= a + b * n < n * n
  {
    MulMono(0, b, n);
    MulMono(b, n - 1, n);
  }

  lemma IndexInjective(a: nat, b: nat, c: nat, d: nat, n: nat)
    requires a < n && c < n && a + b * n == c + d * n
    ensures a == c && b == d
  {
    assert (b - d) * n == c - a;
    SmallMultiple(b - d, n);
  }

  /** The index that operator() computes in 32 bits. */
  function Index32(a: nat, b: nat, n: nat): nat { (a + b * n) % W32 }

  /** With 65537 nodes the index of the last self-edge is 0x20000, which belongs to another edge. */
  lemma IndexWraps()
    ensures Index32(0x1_0000, 0x1_0000, 0x1_0001) == 0x2_0000 && 0x1_0000 + 0x1_0000 * 0x1_0001 == W32 + 0x2_0000
  {
  }

  /** operator() looks at the bit that set() uses, for every pair of nodes, exactly when there are no more
      than 65536 nodes. */
  lemma IndexExact(n: nat)
    requires n < W32
    ensures (forall a: nat, b: nat {:trigger Index32(a, b, n)} :: b <= a < n ==> Index32(a, b, n) == a + b * n)
      <==> n <= 0x1_0000
  {
    if n <= 0x1_0000 {
      forall a: nat, b: nat {:trigger Index32(a, b, n)} | b <= a < n ensures Index32(a, b, n) == a + b * n {
        SmallIndex(a, b, n);
      }
    } else {
      LargeIndex(n);
    }
  }

  lemma SmallIndex(a: nat, b: nat, n: nat)
    requires a < n && b < n <= 0x1_0000
    ensures Index32(a, b, n) == a + b * n
  {
    IndexBound(a, b, n);
    MulMono(n, 0x1_0000, n);
    SmallMod(a + b * n, W32);
  }

  lemma LargeIndex(n: nat)
    requires n > 0x1_0000
    ensures Index32(n - 1, n - 1, n) != n - 1 + (n - 1) * n
  {
    MulMono(0x1_0000, n - 1, n);
    var i: nat := n - 1 + (n - 1) * n;
    assert i >= W32;
    assert i % W32 < W32;
  }

  /** What operator() answers: one bit of the matrix, at the index in 32 bits. */
  predicate Answer(m: seq<bool>, n: nat, x: nat, y: nat) {
    var (a, b) := if x < y then (y, x) else (x, y);
    a < n && Index32(a, b, n) < |m| && m[Index32(a, b, n)]
  }

  /** operator() tells edges exactly, on every graph of n nodes, exactly when n is at most 65536. */
  lemma AnswerExact(n: nat)
    ensures (forall m: seq<bool>, x: nat, y: nat {:trigger Answer(m, n, x, y)} ::
               |m| == n * n && Symmetric(m, n) ==> Answer(m, n, x, y) == Edge(m, n, x, y))
      <==> n <= 0x1_0000
  {
    if n <= 0x1_0000 {
      forall m: seq<bool>, x: nat, y: nat | |m| == n * n && Symmetric(m, n)
        ensures Answer(m, n, x, y) == Edge(m, n, x, y)
      {
        SmallAnswer(m, n, x, y);
      }
    } else {
      var m := LoopAtLast(n);
      assert Answer(m, n, n - 1, n - 1) != Edge(m, n, n - 1, n - 1);
    }
  }

  lemma SmallAnswer(m: seq<bool>, n: nat, x: nat, y: nat)
    requires |m| == n * n && Symmetric(m, n) && n <= 0x1_0000
    ensures Answer(m, n, x, y) == Edge(m, n, x, y)
  {
    var (a, b) := if x < y then (y, x) else (x, y);
    assert Edge(m, n, a, b) == Edge(m, n, b, a);
    if a < n {
      SmallIndex(a, b, n);
    }
  }

  /** Only the last node has an edge, to itself; operator() looks at another bit. */
  lemma LoopAtLast(n: nat) returns (m: seq<bool>)
    requires n > 0x1_0000
    ensures |m| == n * n && Symmetric(m, n) && Edge(m, n, n - 1, n - 1) && !Answer(m, n, n - 1, n - 1)
  {
    IndexBound(n - 1, n - 1, n);
    var i: nat := n - 1 + (n - 1) * n;
    m := seq(n * n, k => k == i);
    forall a: nat, b: nat ensures Edge(m, n, a, b) == (a == n - 1 && b == n - 1) {
      if a < n && b < n {
        IndexBound(a, b, n);
        SameCell(a, b, n - 1, n - 1, n);
      }
    }
    LargeIndex(n);
  }

  // ---------------------------------------------------------------- one changed edge

  /** m with the edge between a and b set to v. */
  ghost predicate Changed(m: seq<bool>, w: seq<bool>, n: nat, a: nat, b: nat, v: bool) {
    forall x: nat, y: nat {:trigger Edge(w, n, x, y)} :: x < n && y < n ==>
      Edge(w, n, x, y) == if (x == a && y == b) || (x == b && y == a) then v else Edge(m, n, x, y)
  }

  lemma SetBits(m: seq<bool>, n: nat, a: nat, b: nat, v: bool)
    requires |m| == n * n && a < n && b < n
    ensures a + b * n < |m| && b + a * n < |m|
    ensures Changed(m, m[a + b * n := v][b + a * n := v], n, a, b, v)
    ensures a == b ==> m[a + b * n := v][b + a * n := v] == m[a + b * n := v]
  {
    IndexBound(a, b, n);
    IndexBound(b, a, n);
    var w := m[a + b * n := v][b + a * n := v];
    forall x: nat, y: nat | x < n && y < n
      ensures Edge(w, n, x, y) == if (x == a && y == b) || (x == b && y == a) then v else Edge(m, n, x, y)
    {
      SetBitAt(m, w, n, a, b, v, x, y);
    }
  }

  lemma SetBitAt(m: seq<bool>, w: seq<bool>, n: nat, a: nat, b: nat, v: bool, x: nat, y: nat)
    requires a < n && b < n && x < n && y < n && a + b * n < |m| && b + a * n < |m| && |m| == n * n
    requires w == m[a + b * n := v][b + a * n := v]
    ensures Edge(w, n, x, y) == if (x == a && y == b) || (x == b && y == a) then v else Edge(m, n, x, y)
  {
    IndexBound(x, y, n);
    IndexBound(a, b, n);
    IndexBound(b, a, n);
    SameCell(x, y, a, b, n);
    SameCell(x, y, b, a, n);
    CellAfter(m, w, a + b * n, b + a * n, v, x + y * n);
  }

  lemma CellAfter(m: seq<bool>, w: seq<bool>, i: nat, j: nat, v: bool, k: nat)
    requires i < |m| && j < |m| && k < |m| && w == m[i := v][j := v]
    ensures k < |w| && w[k] == if k == i || k == j then v else m[k]
  {
  }

  lemma SameCell(x: nat, y: nat, a: nat, b: nat, n: nat)
    requires x < n && y < n && a < n && b < n
    ensures x + y * n == a + b * n <==> x == a && y == b
  {
    if x + y * n == a + b * n {
      IndexInjective(x, y, a, b, n);
    }
  }

  lemma ChangedSymmetric(m: seq<bool>, w: seq<bool>, n: nat, a: nat, b: nat, v: bool)
    requires Symmetric(m, n) && Changed(m, w, n, a, b, v)
    ensures Symmetric(w, n)
  {
    forall x: nat, y: nat ensures Edge(w, n, x, y) == Edge(w, n, y, x) {
      assert Edge(m, n, x, y) == Edge(m, n, y, x);
    }
  }

  lemma {:induction false} NeighboursSame(m: seq<bool>, w: seq<bool>, n: nat, x: nat, k: nat)
    requires forall y: nat :: y < k ==> Edge(w, n, x, y) == Edge(m, n, x, y)
    ensures Neighbours(w, n, x, k) == Neighbours(m, n, x, k)
  {
    if k > 0 {
      NeighboursSame(m, w, n, x, k - 1);
    }
  }

  lemma {:induction false} NeighboursChanged(m: seq<bool>, w: seq<bool>, n: nat, x: nat, z: nat, k: nat)
    requires z < k && forall y: nat :: y < k && y != z ==> Edge(w, n, x, y) == Edge(m, n, x, y)
    ensures Neighbours(w, n, x, k) + One(Edge(m, n, x, z)) == Neighbours(m, n, x, k) + One(Edge(w, n, x, z))
  {
    if k - 1 == z {
      NeighboursSame(m, w, n, x, z);
    } else {
      NeighboursChanged(m, w, n, x, z, k - 1);
    }
  }

  /** Changing one edge changes the degrees of its ends by one, or that of its one end by two. */
  lemma DegreesChanged(m: seq<bool>, w: seq<bool>, n: nat, a: nat, b: nat, v: bool, x: nat)
    requires a < n && b < n && x < n && Symmetric(m, n) && Changed(m, w, n, a, b, v) && Edge(m, n, a, b) != v
    ensures Degree(w, n, x) == Degree(m, n, x) + Sign(v) * (One(x == a) + One(x == b))
  {
    assert Edge(m, n, a, b) == Edge(m, n, b, a);
    if x == a {
      NeighboursChanged(m, w, n, x, b, n);
    } else if x == b {
      NeighboursChanged(m, w, n, x, a, n);
    } else {
      NeighboursSame(m, w, n, x, n);
    }
  }

  /** The same for all degrees at once, in the order in which set() changes them. */
  lemma AllDegreesChanged(m: seq<bool>, w: seq<bool>, n: nat, a: nat, b: nat, v: bool, d: seq<nat>, e: seq<nat>)
    requires a < n && b < n && Symmetric(m, n) && Changed(m, w, n, a, b, v) && Edge(m, n, a, b) != v
    requires |d| == |e| == n && forall x :: 0 <= x < n ==> d[x] == Degree(m, n, x)
    requires forall x :: 0 <= x < n ==> e[x] == d[x] + Sign(v) * (One(x == a) + One(x == b))
    ensures forall x :: 0 <= x < n ==> e[x] == Degree(w, n, x)
  {
    forall x: nat | x < n ensures e[x] == Degree(w, n, x) {
      DegreesChanged(m, w, n, a, b, v, x);
    }
  }

  function Sign(v: bool): int { if v then 1 else -1 }

  // ---------------------------------------------------------------- empty and full rows

  lemma {:induction false} NoNeighbours(m: seq<bool>, n: nat, a: nat, k: nat)
    ensures Neighbours(m, n, a, k) == 0 <==> forall b: nat :: b < k ==> !Edge(m, n, a, b)
  {
    if k > 0 {
      NoNeighbours(m, n, a, k - 1);
    }
  }

  lemma EmptyGraph(m: seq<bool>, n: nat)
    requires forall i :: 0 <= i < |m| ==> !m[i]
    ensures Symmetric(m, n) && (forall a: nat, b: nat :: !Edge(m, n, a, b))
    ensures forall a: nat :: Degree(m, n, a) == 0
  {
    forall a: nat, b: nat ensures !Edge(m, n, a, b) {
    }
    forall a: nat ensures Degree(m, n, a) == 0 {
      ZeroDegree(m, n, a);
    }
  }

  lemma ZeroDegree(m: seq<bool>, n: nat, a: nat)
    requires forall b: nat :: !Edge(m, n, a, b)
    ensures Degree(m, n, a) == 0
  {
    NoNeighbours(m, n, a, n);
  }

  // ---------------------------------------------------------------- the sum of degrees

  function DegreeSum(m: seq<bool>, n: nat, k: nat): nat {
    if k == 0 then 0 else DegreeSum(m, n, k - 1) + Degree(m, n, k - 1)
  }

  /** Edges among the first k nodes, each pair counted once. */
  function Edges(m: seq<bool>, n: nat, k: nat): nat {
    if k == 0 then 0 else Edges(m, n, k - 1) + Neighbours(m, n, k - 1, k)
  }

  /** The sum of the entries in the first rows and columns. */
  function Square(m: seq<bool>, n: nat, rows: nat, cols: nat): nat {
    if rows == 0 then 0 else Square(m, n, rows - 1, cols) + Neighbours(m, n, rows - 1, cols)
  }

  function Diagonal(m: seq<bool>, n: nat, k: nat): nat {
    if k == 0 then 0 else Diagonal(m, n, k - 1) + One(Edge(m, n, k - 1, k - 1))
  }

  lemma {:induction false} SumIsSquare(m: seq<bool>, n: nat, k: nat)
    ensures DegreeSum(m, n, k) == Square(m, n, k, n) + Diagonal(m, n, k)
  {
    if k > 0 {
      SumIsSquare(m, n, k - 1);
    }
  }

  /** One more column adds the neighbours of its node. */
  lemma {:induction false} ColumnAdded(m: seq<bool>, n: nat, rows: nat, c: nat)
    requires Symmetric(m, n)
    ensures Square(m, n, rows, c + 1) == Square(m, n, rows, c) + Neighbours(m, n, c, rows)
  {
    if rows > 0 {
      ColumnAdded(m, n, rows - 1, c);
      assert Edge(m, n, rows - 1, c) == Edge(m, n, c, rows - 1);
    }
  }

  lemma {:induction false} SquareIsTwice(m: seq<bool>, n: nat, k: nat)
    requires Symmetric(m, n)
    ensures Square(m, n, k, k) + Diagonal(m, n, k) == 2 * Edges(m, n, k)
  {
    if k > 0 {
      SquareIsTwice(m, n, k - 1);
      ColumnAdded(m, n, k - 1, k - 1);
    }
  }

  /** The degrees sum to twice the edges. */
  lemma Handshake(m: seq<bool>, n: nat)
    requires Symmetric(m, n)
    ensures DegreeSum(m, n, n) == 2 * Edges(m, n, n)
  {
    SumIsSquare(m, n, n);
    SquareIsTwice(m, n, n);
  }
}
