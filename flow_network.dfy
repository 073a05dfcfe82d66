/**
 * Value-level vocabulary of the Edmonds–Karp engine: square integer matrices
 * (capacities and flows), residual capacity, simple paths, the bottleneck of a
 * path, and the augmentation that pushes the bottleneck along a path and
 * credits the reverse arcs. The imperative engine is proved against these
 * definitions; the lemmas here say why each augmentation keeps a flow a flow.
 */
module FlowNetwork {

  type Matrix = seq<seq<int>>

  /** M has n rows of n cells each. */
  ghost predicate IsSquare(M: Matrix, n: nat) {
    |M| == n && forall i :: 0 <= i < n ==> |M[i]| == n
  }

  /** A capacity matrix C and a flow matrix F over the same n nodes. */
  ghost predicate Network(C: Matrix, F: Matrix) {
    IsSquare(C, |C|) && IsSquare(F, |C|)
  }

  /** A two-dimensional array a holds the square matrix M: the same size and the same cells. */
  ghost predicate Holds(a: array2<int>, M: Matrix)
    reads a
  {
    && IsSquare(M, |M|) && a.Length0 == |M| && a.Length1 == |M|
    && forall i, j :: 0 <= i < |M| && 0 <= j < |M| ==> a[i, j] == M[i][j]
  }

  /** Every entry of p names one of the n nodes. */
  ghost predicate InRange(p: seq<nat>, n: nat) {
    forall i :: 0 <= i < |p| ==> p[i] < n
  }

  ghost predicate NonNegative(C: Matrix)
    requires IsSquare(C, |C|)
  {
    forall i, j :: 0 <= i < |C| && 0 <= j < |C| ==> C[i][j] >= 0
  }

  /** The all-zero n×n matrix: the flow before the first augmentation. */
  ghost function Zero(n: nat): Matrix {
    seq(n, i => seq(n, j => 0))
  }

  function Min(a: int, b: int): int {
    if a <= b then a else b
  }

  /** Sum of a row, peeling the last cell. */
  function Sum(s: seq<int>): int {
    if s == [] then 0 else Sum(s[..|s| - 1]) + s[|s| - 1]
  }

  /** Additional flow that arc (u, v) can still take. */
  ghost function Residual(C: Matrix, F: Matrix, u: nat, v: nat): int
    requires Network(C, F) && u < |C| && v < |C|
  {
    C[u][v] - F[u][v]
  }

  /** Net flow leaving node u: the sum of row u of the flow matrix. */
  ghost function NetOut(F: Matrix, u: nat): int
    requires u < |F|
  {
    Sum(F[u])
  }

  ghost predicate SkewSymmetric(F: Matrix)
    requires IsSquare(F, |F|)
  {
    forall i, j :: 0 <= i < |F| && 0 <= j < |F| ==> F[i][j] == -F[j][i]
  }

  ghost predicate WithinCapacity(C: Matrix, F: Matrix)
    requires Network(C, F)
  {
    forall i, j :: 0 <= i < |C| && 0 <= j < |C| ==> F[i][j] <= C[i][j]
  }

  /** Flow is conserved at every node other than s and t. */
  ghost predicate Conserved(F: Matrix, s: nat, t: nat)
    requires IsSquare(F, |F|)
  {
    forall u :: 0 <= u < |F| && u != s && u != t ==> NetOut(F, u) == 0
  }

  /** F is a flow from s to t in the network with capacities C. */
  ghost predicate IsFlow(C: Matrix, F: Matrix, s: nat, t: nat) {
    && Network(C, F)
    && SkewSymmetric(F)
    && WithinCapacity(C, F)
    && Conserved(F, s, t)
  }

  ghost predicate Distinct<T>(p: seq<T>) {
    forall i, j :: 0 <= i < j < |p| ==> p[i] != p[j]
  }

  /** p walks from s to t over nodes below n and never repeats a node. */
  ghost predicate IsSimplePath(p: seq<nat>, s: nat, t: nat, n: nat) {
    && |p| >= 1
    && p[0] == s
    && p[|p| - 1] == t
    && InRange(p, n)
    && Distinct(p)
  }

  ghost predicate PositiveArcs(C: Matrix, F: Matrix, p: seq<nat>)
    requires Network(C, F) && InRange(p, |C|)
  {
    forall i :: 0 <= i < |p| - 1 ==> Residual(C, F, p[i], p[i + 1]) > 0
  }

  /** A simple path from s to t with at least one arc, every arc of positive residual capacity. */
  ghost predicate IsAugmentingPath(C: Matrix, F: Matrix, p: seq<nat>, s: nat, t: nat) {
    && Network(C, F)
    && IsSimplePath(p, s, t, |C|)
    && |p| >= 2
    && PositiveArcs(C, F, p)
  }

  /** The bottleneck of a path: the residual capacity of its first arc or the bottleneck of the rest, whichever is smaller. */
  ghost function Bottleneck(C: Matrix, F: Matrix, p: seq<nat>): int
    requires Network(C, F) && InRange(p, |C|) && |p| >= 2
    decreases |p|
  {
    if |p| == 2 then Residual(C, F, p[0], p[1])
    else Min(Residual(C, F, p[0], p[1]), Bottleneck(C, F, p[1..]))
  }

  /** The bottleneck is the smallest residual capacity over the arcs of the path: at most each, equal to one. */
  lemma {:induction false} BottleneckIsMinimum(C: Matrix, F: Matrix, p: seq<nat>)
    requires Network(C, F) && InRange(p, |C|) && |p| >= 2
    ensures forall i :: 0 <= i < |p| - 1 ==> Bottleneck(C, F, p) <= Residual(C, F, p[i], p[i + 1])
    ensures exists i :: 0 <= i < |p| - 1 && Bottleneck(C, F, p) == Residual(C, F, p[i], p[i + 1])
    decreases |p|
  {
    if |p| == 2 {
      assert Bottleneck(C, F, p) == Residual(C, F, p[0], p[1]);
    } else {
      var q := p[1..];
      BottleneckIsMinimum(C, F, q);
      assert forall i :: 0 <= i < |q| ==> q[i] == p[i + 1];
      var k :| 0 <= k < |q| - 1 && Bottleneck(C, F, q) == Residual(C, F, q[k], q[k + 1]);
      if Bottleneck(C, F, q) < Residual(C, F, p[0], p[1]) {
        assert Bottleneck(C, F, p) == Residual(C, F, p[k + 1], p[k + 2]);
      } else {
        assert Bottleneck(C, F, p) == Residual(C, F, p[0], p[1]);
      }
    }
  }

  /** A path all of whose arcs have positive residual capacity has a positive bottleneck. */
  lemma {:induction false} PositiveArcsBottleneck(C: Matrix, F: Matrix, p: seq<nat>)
    requires Network(C, F) && InRange(p, |C|) && |p| >= 2 && PositiveArcs(C, F, p)
    ensures Bottleneck(C, F, p) > 0
    decreases |p|
  {
    assert Residual(C, F, p[0], p[1]) > 0;
    if |p| > 2 {
      var q := p[1..];
      assert forall i :: 0 <= i < |q| ==> q[i] == p[i + 1];
      PositiveArcsBottleneck(C, F, q);
    }
  }

  lemma BottleneckPositive(C: Matrix, F: Matrix, p: seq<nat>, s: nat, t: nat)
    requires IsAugmentingPath(C, F, p, s, t)
    ensures Bottleneck(C, F, p) > 0
  {
    PositiveArcsBottleneck(C, F, p);
  }

  /** One arc update: d more flow on (u, v) and d less on (v, u). */
  ghost function Push(F: Matrix, u: nat, v: nat, d: int): (G: Matrix)
    requires IsSquare(F, |F|) && u < |F| && v < |F|
    ensures IsSquare(G, |F|)
  {
    var G := F[u := F[u][v := F[u][v] + d]];
    G[v := G[v][u := G[v][u] - d]]
  }

  /**
   * Pushing d along every arc of p. The arc nearest the start is applied last,
   * which is the order in which the engine walks the path back from the sink.
   */
  ghost function Augment(F: Matrix, p: seq<nat>, d: int): (G: Matrix)
    requires IsSquare(F, |F|) && InRange(p, |F|)
    ensures IsSquare(G, |F|)
    decreases |p|
  {
    if |p| < 2 then F else Push(Augment(F, p[1..], d), p[0], p[1], d)
  }

  /** How many times (i, j) occurs as an arc of p. */
  function ArcCount(p: seq<nat>, i: nat, j: nat): nat
    decreases |p|
  {
    if |p| < 2 then 0
    else (if p[0] == i && p[1] == j then 1 else 0) + ArcCount(p[1..], i, j)
  }

  /** (i, j) is an arc of p exactly when p holds i immediately followed by j somewhere. */
  lemma {:induction false} ArcCountPositive(p: seq<nat>, i: nat, j: nat)
    ensures ArcCount(p, i, j) > 0 <==> exists k :: 0 <= k < |p| - 1 && p[k] == i && p[k + 1] == j
    decreases |p|
  {
    if |p| >= 2 {
      ArcCountPositive(p[1..], i, j);
      if ArcCount(p[1..], i, j) > 0 {
        var k :| 0 <= k < |p[1..]| - 1 && p[1..][k] == i && p[1..][k + 1] == j;
        assert p[k + 1] == i && p[k + 2] == j;
      }
      if exists k :: 0 <= k < |p| - 1 && p[k] == i && p[k + 1] == j {
        var k :| 0 <= k < |p| - 1 && p[k] == i && p[k + 1] == j;
        if k > 0 {
          assert p[1..][k - 1] == i && p[1..][k] == j;
        }
      }
    }
  }

  /** A node that is not on p is the end of no arc of p. */
  lemma {:induction false} ArcCountOffPath(p: seq<nat>, i: nat, j: nat)
    requires i !in p || j !in p
    ensures ArcCount(p, i, j) == 0
    decreases |p|
  {
    if |p| >= 2 {
      assert i !in p[1..] || j !in p[1..];
      ArcCountOffPath(p[1..], i, j);
    }
  }

  /** On a path without repeated nodes every arc occurs once and its reverse does not occur. */
  lemma {:induction false} SimplePathArcs(p: seq<nat>, i: nat, j: nat)
    requires Distinct(p)
    ensures ArcCount(p, i, j) <= 1
    ensures ArcCount(p, i, j) > 0 ==> ArcCount(p, j, i) == 0
    decreases |p|
  {
    if |p| >= 2 {
      var q := p[1..];
      assert Distinct(q) by {
        forall a, b | 0 <= a < b < |q| ensures q[a] != q[b] {
          assert q[a] == p[a + 1] && q[b] == p[b + 1];
        }
      }
      assert p[0] !in q by {
        forall a | 0 <= a < |q| ensures q[a] != p[0] {
          assert q[a] == p[a + 1];
        }
      }
      SimplePathArcs(q, i, j);
      if p[0] == i && p[1] == j {
        ArcCountOffPath(q, i, j);
        ArcCountOffPath(q, j, i);
      } else if p[0] == j && p[1] == i {
        ArcCountOffPath(q, j, i);
        ArcCountOffPath(q, i, j);
      }
    }
  }

  /** d times the number of occurrences of (i, j) in p, split at the first arc. */
  lemma ArcCountTimes(p: seq<nat>, i: nat, j: nat, d: int)
    requires |p| >= 2
    ensures ArcCount(p, i, j) * d == (if p[0] == i && p[1] == j then d else 0) + ArcCount(p[1..], i, j) * d
  {
    var a := if p[0] == i && p[1] == j then 1 else 0;
    assert ArcCount(p, i, j) == a + ArcCount(p[1..], i, j);
    assert (a + ArcCount(p[1..], i, j)) * d == a * d + ArcCount(p[1..], i, j) * d;
  }

  /**
   * What an augmentation does to each cell: every occurrence of (i, j) on
   * the path adds d, every occurrence of (j, i) subtracts d, and a cell
   * that is neither a path arc nor the reverse of one keeps its value.
   */
  lemma {:induction false} AugmentCells(F: Matrix, p: seq<nat>, d: int, i: nat, j: nat)
    requires IsSquare(F, |F|) && InRange(p, |F|) && i < |F| && j < |F|
    ensures Augment(F, p, d)[i][j] == F[i][j] + ArcCount(p, i, j) * d - ArcCount(p, j, i) * d
    decreases |p|
  {
    if |p| >= 2 {
      var q := p[1..];
      AugmentCells(F, q, d, i, j);
      ArcCountTimes(p, i, j, d);
      ArcCountTimes(p, j, i, d);
    }
  }

  /** Changing one cell of a row by e changes the row's sum by e. */
  lemma {:induction false} SumUpdate(a: seq<int>, b: seq<int>, k: nat, e: int)
    requires |a| == |b| && k < |a|
    requires b[k] == a[k] + e
    requires forall j :: 0 <= j < |a| && j != k ==> b[j] == a[j]
    ensures Sum(b) == Sum(a) + e
    decreases |a|
  {
    var m := |a| - 1;
    if k == m {
      assert b[..m] == a[..m];
    } else {
      SumUpdate(a[..m], b[..m], k, e);
    }
  }

  /** A single push moves d of net outflow from v to u. */
  lemma PushNetOut(F: Matrix, u: nat, v: nat, d: int, w: nat)
    requires IsSquare(F, |F|) && u < |F| && v < |F| && w < |F|
    ensures NetOut(Push(F, u, v, d), w) ==
      NetOut(F, w) + (if w == u then d else 0) - (if w == v then d else 0)
  {
    var G := Push(F, u, v, d);
    if w == u && u != v {
      SumUpdate(F[w], G[w], v, d);
    } else if w == v && u != v {
      SumUpdate(F[w], G[w], u, -d);
    } else {
      SumUpdate(F[w], G[w], w, 0);
    }
  }

  /** Augmenting along p adds d to the net outflow of its first node and removes d from its last. */
  lemma {:induction false} AugmentNetOut(F: Matrix, p: seq<nat>, d: int, w: nat)
    requires IsSquare(F, |F|) && InRange(p, |F|) && |p| >= 1 && w < |F|
    ensures NetOut(Augment(F, p, d), w) ==
      NetOut(F, w) + (if w == p[0] then d else 0) - (if w == p[|p| - 1] then d else 0)
    decreases |p|
  {
    if |p| >= 2 {
      AugmentNetOut(F, p[1..], d, w);
      PushNetOut(Augment(F, p[1..], d), p[0], p[1], d, w);
    }
  }

  /** Augmentation keeps the reverse-arc identity F[i][j] == -F[j][i]. */
  lemma AugmentSkew(F: Matrix, p: seq<nat>, d: int)
    requires IsSquare(F, |F|) && InRange(p, |F|) && SkewSymmetric(F)
    ensures SkewSymmetric(Augment(F, p, d))
  {
    forall i, j | 0 <= i < |F| && 0 <= j < |F| ensures Augment(F, p, d)[i][j] == -Augment(F, p, d)[j][i] {
      AugmentCells(F, p, d, i, j);
      AugmentCells(F, p, d, j, i);
    }
  }

  /** One cell of an augmented matrix: a path arc gains d, its reverse loses d, any other cell keeps its value. */
  lemma AugmentCell(F: Matrix, p: seq<nat>, d: int, i: nat, j: nat)
    requires IsSquare(F, |F|) && InRange(p, |F|) && Distinct(p)
    requires i < |F| && j < |F|
    ensures ArcCount(p, i, j) > 0 ==> Augment(F, p, d)[i][j] == F[i][j] + d
    ensures ArcCount(p, j, i) > 0 ==> Augment(F, p, d)[i][j] == F[i][j] - d
    ensures ArcCount(p, i, j) == 0 && ArcCount(p, j, i) == 0 ==> Augment(F, p, d)[i][j] == F[i][j]
  {
    AugmentCells(F, p, d, i, j);
    SimplePathArcs(p, i, j);
    SimplePathArcs(p, j, i);
  }

  /** Pushing at most the bottleneck along a simple path keeps every cell within its capacity. */
  lemma AugmentWithinCapacity(C: Matrix, F: Matrix, p: seq<nat>, d: int)
    requires Network(C, F) && InRange(p, |C|) && Distinct(p) && |p| >= 2
    requires WithinCapacity(C, F)
    requires 0 <= d <= Bottleneck(C, F, p)
    ensures WithinCapacity(C, Augment(F, p, d))
  {
    var G := Augment(F, p, d);
    BottleneckIsMinimum(C, F, p);
    forall i, j | 0 <= i < |C| && 0 <= j < |C| ensures G[i][j] <= C[i][j] {
      AugmentCell(F, p, d, i, j);
      if ArcCount(p, i, j) > 0 {
        ArcCountPositive(p, i, j);
        var k :| 0 <= k < |p| - 1 && p[k] == i && p[k + 1] == j;
        assert d <= Residual(C, F, p[k], p[k + 1]);
      }
    }
  }

  /**
   * One round of Edmonds–Karp: pushing a positive amount no larger than the
   * bottleneck of an augmenting path turns a flow into a flow whose value is
   * larger by exactly that amount.
   */
  lemma AugmentPreservesFlow(C: Matrix, F: Matrix, p: seq<nat>, s: nat, t: nat, d: int)
    requires IsFlow(C, F, s, t)
    requires IsAugmentingPath(C, F, p, s, t)
    requires 0 <= d <= Bottleneck(C, F, p)
    ensures IsFlow(C, Augment(F, p, d), s, t)
    ensures NetOut(Augment(F, p, d), s) == NetOut(F, s) + d
  {
    var G := Augment(F, p, d);
    AugmentSkew(F, p, d);
    AugmentWithinCapacity(C, F, p, d);
    forall u | 0 <= u < |G| && u != s && u != t ensures NetOut(G, u) == 0 {
      AugmentNetOut(F, p, d, u);
    }
    AugmentNetOut(F, p, d, s);
    assert s != t by {
      assert p[0] != p[|p| - 1];
    }
  }

  lemma {:induction false} SumZero(s: seq<int>)
    requires forall i :: 0 <= i < |s| ==> s[i] == 0
    ensures Sum(s) == 0
    decreases |s|
  {
    if s != [] {
      SumZero(s[..|s| - 1]);
    }
  }

  /** The all-zero matrix is a flow of value 0 in any network with non-negative capacities. */
  lemma ZeroIsFlow(C: Matrix, s: nat, t: nat)
    requires IsSquare(C, |C|) && NonNegative(C) && s < |C|
    ensures IsFlow(C, Zero(|C|), s, t)
    ensures NetOut(Zero(|C|), s) == 0
  {
    var Z := Zero(|C|);
    forall u | 0 <= u < |C| ensures NetOut(Z, u) == 0 {
      SumZero(Z[u]);
    }
  }

  lemma {:induction false} SumMonotone(a: seq<int>, b: seq<int>)
    requires |a| == |b|
    requires forall i :: 0 <= i < |a| ==> a[i] <= b[i]
    ensures Sum(a) <= Sum(b)
    decreases |a|
  {
    if a != [] {
      SumMonotone(a[..|a| - 1], b[..|b| - 1]);
    }
  }

  /** The value of a flow never exceeds the total capacity leaving the source. */
  lemma ValueAtMostSourceCapacity(C: Matrix, F: Matrix, s: nat)
    requires Network(C, F) && WithinCapacity(C, F) && s < |C|
    ensures NetOut(F, s) <= Sum(C[s])
  {
    SumMonotone(F[s], C[s]);
  }
}
