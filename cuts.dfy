/**
 * Cuts of a flow network and the max-flow/min-cut argument behind the value
 * that the Edmonds–Karp engine returns: the value of any flow equals the net
 * flow across any cut separating source from sink, so it is bounded by the
 * cut's capacity (weak duality); and when every arc leaving a cut is
 * saturated, the value equals that capacity.
 */
module Cuts {
  import opened FlowNetwork

  /** S separates s from t. */
  ghost predicate IsCut(S: set<nat>, s: nat, t: nat) {
    s in S && t !in S
  }

  /** The nodes 0..n-1. */
  ghost function AllNodes(n: nat): (S: set<nat>)
    ensures forall x: nat :: x in S <==> x < n
  {
    if n == 0 then {} else AllNodes(n - 1) + {n - 1}
  }

  /** Sum of F[u][v] over v < k with v inside S (inside) or outside S (not inside). */
  ghost function RowPart(F: Matrix, u: nat, S: set<nat>, inside: bool, k: nat): int
    requires IsSquare(F, |F|) && u < |F| && k <= |F|
  {
    if k == 0 then 0
    else RowPart(F, u, S, inside, k - 1) + (if (k - 1 in S) == inside then F[u][k - 1] else 0)
  }

  /** Sum of RowPart(F, u, S, inside, k) over the rows u < r that lie in S. */
  ghost function BlockPart(F: Matrix, S: set<nat>, inside: bool, r: nat, k: nat): int
    requires IsSquare(F, |F|) && r <= |F| && k <= |F|
  {
    if r == 0 then 0
    else BlockPart(F, S, inside, r - 1, k) + (if r - 1 in S then RowPart(F, r - 1, S, inside, k) else 0)
  }

  /** Sum of F[u][v] over the rows u < r that lie in S. */
  ghost function ColumnPart(F: Matrix, S: set<nat>, r: nat, v: nat): int
    requires IsSquare(F, |F|) && r <= |F| && v < |F|
  {
    if r == 0 then 0
    else ColumnPart(F, S, r - 1, v) + (if r - 1 in S then F[r - 1][v] else 0)
  }

  /** Sum of the net outflows of the nodes u < r that lie in S. */
  ghost function NetOutPart(F: Matrix, S: set<nat>, r: nat): int
    requires IsSquare(F, |F|) && r <= |F|
  {
    if r == 0 then 0
    else NetOutPart(F, S, r - 1) + (if r - 1 in S then NetOut(F, r - 1) else 0)
  }

  /** Total capacity of the arcs that leave S. */
  ghost function CutCapacity(C: Matrix, S: set<nat>): int
    requires IsSquare(C, |C|)
  {
    BlockPart(C, S, false, |C|, |C|)
  }

  /** Total capacity of the arcs into t from the other nodes. */
  ghost function InCapacity(C: Matrix, t: nat): int
    requires IsSquare(C, |C|) && t < |C|
  {
    ColumnPart(C, AllNodes(|C|) - {t}, |C|, t)
  }

  /** Every positive-residual arc that starts in S ends in S. */
  ghost predicate ClosedUnderResidual(C: Matrix, F: Matrix, S: set<nat>)
    requires Network(C, F)
  {
    forall u: nat, v: nat :: u in S && u < |C| && v < |C| && Residual(C, F, u, v) > 0 ==> v in S
  }

  lemma {:induction false} RowSplit(F: Matrix, u: nat, S: set<nat>, k: nat)
    requires IsSquare(F, |F|) && u < |F| && k <= |F|
    ensures Sum(F[u][..k]) == RowPart(F, u, S, true, k) + RowPart(F, u, S, false, k)
  {
    if k > 0 {
      RowSplit(F, u, S, k - 1);
      assert F[u][..k][..k - 1] == F[u][..k - 1];
    }
  }

  /** The net outflow of S splits into the flow inside S and the flow leaving S. */
  lemma {:induction false} NetOutSplit(F: Matrix, S: set<nat>, r: nat)
    requires IsSquare(F, |F|) && r <= |F|
    ensures NetOutPart(F, S, r) == BlockPart(F, S, true, r, |F|) + BlockPart(F, S, false, r, |F|)
  {
    if r > 0 {
      NetOutSplit(F, S, r - 1);
      RowSplit(F, r - 1, S, |F|);
      assert F[r - 1][..|F|] == F[r - 1];
    }
  }

  lemma {:induction false} BlockColumnStep(F: Matrix, S: set<nat>, r: nat, k: nat)
    requires IsSquare(F, |F|) && r <= |F| && k < |F|
    ensures BlockPart(F, S, true, r, k + 1) ==
      BlockPart(F, S, true, r, k) + (if k in S then ColumnPart(F, S, r, k) else 0)
  {
    if r > 0 {
      BlockColumnStep(F, S, r - 1, k);
    }
  }

  /** Under skew symmetry, the column v restricted to S is the negated row v restricted to S. */
  lemma {:induction false} SkewColumn(F: Matrix, S: set<nat>, r: nat, v: nat)
    requires IsSquare(F, |F|) && SkewSymmetric(F) && r <= |F| && v < |F|
    ensures ColumnPart(F, S, r, v) == -RowPart(F, v, S, true, r)
  {
    if r > 0 {
      SkewColumn(F, S, r - 1, v);
    }
  }

  /** Under skew symmetry, the flow between nodes of S cancels out. */
  lemma {:induction false} InnerFlowCancels(F: Matrix, S: set<nat>, k: nat)
    requires IsSquare(F, |F|) && SkewSymmetric(F) && k <= |F|
    ensures BlockPart(F, S, true, k, k) == 0
  {
    if k > 0 {
      var m := k - 1;
      InnerFlowCancels(F, S, m);
      BlockColumnStep(F, S, m, m);
      SkewColumn(F, S, m, m);
      assert F[m][m] == 0 by {
        assert F[m][m] == -F[m][m];
      }
    }
  }

  /** If every node of S other than s conserves flow, the net outflow of S is that of s. */
  lemma {:induction false} ConservedPart(F: Matrix, S: set<nat>, s: nat, r: nat)
    requires IsSquare(F, |F|) && s < |F| && r <= |F|
    requires forall u :: 0 <= u < |F| && u in S && u != s ==> NetOut(F, u) == 0
    ensures NetOutPart(F, S, r) == if s < r && s in S then NetOut(F, s) else 0
  {
    if r > 0 {
      ConservedPart(F, S, s, r - 1);
    }
  }

  /** The value of a flow equals the net flow carried by the arcs leaving any cut. */
  lemma FlowAcrossCut(C: Matrix, F: Matrix, S: set<nat>, s: nat, t: nat)
    requires IsFlow(C, F, s, t) && s < |C|
    requires s in S && (t !in S || s == t)
    ensures NetOut(F, s) == BlockPart(F, S, false, |C|, |C|)
  {
    ConservedPart(F, S, s, |C|);
    NetOutSplit(F, S, |C|);
    InnerFlowCancels(F, S, |C|);
  }

  lemma {:induction false} RowPartMonotone(A: Matrix, B: Matrix, u: nat, S: set<nat>, k: nat)
    requires IsSquare(A, |A|) && IsSquare(B, |A|) && u < |A| && k <= |A|
    requires forall v :: 0 <= v < |A| && v !in S ==> A[u][v] <= B[u][v]
    ensures RowPart(A, u, S, false, k) <= RowPart(B, u, S, false, k)
  {
    if k > 0 {
      RowPartMonotone(A, B, u, S, k - 1);
    }
  }

  /** Cell-wise smaller on the arcs leaving S gives a smaller total across S. */
  lemma {:induction false} CrossingMonotone(A: Matrix, B: Matrix, S: set<nat>, r: nat)
    requires IsSquare(A, |A|) && IsSquare(B, |A|) && r <= |A|
    requires forall u, v :: 0 <= u < |A| && 0 <= v < |A| && u in S && v !in S ==> A[u][v] <= B[u][v]
    ensures BlockPart(A, S, false, r, |A|) <= BlockPart(B, S, false, r, |A|)
  {
    if r > 0 {
      CrossingMonotone(A, B, S, r - 1);
      if r - 1 in S {
        RowPartMonotone(A, B, r - 1, S, |A|);
      }
    }
  }

  /** Weak duality: no flow is worth more than the capacity of any cut. */
  lemma WeakDuality(C: Matrix, F: Matrix, S: set<nat>, s: nat, t: nat)
    requires IsFlow(C, F, s, t) && s < |C| && IsCut(S, s, t)
    ensures NetOut(F, s) <= CutCapacity(C, S)
  {
    FlowAcrossCut(C, F, S, s, t);
    CrossingMonotone(F, C, S, |C|);
  }

  /**
   * When the positive-residual successors of S stay in S, every arc leaving
   * S is saturated and the flow's value equals the capacity of S: the flow is
   * maximum and S is a minimum cut.
   */
  lemma SaturatedCut(C: Matrix, F: Matrix, S: set<nat>, s: nat, t: nat)
    requires IsFlow(C, F, s, t) && s < |C| && IsCut(S, s, t)
    requires ClosedUnderResidual(C, F, S)
    ensures forall u, v :: 0 <= u < |C| && 0 <= v < |C| && u in S && v !in S ==> F[u][v] == C[u][v]
    ensures NetOut(F, s) == CutCapacity(C, S)
  {
    forall u, v | 0 <= u < |C| && 0 <= v < |C| && u in S && v !in S ensures F[u][v] == C[u][v] {
      assert !(Residual(C, F, u, v) > 0);
    }
    FlowAcrossCut(C, F, S, s, t);
    CrossingMonotone(F, C, S, |C|);
    CrossingMonotone(C, F, S, |C|);
  }

  /**
   * Max-flow/min-cut: a flow together with a cut that holds every
   * positive-residual successor of its members is a maximum flow, the cut is
   * a minimum cut, and the two have the same value.
   */
  lemma MaxFlowMinCut(C: Matrix, F: Matrix, S: set<nat>, s: nat, t: nat)
    requires IsFlow(C, F, s, t) && s < |C| && IsCut(S, s, t)
    requires ClosedUnderResidual(C, F, S)
    ensures NetOut(F, s) == CutCapacity(C, S)
    ensures forall G :: IsFlow(C, G, s, t) ==> NetOut(G, s) <= NetOut(F, s)
    ensures forall T :: IsCut(T, s, t) ==> NetOut(F, s) <= CutCapacity(C, T)
  {
    SaturatedCut(C, F, S, s, t);
    forall G | IsFlow(C, G, s, t) ensures NetOut(G, s) <= NetOut(F, s) {
      WeakDuality(C, G, S, s, t);
    }
    forall T | IsCut(T, s, t) ensures NetOut(F, s) <= CutCapacity(C, T) {
      WeakDuality(C, F, T, s, t);
    }
  }

  lemma {:induction false} NothingOutsideAllNodes(F: Matrix, u: nat, k: nat)
    requires IsSquare(F, |F|) && u < |F| && k <= |F|
    ensures RowPart(F, u, AllNodes(|F|), false, k) == 0
  {
    if k > 0 {
      NothingOutsideAllNodes(F, u, k - 1);
    }
  }

  lemma {:induction false} NothingLeavesAllNodes(F: Matrix, r: nat)
    requires IsSquare(F, |F|) && r <= |F|
    ensures BlockPart(F, AllNodes(|F|), false, r, |F|) == 0
  {
    if r > 0 {
      NothingLeavesAllNodes(F, r - 1);
      NothingOutsideAllNodes(F, r - 1, |F|);
    }
  }

  /** With the source as its own sink, every flow has value 0. */
  lemma SourceIsSinkValue(C: Matrix, F: Matrix, s: nat)
    requires IsFlow(C, F, s, s) && s < |C|
    ensures NetOut(F, s) == 0
  {
    FlowAcrossCut(C, F, AllNodes(|C|), s, s);
    NothingLeavesAllNodes(F, |C|);
  }

  lemma {:induction false} RowLeavingAllButOne(F: Matrix, u: nat, t: nat, k: nat)
    requires IsSquare(F, |F|) && u < |F| && t < |F| && k <= |F|
    ensures RowPart(F, u, AllNodes(|F|) - {t}, false, k) == if t < k then F[u][t] else 0
  {
    if k > 0 {
      RowLeavingAllButOne(F, u, t, k - 1);
    }
  }

  lemma {:induction false} LeavingAllButOne(F: Matrix, t: nat, r: nat)
    requires IsSquare(F, |F|) && t < |F| && r <= |F|
    ensures BlockPart(F, AllNodes(|F|) - {t}, false, r, |F|) == ColumnPart(F, AllNodes(|F|) - {t}, r, t)
  {
    if r > 0 {
      LeavingAllButOne(F, t, r - 1);
      RowLeavingAllButOne(F, r - 1, t, |F|);
    }
  }

  /** The cut that leaves only the sink outside has the sink's incoming capacity. */
  lemma SinkCutCapacity(C: Matrix, s: nat, t: nat)
    requires IsSquare(C, |C|) && s < |C| && t < |C| && s != t
    ensures IsCut(AllNodes(|C|) - {t}, s, t)
    ensures CutCapacity(C, AllNodes(|C|) - {t}) == InCapacity(C, t)
  {
    LeavingAllButOne(C, t, |C|);
  }

  /** A column whose only possibly non-zero cell is in row a sums to that cell. */
  lemma {:induction false} SingleEntryColumn(C: Matrix, S: set<nat>, a: nat, v: nat, r: nat)
    requires IsSquare(C, |C|) && a < |C| && v < |C| && r <= |C|
    requires forall u :: 0 <= u < |C| && u != a ==> C[u][v] == 0
    ensures ColumnPart(C, S, r, v) == if a < r && a in S then C[a][v] else 0
  {
    if r > 0 {
      SingleEntryColumn(C, S, a, v, r - 1);
    }
  }

  /**
   * A closed set that holds the start of a positive-residual path holds the
   * whole path; so when the search ends without the sink, no augmenting path
   * exists.
   */
  lemma {:induction false} ClosedSetHoldsPath(C: Matrix, F: Matrix, S: set<nat>, p: seq<nat>, k: nat)
    requires Network(C, F) && InRange(p, |C|) && PositiveArcs(C, F, p)
    requires ClosedUnderResidual(C, F, S)
    requires |p| >= 1 && p[0] in S && k < |p|
    ensures p[k] in S
  {
    if k > 0 {
      ClosedSetHoldsPath(C, F, S, p, k - 1);
      assert Residual(C, F, p[k - 1], p[k]) > 0;
    }
  }

  lemma NoAugmentingPath(C: Matrix, F: Matrix, S: set<nat>, s: nat, t: nat)
    requires Network(C, F) && ClosedUnderResidual(C, F, S) && IsCut(S, s, t)
    ensures forall p :: !IsAugmentingPath(C, F, p, s, t)
  {
    forall p | IsAugmentingPath(C, F, p, s, t) ensures false {
      ClosedSetHoldsPath(C, F, S, p, |p| - 1);
    }
  }
}
