/**
 * The logistics network the program ships with: two terminals, four
 * warehouses and fourteen shops joined by twenty weighted edges. The program
 * builds its capacity matrix and computes the maximum flow from Термінал 2 to
 * Магазин 14. That flow is 10: Магазин 14 has one incoming edge, from
 * Склад 4, of capacity 10, so no flow can exceed 10; and pushing 10 along
 * Термінал 2 → Склад 4 → Магазин 14 is a flow of value 10.
 */
module RepositoryNetwork {
  import opened FlowNetwork
  import opened Cuts
  import opened CapacityModel
  import opened MaxFlowEngine

  /** The edge table, in the order the program lists it. */
  const Edges: seq<Edge> := [
    Edge("Термінал 1", "Склад 1", 25),
    Edge("Термінал 1", "Склад 2", 20),
    Edge("Термінал 1", "Склад 3", 15),
    Edge("Термінал 2", "Склад 3", 15),
    Edge("Термінал 2", "Склад 4", 30),
    Edge("Термінал 2", "Склад 2", 10),
    Edge("Склад 1", "Магазин 1", 15),
    Edge("Склад 1", "Магазин 2", 10),
    Edge("Склад 1", "Магазин 3", 20),
    Edge("Склад 2", "Магазин 4", 15),
    Edge("Склад 2", "Магазин 5", 10),
    Edge("Склад 2", "Магазин 6", 25),
    Edge("Склад 3", "Магазин 7", 20),
    Edge("Склад 3", "Магазин 8", 15),
    Edge("Склад 3", "Магазин 9", 10),
    Edge("Склад 4", "Магазин 10", 20),
    Edge("Склад 4", "Магазин 11", 10),
    Edge("Склад 4", "Магазин 12", 15),
    Edge("Склад 4", "Магазин 13", 5),
    Edge("Склад 4", "Магазин 14", 10)
  ]

  /** In any indexing of the table, the only edge into Магазин 14 is the last one, from Склад 4, of weight 10. */
  lemma SinkColumn(index: map<string, nat>, n: nat)
    requires Indexed(Edges, index) && Injective(index)
    requires forall x :: x in index ==> index[x] < n
    requires "Склад 4" in index && "Магазин 14" in index
    ensures forall u :: 0 <= u < n && u != index["Склад 4"] ==>
      Capacities(Edges, index, n)[u][index["Магазин 14"]] == 0
    ensures Capacities(Edges, index, n)[index["Склад 4"]][index["Магазин 14"]] == 10
  {
    var t := index["Магазин 14"];
    var a := index["Склад 4"];
    assert Edges[19].src == "Склад 4" && Edges[19].dst == "Магазин 14";
    assert forall k :: 0 <= k < |Edges| && Edges[k].dst == "Магазин 14" ==> k == 19;
    forall u | 0 <= u < n && u != a ensures LastWeight(Edges, index, u, t) == 0 {
      forall l | 0 <= l < |Edges| ensures index[Edges[l].src] != u || index[Edges[l].dst] != t {
        if Edges[l].dst == "Магазин 14" {
          assert l == 19;
        }
      }
      CapacityWithoutEdge(Edges, index, u, t);
    }
    CapacityOfEdge(Edges, index, 19);
  }

  /** In any indexing of the table, the arc Термінал 2 → Склад 4 has capacity 30. */
  lemma SourceArc(index: map<string, nat>, n: nat)
    requires Indexed(Edges, index) && Injective(index)
    requires forall x :: x in index ==> index[x] < n
    requires "Термінал 2" in index && "Склад 4" in index
    ensures Capacities(Edges, index, n)[index["Термінал 2"]][index["Склад 4"]] == 30
  {
    assert Edges[4].src == "Термінал 2" && Edges[4].dst == "Склад 4";
    CapacityOfEdge(Edges, index, 4);
  }

  /** When a is the only node with an arc into t, the cut leaving only t outside has capacity C[a][t]. */
  lemma SingleFeederCut(C: Matrix, s: nat, a: nat, t: nat)
    requires IsSquare(C, |C|) && s < |C| && a < |C| && t < |C| && s != t && a != t
    requires forall u :: 0 <= u < |C| && u != a ==> C[u][t] == 0
    ensures IsCut(AllNodes(|C|) - {t}, s, t)
    ensures CutCapacity(C, AllNodes(|C|) - {t}) == C[a][t]
  {
    SinkCutCapacity(C, s, t);
    SingleEntryColumn(C, AllNodes(|C|) - {t}, a, t, |C|);
  }

  /** Pushing d along the two arcs s → a → t, within both capacities, is a flow of value d. */
  lemma TwoArcFlow(C: Matrix, s: nat, a: nat, t: nat, d: int)
    requires IsSquare(C, |C|) && NonNegative(C)
    requires s < |C| && a < |C| && t < |C| && s != a && a != t && s != t
    requires 0 < d <= C[s][a] && d <= C[a][t]
    ensures exists G :: IsFlow(C, G, s, t) && NetOut(G, s) == d
  {
    var Z := Zero(|C|);
    var p: seq<nat> := [s, a, t];
    ZeroIsFlow(C, s, t);
    assert Residual(C, Z, s, a) == C[s][a] && Residual(C, Z, a, t) == C[a][t];
    assert IsAugmentingPath(C, Z, p, s, t);
    assert p[1..] == [a, t];
    assert Bottleneck(C, Z, [a, t]) == C[a][t];
    assert Bottleneck(C, Z, p) == Min(C[s][a], C[a][t]);
    AugmentPreservesFlow(C, Z, p, s, t, d);
  }

  /**
   * In any indexing of the table: the cut that leaves only Магазин 14
   * outside has capacity 10, and some flow from Термінал 2 to Магазин 14
   * has value 10.
   */
  lemma TableBounds(index: map<string, nat>, n: nat)
    requires Indexed(Edges, index) && Injective(index)
    requires forall x :: x in index ==> index[x] < n
    ensures "Термінал 2" in index && "Склад 4" in index && "Магазин 14" in index
    ensures IsCut(AllNodes(n) - {index["Магазин 14"]}, index["Термінал 2"], index["Магазин 14"])
    ensures CutCapacity(Capacities(Edges, index, n), AllNodes(n) - {index["Магазин 14"]}) == 10
    ensures exists G ::
      IsFlow(Capacities(Edges, index, n), G, index["Термінал 2"], index["Магазин 14"]) && NetOut(G, index["Термінал 2"]) == 10
  {
    assert Edges[4].src == "Термінал 2" && Edges[4].dst == "Склад 4" && Edges[19].dst == "Магазин 14";
    var C := Capacities(Edges, index, n);
    var s := index["Термінал 2"];
    var a := index["Склад 4"];
    var t := index["Магазин 14"];
    SinkColumn(index, n);
    SourceArc(index, n);
    SingleFeederCut(C, s, a, t);
    TwoArcFlow(C, s, a, t, 10);
  }

  /**
   * Builds the network from the edge table and runs Edmonds–Karp from
   * Термінал 2 to Магазин 14; the maximum flow is 10.
   */
  method RepositoryMaxFlow() returns (maxFlow: int)
    ensures maxFlow == 10
  {
    var labels, index, cap := BuildNetwork(Edges);
    TableBounds(index, |labels|);
    var source := index["Термінал 2"];
    var sink := index["Магазин 14"];
    ghost var flow, cut;
    maxFlow, flow, cut := EdmondsKarp(cap, source, sink, Capacities(Edges, index, |labels|));
  }
}
