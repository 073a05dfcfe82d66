/**
 * The capacity model: a list of weighted directed edges between labelled
 * nodes becomes a dense node index (0..N-1, in order of first appearance as
 * an endpoint) and an N×N capacity matrix whose cell for (u, v) holds the
 * weight of the edge from u to v, or 0 when there is none. An ordered pair
 * listed twice keeps the weight listed last.
 */
module CapacityModel {
  import opened FlowNetwork

  /** A directed edge with its capacity. */
  datatype Edge = Edge(src: string, dst: string, weight: nat)

  /** The endpoints of the edges in the order they are listed: source, then destination, of each edge. */
  function Endpoints(edges: seq<Edge>): (r: seq<string>)
    ensures |r| == 2 * |edges|
    ensures forall k :: 0 <= k < |edges| ==> r[2 * k] == edges[k].src && r[2 * k + 1] == edges[k].dst
  {
    if edges == [] then []
    else
      var last := edges[|edges| - 1];
      Endpoints(edges[..|edges| - 1]) + [last.src, last.dst]
  }

  /** The elements of s without repetitions, each kept at its first occurrence. */
  function Dedup(s: seq<string>): (r: seq<string>)
    ensures Distinct(r)
    ensures forall x :: x in r <==> x in s
  {
    if s == [] then []
    else
      var d := Dedup(s[..|s| - 1]);
      var x := s[|s| - 1];
      assert forall y :: y in s <==> y in s[..|s| - 1] || y == x;
      if x in d then d else d + [x]
  }

  /** Position of the first occurrence of x in s. */
  function FirstIndex(s: seq<string>, x: string): (r: nat)
    requires x in s
    ensures r < |s| && s[r] == x
    ensures forall k :: 0 <= k < r ==> s[k] != x
  {
    var m := |s| - 1;
    if x in s[..m] then FirstIndex(s[..m], x) else m
  }

  /** The node labels: every endpoint once, in order of first appearance in the edge list. */
  function NodeLabels(edges: seq<Edge>): seq<string> {
    Dedup(Endpoints(edges))
  }

  /** Dedup keeps the order of first occurrences. */
  lemma {:induction false} DedupKeepsFirstOccurrenceOrder(s: seq<string>, i: nat, j: nat)
    requires i < j < |Dedup(s)|
    ensures FirstIndex(s, Dedup(s)[i]) < FirstIndex(s, Dedup(s)[j])
    decreases |s|
  {
    var m := |s| - 1;
    var p := s[..m];
    var d := Dedup(p);
    var x := s[m];
    assert forall y :: y in d ==> y in p && FirstIndex(s, y) == FirstIndex(p, y);
    if x in d {
      DedupKeepsFirstOccurrenceOrder(p, i, j);
    } else if j < |d| {
      DedupKeepsFirstOccurrenceOrder(p, i, j);
    } else {
      assert Dedup(s)[j] == x && x !in p;
      assert Dedup(s)[i] == d[i] && FirstIndex(p, d[i]) < m;
    }
  }

  /** Every endpoint gets a label; labels are distinct and ordered by first appearance. */
  lemma NodeLabelsProperties(edges: seq<Edge>)
    ensures Distinct(NodeLabels(edges))
    ensures forall k :: 0 <= k < |edges| ==>
      edges[k].src in NodeLabels(edges) && edges[k].dst in NodeLabels(edges)
    ensures forall x :: x in NodeLabels(edges) ==> exists k :: 0 <= k < |edges| && (edges[k].src == x || edges[k].dst == x)
    ensures forall i, j :: 0 <= i < j < |NodeLabels(edges)| ==>
      FirstIndex(Endpoints(edges), NodeLabels(edges)[i]) < FirstIndex(Endpoints(edges), NodeLabels(edges)[j])
  {
    var ends := Endpoints(edges);
    forall k | 0 <= k < |edges| ensures edges[k].src in ends && edges[k].dst in ends {
      assert ends[2 * k] == edges[k].src && ends[2 * k + 1] == edges[k].dst;
    }
    forall x | x in NodeLabels(edges) ensures exists k :: 0 <= k < |edges| && (edges[k].src == x || edges[k].dst == x) {
      assert x in ends;
      var a :| 0 <= a < |ends| && ends[a] == x;
      var k := a / 2;
      assert a == 2 * k || a == 2 * k + 1;
      assert ends[2 * k] == edges[k].src && ends[2 * k + 1] == edges[k].dst;
    }
    forall i, j | 0 <= i < j < |NodeLabels(edges)|
      ensures FirstIndex(ends, NodeLabels(edges)[i]) < FirstIndex(ends, NodeLabels(edges)[j])
    {
      DedupKeepsFirstOccurrenceOrder(ends, i, j);
    }
  }

  /** The index map: each label to its position. */
  function IndexMap(labels: seq<string>): (index: map<string, nat>)
    requires Distinct(labels)
    ensures forall x :: x in index <==> x in labels
    ensures forall k :: 0 <= k < |labels| ==> index[labels[k]] == k
  {
    map k | 0 <= k < |labels| :: labels[k] := k
  }

  /** No two labels share an index. */
  ghost predicate Injective(index: map<string, nat>) {
    forall x, y :: x in index && y in index && x != y ==> index[x] != index[y]
  }

  /** The index map is a bijection from the labels onto 0..N-1. */
  lemma IndexMapBijection(labels: seq<string>)
    requires Distinct(labels)
    ensures Injective(IndexMap(labels))
    ensures forall x :: x in IndexMap(labels) ==> IndexMap(labels)[x] < |labels| && labels[IndexMap(labels)[x]] == x
  {
    var index := IndexMap(labels);
    forall x | x in index ensures index[x] < |labels| && labels[index[x]] == x {
      var k :| 0 <= k < |labels| && labels[k] == x;
    }
  }

  /** Both endpoints of every edge have an index. */
  ghost predicate Indexed(edges: seq<Edge>, index: map<string, nat>) {
    forall k :: 0 <= k < |edges| ==> edges[k].src in index && edges[k].dst in index
  }

  lemma IndexedPrefix(edges: seq<Edge>, index: map<string, nat>, k: nat)
    requires Indexed(edges, index) && k <= |edges|
    ensures Indexed(edges[..k], index)
  {
    forall l | 0 <= l < k ensures edges[..k][l].src in index && edges[..k][l].dst in index {
      assert edges[..k][l] == edges[l];
    }
  }

  /** Weight of the last edge listed whose endpoints have indices i and j, or 0 if there is none. */
  function LastWeight(edges: seq<Edge>, index: map<string, nat>, i: nat, j: nat): nat
    requires Indexed(edges, index)
  {
    if edges == [] then 0
    else
      var e := edges[|edges| - 1];
      if index[e.src] == i && index[e.dst] == j then e.weight
      else LastWeight(edges[..|edges| - 1], index, i, j)
  }

  /** The capacity matrix as a value: cell (i, j) holds LastWeight of (i, j). */
  ghost function Capacities(edges: seq<Edge>, index: map<string, nat>, n: nat): (M: Matrix)
    requires Indexed(edges, index)
    ensures IsSquare(M, n) && NonNegative(M)
    ensures forall i, j :: 0 <= i < n && 0 <= j < n ==> M[i][j] == LastWeight(edges, index, i, j)
  {
    seq(n, i requires 0 <= i < n => seq(n, j requires 0 <= j < n => LastWeight(edges, index, i, j)))
  }

  /** The cell of an edge holds the edge's weight unless a later edge joins the same two labels. */
  lemma {:induction false} CapacityOfEdge(edges: seq<Edge>, index: map<string, nat>, k: nat)
    requires Indexed(edges, index) && Injective(index) && k < |edges|
    requires forall l :: k < l < |edges| ==> edges[l].src != edges[k].src || edges[l].dst != edges[k].dst
    ensures LastWeight(edges, index, index[edges[k].src], index[edges[k].dst]) == edges[k].weight
    decreases |edges|
  {
    var m := |edges| - 1;
    if k < m {
      assert edges[..m][k] == edges[k];
      CapacityOfEdge(edges[..m], index, k);
    }
  }

  /** A cell that no edge maps to holds 0. */
  lemma {:induction false} CapacityWithoutEdge(edges: seq<Edge>, index: map<string, nat>, i: nat, j: nat)
    requires Indexed(edges, index)
    requires forall l :: 0 <= l < |edges| ==> index[edges[l].src] != i || index[edges[l].dst] != j
    ensures LastWeight(edges, index, i, j) == 0
    decreases |edges|
  {
    if edges != [] {
      CapacityWithoutEdge(edges[..|edges| - 1], index, i, j);
    }
  }

  /**
   * Fills the capacity matrix: every cell starts at 0, then each edge writes
   * its weight into the cell of its two endpoints' indices.
   */
  method CapacityMatrix(edges: seq<Edge>, index: map<string, nat>, n: nat) returns (cap: array2<int>)
    requires Indexed(edges, index)
    requires forall x :: x in index ==> index[x] < n
    ensures fresh(cap)
    ensures cap.Length0 == n && cap.Length1 == n
    ensures forall i, j :: 0 <= i < n && 0 <= j < n ==> cap[i, j] == LastWeight(edges, index, i, j)
  {
    cap := new int[n, n]((i, j) => 0);
    IndexedPrefix(edges, index, 0);
    for k := 0 to |edges|
      invariant Indexed(edges[..k], index)
      invariant forall i, j :: 0 <= i < n && 0 <= j < n ==> cap[i, j] == LastWeight(edges[..k], index, i, j)
    {
      var e := edges[k];
      var prefix := edges[..k + 1];
      assert prefix[..k] == edges[..k] && prefix[k] == e;
      IndexedPrefix(edges, index, k + 1);
      cap[index[e.src], index[e.dst]] := e.weight;
      forall i, j | 0 <= i < n && 0 <= j < n ensures cap[i, j] == LastWeight(prefix, index, i, j) {
      }
    }
    assert edges[..|edges|] == edges;
  }

  /**
   * Builds the network from the edge list: the labels in order of first
   * appearance, the index map, and the capacity matrix over those indices.
   */
  method BuildNetwork(edges: seq<Edge>) returns (labels: seq<string>, index: map<string, nat>, cap: array2<int>)
    ensures labels == NodeLabels(edges) && Distinct(labels)
    ensures index == IndexMap(labels) && Indexed(edges, index) && Injective(index)
    ensures forall x :: x in index ==> index[x] < |labels|
    ensures fresh(cap)
    ensures cap.Length0 == |labels| && cap.Length1 == |labels|
    ensures forall i, j :: 0 <= i < |labels| && 0 <= j < |labels| ==> cap[i, j] == LastWeight(edges, index, i, j)
    ensures Holds(cap, Capacities(edges, index, |labels|))
  {
    NodeLabelsProperties(edges);
    labels := NodeLabels(edges);
    IndexMapBijection(labels);
    index := IndexMap(labels);
    cap := CapacityMatrix(edges, index, |labels|);
  }
}
