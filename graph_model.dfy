/**
 * The graph `build_graph` returns, with petgraph's `DiGraph` abstracted to a
 * node sequence and an insertion-ordered edge sequence. Node `v` is the
 * `v`-th node added; an edge names its endpoints by node index and carries
 * its weight in tenths.
 */
module GraphModel {
  import opened Dataprep
  import opened SeqFacts

  datatype Edge = Edge(source: nat, target: nat, weight: nat)

  datatype Graph = Graph(nodes: seq<Book>, edges: seq<Edge>)

  /** Every edge joins two existing nodes. */
  predicate WellFormed(g: Graph)
  {
    forall e | e in g.edges :: e.source < |g.nodes| && e.target < |g.nodes|
  }

  /** The number of edges leaving node `v`: `graph.edges(v).count()` on a directed graph. */
  function OutDegree(edges: seq<Edge>, v: nat): (d: nat)
    ensures d <= |edges|
    ensures d == 0 <==> forall e | e in edges :: e.source != v
  {
    if edges == [] then 0
    else (if edges[0].source == v then 1 else 0) + OutDegree(edges[1..], v)
  }

  /** The out-degree of every node, in node order. */
  function Degrees(g: Graph): (ds: seq<nat>)
    ensures |ds| == |g.nodes|
  {
    seq(|g.nodes|, v requires 0 <= v < |g.nodes| => OutDegree(g.edges, v))
  }

  lemma {:induction false} OutDegreeAppend(a: seq<Edge>, b: seq<Edge>, v: nat)
    ensures OutDegree(a + b, v) == OutDegree(a, v) + OutDegree(b, v)
  {
    if a != [] {
      assert (a + b)[1..] == a[1..] + b;
      OutDegreeAppend(a[1..], b, v);
    } else {
      assert a + b == b;
    }
  }

  /** An out-degree depends only on which edges there are, not on their order. */
  lemma {:induction false} OutDegreePermutation(a: seq<Edge>, b: seq<Edge>, v: nat)
    requires multiset(a) == multiset(b)
    ensures OutDegree(a, v) == OutDegree(b, v)
  {
    if a == [] {
      assert |b| == |multiset(b)| == 0;
    } else {
      var x := a[0];
      var p := PermutationPick(a, b);
      OutDegreePermutation(a[1..], b[..p] + b[p + 1..], v);
      SplitAt(b, p);
      OutDegreeAppend(b[..p], [x] + b[p + 1..], v);
      OutDegreeCons(x, b[p + 1..], v);
      OutDegreeAppend(b[..p], b[p + 1..], v);
    }
  }

  lemma OutDegreeCons(x: Edge, s: seq<Edge>, v: nat)
    ensures OutDegree([x] + s, v) == (if x.source == v then 1 else 0) + OutDegree(s, v)
  {
    assert ([x] + s)[1..] == s;
  }

  /** Graphs whose edge multisets agree have the same out-degree sequence. */
  lemma DegreesPermutation(g1: Graph, g2: Graph)
    requires g1.nodes == g2.nodes && multiset(g1.edges) == multiset(g2.edges)
    ensures Degrees(g1) == Degrees(g2)
  {
    forall v | 0 <= v < |g1.nodes|
      ensures Degrees(g1)[v] == Degrees(g2)[v]
    {
      OutDegreePermutation(g1.edges, g2.edges, v);
    }
  }
}
