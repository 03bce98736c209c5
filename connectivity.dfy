/**
 * `find_highly_connected_nodes` (src/graph.rs:62-74): every node's title with
 * its out-degree, in node order, stably sorted by degree from largest to
 * smallest, and the first five of that order.
 */
module Connectivity {
  import opened Dataprep
  import opened SeqFacts
  import opened GraphModel

  /** A node's title with its number of outgoing edges. */
  type Entry = (string, nat)

  /** How many entries the ranking lists (`take(5)`). */
  const TopCount: nat := 5

  /** `(title, degree)` for every node, in node-index order (src/graph.rs:63-69). */
  function Connections(g: Graph): (r: seq<Entry>)
    ensures |r| == |g.nodes|
  {
    var ds := Degrees(g);
    seq(|g.nodes|, v requires 0 <= v < |g.nodes| => (g.nodes[v].title, ds[v]))
  }

  /** Degrees never increase along `s`. */
  predicate SortedByDegree(s: seq<Entry>)
  {
    forall i, j | 0 <= i < j < |s| :: s[i].1 >= s[j].1
  }

  /** The entries of `s` whose degree is `d`, in their order in `s`. */
  function WithDegree(s: seq<Entry>, d: nat): seq<Entry>
  {
    if s == [] then []
    else (if s[0].1 == d then [s[0]] else []) + WithDegree(s[1..], d)
  }

  /**
   * Puts `x` in front of the first entry whose degree is not larger than its
   * own: behind every entry that beats it, ahead of every entry it ties with.
   */
  function Insert(x: Entry, s: seq<Entry>): seq<Entry>
  {
    if s == [] || s[0].1 <= x.1 then [x] + s
    else [s[0]] + Insert(x, s[1..])
  }

  /**
   * `sort_by(|a, b| b.1.cmp(&a.1))`: a stable sort by degree, largest first.
   * Insertion of each entry into the sorted rest, where it goes ahead of its
   * ties, keeps the input order among equal degrees as Rust's stable sort does.
   */
  function SortByDegree(s: seq<Entry>): seq<Entry>
  {
    if s == [] then [] else Insert(s[0], SortByDegree(s[1..]))
  }

  lemma {:induction false} InsertPermutes(x: Entry, s: seq<Entry>)
    ensures multiset(Insert(x, s)) == multiset{x} + multiset(s)
  {
    if !(s == [] || s[0].1 <= x.1) {
      InsertPermutes(x, s[1..]);
      assert s == [s[0]] + s[1..];
    }
  }

  lemma {:induction false} InsertSorted(x: Entry, s: seq<Entry>)
    requires SortedByDegree(s)
    ensures SortedByDegree(Insert(x, s))
  {
    if !(s == [] || s[0].1 <= x.1) {
      InsertSorted(x, s[1..]);
      InsertPermutes(x, s[1..]);
      var r := Insert(x, s[1..]);
      forall y | y in r
        ensures s[0].1 >= y.1
      {
        assert y in multiset(r);
        if y != x {
          assert y in multiset(s[1..]);
        }
      }
    }
  }

  /** `x` is placed ahead of the entries it ties with, so each degree class gains `x` at its front. */
  lemma {:induction false} InsertWithDegree(x: Entry, s: seq<Entry>, d: nat)
    ensures WithDegree(Insert(x, s), d) == (if x.1 == d then [x] else []) + WithDegree(s, d)
  {
    if s == [] || s[0].1 <= x.1 {
      WithDegreeCons(x, s, d);
    } else {
      var r := Insert(x, s[1..]);
      InsertWithDegree(x, s[1..], d);
      WithDegreeCons(s[0], r, d);
      WithDegreeCons(s[0], s[1..], d);
      assert s == [s[0]] + s[1..];
      if x.1 == d {
        assert s[0].1 != d;
      }
    }
  }

  lemma WithDegreeCons(x: Entry, s: seq<Entry>, d: nat)
    ensures WithDegree([x] + s, d) == (if x.1 == d then [x] else []) + WithDegree(s, d)
  {
    assert ([x] + s)[1..] == s;
  }

  /**
   * The sort returns a permutation of its input, ordered by degree, that
   * keeps the input order among entries of equal degree.
   */
  lemma {:induction false} SortByDegreeCorrect(s: seq<Entry>)
    ensures multiset(SortByDegree(s)) == multiset(s)
    ensures SortedByDegree(SortByDegree(s))
    ensures forall d :: WithDegree(SortByDegree(s), d) == WithDegree(s, d)
  {
    if s != [] {
      var r := SortByDegree(s[1..]);
      SortByDegreeCorrect(s[1..]);
      InsertPermutes(s[0], r);
      InsertSorted(s[0], r);
      forall d
        ensures WithDegree(SortByDegree(s), d) == WithDegree(s, d)
      {
        InsertWithDegree(s[0], r, d);
      }
      assert s == [s[0]] + s[1..];
    }
  }

  /**
   * The ranking (src/graph.rs:71-73): at most five entries, fewer only when
   * the graph has fewer nodes.
   */
  function TopConnected(g: Graph): (r: seq<Entry>)
    ensures |r| == if |g.nodes| < TopCount then |g.nodes| else TopCount
  {
    var sorted := SortByDegree(Connections(g));
    SortByDegreeCorrect(Connections(g));
    assert |sorted| == |multiset(sorted)| == |Connections(g)|;
    sorted[..if |sorted| < TopCount then |sorted| else TopCount]
  }

  /** The entries the ranking leaves out. */
  function Dropped(g: Graph): seq<Entry>
  {
    var sorted := SortByDegree(Connections(g));
    sorted[if |sorted| < TopCount then |sorted| else TopCount..]
  }

  lemma {:induction false} WithDegreeAppend(a: seq<Entry>, b: seq<Entry>, d: nat)
    ensures WithDegree(a + b, d) == WithDegree(a, d) + WithDegree(b, d)
  {
    if a == [] {
      assert a + b == b;
    } else {
      WithDegreeAppend(a[1..], b, d);
      WithDegreeCons(a[0], a[1..] + b, d);
      WithDegreeCons(a[0], a[1..], d);
      assert a + b == [a[0]] + (a[1..] + b);
      assert a == [a[0]] + a[1..];
    }
  }

  /**
   * What the ranking promises: its entries and the dropped ones together are
   * exactly the nodes' entries; it is ordered by degree; no dropped node has
   * a larger degree than a listed one; and among nodes of equal degree the
   * listed ones are the earliest in node order.
   */
  lemma TopConnectedCorrect(g: Graph)
    ensures multiset(TopConnected(g)) + multiset(Dropped(g)) == multiset(Connections(g))
    ensures SortedByDegree(TopConnected(g))
    ensures forall a, b | a in TopConnected(g) && b in Dropped(g) :: a.1 >= b.1
    ensures forall d :: WithDegree(TopConnected(g), d) <= WithDegree(Connections(g), d)
  {
    var sorted := SortByDegree(Connections(g));
    SortByDegreeCorrect(Connections(g));
    var k := |TopConnected(g)|;
    assert TopConnected(g) == sorted[..k] && Dropped(g) == sorted[k..];
    SplitSorted(sorted, k);
  }

  /** Cutting a sorted sequence leaves two sorted parts, the first beating the second. */
  lemma SplitSorted(s: seq<Entry>, k: nat)
    requires SortedByDegree(s) && k <= |s|
    ensures multiset(s[..k]) + multiset(s[k..]) == multiset(s)
    ensures SortedByDegree(s[..k])
    ensures forall a, b | a in s[..k] && b in s[k..] :: a.1 >= b.1
    ensures forall d :: WithDegree(s[..k], d) <= WithDegree(s, d)
  {
    assert s == s[..k] + s[k..];
    forall d
      ensures WithDegree(s[..k], d) <= WithDegree(s, d)
    {
      WithDegreeAppend(s[..k], s[k..], d);
    }
  }

  /** Graphs with the same nodes and out-degrees have the same ranking. */
  lemma SameDegreesSameRanking(g1: Graph, g2: Graph)
    requires g1.nodes == g2.nodes && Degrees(g1) == Degrees(g2)
    ensures Connections(g1) == Connections(g2)
    ensures TopConnected(g1) == TopConnected(g2)
  {
  }
}
