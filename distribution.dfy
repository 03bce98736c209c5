/**
 * `analyze_degree_distribution` (src/graph.rs:77-106): how many nodes have
 * each out-degree and what percentage of all nodes that is, kept for the ten
 * largest degree values only.
 */
module Distribution {
  import opened SeqFacts
  import opened GraphModel

  /** How many degree values the result keeps (`take(10)`). */
  const TopDegrees: nat := 10

  /** `(count as f64 / total as f64) * 100.0`, in exact arithmetic. */
  function Percentage(count: nat, total: nat): real
    requires total > 0
  {
    (count as real / total as real) * 100.0
  }

  /**
   * The distribution before truncation (src/graph.rs:82-92) of the degree
   * sequence `ds`: for every degree that occurs, how many nodes have it and
   * their share of all nodes.
   */
  function FullDistribution(ds: seq<nat>): map<nat, (nat, real)>
  {
    map d | d in Elements(ds) :: (Count(ds, d), Percentage(Count(ds, d), |ds|))
  }

  lemma {:induction false} Largest(keys: set<nat>) returns (m: nat)
    requires keys != {}
    ensures m in keys && forall k | k in keys :: k <= m
  {
    var x :| x in keys;
    if keys == {x} {
      m := x;
    } else {
      var r := Largest(keys - {x});
      m := if x > r then x else r;
      forall k | k in keys
        ensures k <= m
      {
        if k != x {
          assert k in keys - {x};
        }
      }
    }
  }

  lemma MaxExists(keys: set<nat>)
    requires keys != {}
    ensures exists m :: m in keys && forall k | k in keys :: k <= m
  {
    var m := Largest(keys);
  }

  /** The largest element of a non-empty set. */
  function MaxKey(keys: set<nat>): (m: nat)
    requires keys != {}
    ensures m in keys && forall k | k in keys :: k <= m
  {
    MaxExists(keys);
    var m :| m in keys && forall k | k in keys :: k <= m;
    m
  }

  /**
   * The elements of `keys`, largest first: the order
   * `sort_by(|a, b| b.0.cmp(a.0))` puts the distinct degree values in.
   */
  function SortedKeys(keys: set<nat>): (r: seq<nat>)
    ensures forall i, j | 0 <= i < j < |r| :: r[i] > r[j]
    ensures forall k :: k in r <==> k in keys
    decreases |keys|
  {
    if keys == {} then []
    else
      var m := MaxKey(keys);
      var rest := SortedKeys(keys - {m});
      assert forall j | 0 <= j < |rest| :: rest[j] < m by {
        forall j | 0 <= j < |rest|
          ensures rest[j] < m
        {
          assert rest[j] in keys - {m};
        }
      }
      [m] + rest
  }

  /** The first `TopDegrees` entries of `s`, or all of them. */
  function TakeTop(s: seq<nat>): seq<nat>
  {
    s[..if |s| < TopDegrees then |s| else TopDegrees]
  }

  /** The returned map: the entries of the ten largest degree values (src/graph.rs:94-105). */
  function TopDistribution(ds: seq<nat>): map<nat, (nat, real)>
  {
    var full := FullDistribution(ds);
    var top := TakeTop(SortedKeys(full.Keys));
    map d | d in top && d in full :: full[d]
  }

  /** `counts` says how often each value occurs in `s`, and has no other keys. */
  predicate IsTally(counts: map<nat, nat>, s: seq<nat>)
  {
    counts.Keys == Elements(s) && forall d | d in counts :: counts[d] == Count(s, d)
  }

  /**
   * The model of `analyze_degree_distribution`: a tally over the nodes, a
   * second map with counts and percentages built by walking the tally in
   * whatever order the map yields its entries, and the top ten of that.
   */
  method AnalyzeDegreeDistribution(g: Graph) returns (dist: map<nat, (nat, real)>)
    ensures dist == TopDistribution(Degrees(g))
  {
    var degreeCounts := TallyDegrees(g);
    var degreeDistribution := AddPercentages(degreeCounts, |g.nodes|);
    TallyDistribution(Degrees(g), degreeCounts, degreeDistribution);
    var sortedDegrees := SortedKeys(degreeDistribution.Keys);
    var top := TakeTop(sortedDegrees);
    dist := map d | d in top && d in degreeDistribution :: degreeDistribution[d];
  }

  /** The first loop (src/graph.rs:82-85): how many nodes have each out-degree. */
  method TallyDegrees(g: Graph) returns (degreeCounts: map<nat, nat>)
    ensures IsTally(degreeCounts, Degrees(g))
  {
    ghost var ds := Degrees(g);
    degreeCounts := map[];
    var v := 0;
    while v < |g.nodes|
      invariant 0 <= v <= |g.nodes|
      invariant IsTally(degreeCounts, ds[..v])
    {
      var degree := OutDegree(g.edges, v);
      TallyStep(ds, v, degreeCounts);
      degreeCounts := degreeCounts[degree := (if degree in degreeCounts then degreeCounts[degree] else 0) + 1];
      v := v + 1;
    }
    assert ds[..v] == ds;
  }

  /**
   * The second loop (src/graph.rs:87-92): every tallied degree with its count
   * and that count's share of `total`, visited in any order.
   */
  method AddPercentages(degreeCounts: map<nat, nat>, total: nat) returns (degreeDistribution: map<nat, (nat, real)>)
    requires degreeCounts != map[] ==> total > 0
    ensures degreeDistribution.Keys == degreeCounts.Keys
    ensures forall d | d in degreeDistribution :: degreeDistribution[d] == (degreeCounts[d], Percentage(degreeCounts[d], total))
  {
    degreeDistribution := map[];
    var remaining := degreeCounts.Keys;
    while remaining != {}
      invariant remaining <= degreeCounts.Keys
      invariant degreeDistribution.Keys == degreeCounts.Keys - remaining
      invariant forall d | d in degreeDistribution :: degreeDistribution[d] == (degreeCounts[d], Percentage(degreeCounts[d], total))
      decreases |remaining|
    {
      var degree :| degree in remaining;
      var count := degreeCounts[degree];
      var percentage := Percentage(count, total);
      degreeDistribution := degreeDistribution[degree := (count, percentage)];
      remaining := remaining - {degree};
    }
  }

  /** Counting the degree of node `v` extends the tally from the first `v` nodes to the first `v + 1`. */
  lemma TallyStep(ds: seq<nat>, v: nat, counts: map<nat, nat>)
    requires v < |ds| && IsTally(counts, ds[..v])
    ensures IsTally(counts[ds[v] := (if ds[v] in counts then counts[ds[v]] else 0) + 1], ds[..v + 1])
  {
    assert ds[..v + 1] == ds[..v] + [ds[v]];
    forall d
      ensures Count(ds[..v + 1], d) == Count(ds[..v], d) + (if d == ds[v] then 1 else 0)
    {
      CountAppend(ds[..v], [ds[v]], d);
    }
    CountBounds(ds[..v], ds[v]);
  }

  /** A complete tally with its percentages is the full distribution. */
  lemma TallyDistribution(ds: seq<nat>, counts: map<nat, nat>, dist: map<nat, (nat, real)>)
    requires IsTally(counts, ds) && dist.Keys == counts.Keys
    requires |ds| > 0 ==> forall d | d in dist :: dist[d] == (counts[d], Percentage(counts[d], |ds|))
    ensures dist == FullDistribution(ds)
  {
  }

  /**
   * The full distribution has an entry for exactly the degrees that occur,
   * with a positive count, and a non-empty graph has a non-empty distribution.
   */
  lemma FullDistributionCorrect(ds: seq<nat>)
    ensures forall d :: d in FullDistribution(ds) <==> d in ds
    ensures forall d | d in FullDistribution(ds) :: FullDistribution(ds)[d].0 == Count(ds, d) > 0
    ensures |ds| > 0 ==> |FullDistribution(ds)| > 0
  {
    forall d | d in ds
      ensures Count(ds, d) > 0
    {
      CountBounds(ds, d);
    }
    if |ds| > 0 {
      assert ds[0] in FullDistribution(ds);
    }
  }

  /**
   * The result keeps the entries of the ten largest degree values: at most
   * ten entries, fewer only when fewer degrees occur, each as in the full
   * distribution, and every degree left out is smaller than every one kept.
   */
  lemma TopDistributionCorrect(ds: seq<nat>)
    ensures forall d | d in TopDistribution(ds) :: d in FullDistribution(ds) && TopDistribution(ds)[d] == FullDistribution(ds)[d]
    ensures |TopDistribution(ds)| == if |FullDistribution(ds)| < TopDegrees then |FullDistribution(ds)| else TopDegrees
    ensures forall d, d' | d in TopDistribution(ds) && d' in FullDistribution(ds) && d' !in TopDistribution(ds) :: d' < d
  {
    TopSize(ds);
    TopBeatsRest(ds);
  }

  lemma TopSize(ds: seq<nat>)
    ensures |TopDistribution(ds)| == if |FullDistribution(ds)| < TopDegrees then |FullDistribution(ds)| else TopDegrees
  {
    var full := FullDistribution(ds);
    var sorted := SortedKeys(full.Keys);
    var top := TakeTop(sorted);
    TopKeys(ds);
    DescendingCard(sorted);
    DescendingCard(top);
    assert |full| == |full.Keys| == |sorted|;
    assert |TopDistribution(ds)| == |TopDistribution(ds).Keys| == |top|;
  }

  lemma TopBeatsRest(ds: seq<nat>)
    ensures forall d, d' | d in TopDistribution(ds) && d' in FullDistribution(ds) && d' !in TopDistribution(ds) :: d' < d
  {
    var full := FullDistribution(ds);
    var sorted := SortedKeys(full.Keys);
    var k := |TakeTop(sorted)|;
    TopKeys(ds);
    PrefixBeats(sorted, k);
    assert sorted == sorted[..k] + sorted[k..];
  }

  /** In a strictly decreasing sequence every element of a prefix beats every element after it. */
  lemma PrefixBeats(s: seq<nat>, k: nat)
    requires forall i, j | 0 <= i < j < |s| :: s[i] > s[j]
    requires k <= |s|
    ensures forall x, y | x in s[..k] && y in s[k..] :: y < x
  {
    forall x, y | x in s[..k] && y in s[k..]
      ensures y < x
    {
      var i :| 0 <= i < k && s[..k][i] == x;
      var j :| 0 <= j < |s| - k && s[k..][j] == y;
      assert s[i] == x && s[k + j] == y;
    }
  }

  /** The keys of the result are the first ten sorted degrees. */
  lemma TopKeys(ds: seq<nat>)
    ensures Elements(SortedKeys(FullDistribution(ds).Keys)) == FullDistribution(ds).Keys
    ensures TopDistribution(ds).Keys == Elements(TakeTop(SortedKeys(FullDistribution(ds).Keys)))
  {
    var sorted := SortedKeys(FullDistribution(ds).Keys);
    forall d | d in TakeTop(sorted)
      ensures d in sorted
    {
      var i :| 0 <= i < |TakeTop(sorted)| && TakeTop(sorted)[i] == d;
      assert sorted[i] == d;
    }
  }

  /** A strictly decreasing sequence has as many distinct elements as it is long. */
  lemma DescendingCard(s: seq<nat>)
    requires forall i, j | 0 <= i < j < |s| :: s[i] > s[j]
    ensures |Elements(s)| == |s|
  {
    DescendingDistinct(s);
    DistinctCard(s);
  }

  /** A strictly decreasing sequence has no repetitions. */
  lemma {:induction false} DescendingDistinct(s: seq<nat>)
    requires forall i, j | 0 <= i < j < |s| :: s[i] > s[j]
    ensures Distinct(s)
  {
    if s != [] {
      DescendingDistinct(s[1..]);
    }
  }

  /** The counts, added up over the entries in any iteration order. */
  function SumCounts(dist: map<nat, (nat, real)>, keys: seq<nat>): nat
    requires forall k | k in keys :: k in dist
  {
    if keys == [] then 0 else dist[keys[0]].0 + SumCounts(dist, keys[1..])
  }

  /** The percentages, added up over the entries in any iteration order. */
  function SumPercentages(dist: map<nat, (nat, real)>, keys: seq<nat>): real
    requires forall k | k in keys :: k in dist
  {
    if keys == [] then 0.0 else dist[keys[0]].1 + SumPercentages(dist, keys[1..])
  }

  /** How many elements of `s` lie in `keys`. */
  function CountIn(s: seq<nat>, keys: set<nat>): nat
  {
    if s == [] then 0 else (if s[0] in keys then 1 else 0) + CountIn(s[1..], keys)
  }

  lemma {:induction false} CountInAdd(s: seq<nat>, keys: set<nat>, k: nat)
    requires k !in keys
    ensures CountIn(s, keys + {k}) == CountIn(s, keys) + Count(s, k)
  {
    if s != [] {
      CountInAdd(s[1..], keys, k);
    }
  }

  lemma {:induction false} CountInNone(s: seq<nat>)
    ensures CountIn(s, {}) == 0
  {
    if s != [] {
      CountInNone(s[1..]);
    }
  }

  lemma {:induction false} CountInAll(s: seq<nat>, keys: set<nat>)
    requires forall i | 0 <= i < |s| :: s[i] in keys
    ensures CountIn(s, keys) == |s|
  {
    if s != [] {
      CountInAll(s[1..], keys);
    }
  }

  lemma {:induction false} SumCountsIn(ds: seq<nat>, keys: seq<nat>)
    requires Distinct(keys) && forall k | k in keys :: k in FullDistribution(ds)
    ensures SumCounts(FullDistribution(ds), keys) == CountIn(ds, Elements(keys))
  {
    if keys != [] {
      var full := FullDistribution(ds);
      SumCountsIn(ds, keys[1..]);
      assert SumCounts(full, keys) == full[keys[0]].0 + SumCounts(full, keys[1..]);
      assert full[keys[0]].0 == Count(ds, keys[0]);
      assert Elements(keys) == Elements(keys[1..]) + {keys[0]};
      CountInAdd(ds, Elements(keys[1..]), keys[0]);
    } else {
      assert Elements(keys) == {};
      CountInNone(ds);
    }
  }

  lemma {:induction false} SumPercentagesScaled(ds: seq<nat>, keys: seq<nat>)
    requires |ds| > 0 && forall k | k in keys :: k in FullDistribution(ds)
    ensures SumPercentages(FullDistribution(ds), keys) == SumCounts(FullDistribution(ds), keys) as real * 100.0 / |ds| as real
  {
    if keys != [] {
      SumPercentagesScaled(ds, keys[1..]);
      var full := FullDistribution(ds);
      ShareAdd(full[keys[0]].0 as real, SumCounts(full, keys[1..]) as real, |ds| as real);
    }
  }

  lemma ShareAdd(c: real, rest: real, n: real)
    requires n > 0.0
    ensures (c / n) * 100.0 + rest * 100.0 / n == (c + rest) * 100.0 / n
  {
  }

  lemma WholeShare(n: real)
    requires n > 0.0
    ensures n * 100.0 / n == 100.0
  {
  }

  /**
   * Before truncation the counts add up to the number of nodes and the
   * percentages to 100, whichever order the map is walked in.
   */
  lemma FullDistributionSums(ds: seq<nat>, keys: seq<nat>)
    requires Distinct(keys) && forall k :: k in keys <==> k in FullDistribution(ds)
    ensures SumCounts(FullDistribution(ds), keys) == |ds|
    ensures |ds| > 0 ==> SumPercentages(FullDistribution(ds), keys) == 100.0
  {
    SumCountsIn(ds, keys);
    forall i | 0 <= i < |ds|
      ensures ds[i] in Elements(keys)
    {
      assert ds[i] in FullDistribution(ds);
    }
    CountInAll(ds, Elements(keys));
    if |ds| > 0 {
      SumPercentagesScaled(ds, keys);
      WholeShare(|ds| as real);
    }
  }
}
