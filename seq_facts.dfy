/** Small facts about sequences and multisets shared by the proofs. */
module SeqFacts {

  /** No value occurs twice in `s`. */
  predicate Distinct<T(==)>(s: seq<T>)
  {
    s == [] || (s[0] !in s[1..] && Distinct(s[1..]))
  }

  /** A sequence without repetitions holds each of its elements once. */
  lemma {:induction false} DistinctMultiplicity<T>(s: seq<T>)
    requires Distinct(s)
    ensures forall x :: multiset(s)[x] == if x in s then 1 else 0
  {
    if s != [] {
      DistinctMultiplicity(s[1..]);
      assert s == [s[0]] + s[1..];
    }
  }

  /** A sequence without repetitions drawn from `keys` is no longer than `keys` is large. */
  lemma {:induction false} DistinctLength<T>(s: seq<T>, keys: set<T>)
    requires Distinct(s) && forall j | 0 <= j < |s| :: s[j] in keys
    ensures |s| <= |keys|
  {
    if s != [] {
      assert forall j | 0 <= j < |s[1..]| :: s[1..][j] in keys - {s[0]};
      DistinctLength(s[1..], keys - {s[0]});
    }
  }

  /** The values occurring in `s`. */
  function Elements<T>(s: seq<T>): set<T>
  {
    set x | x in s
  }

  /** A sequence without repetitions has as many distinct elements as it is long. */
  lemma {:induction false} DistinctCard<T>(s: seq<T>)
    requires Distinct(s)
    ensures |Elements(s)| == |s|
  {
    if s != [] {
      DistinctCard(s[1..]);
      assert Elements(s) == {s[0]} + Elements(s[1..]);
    }
  }

  /** A sequence is its prefix, one element and its suffix. */
  lemma SplitAt<T>(s: seq<T>, p: nat)
    requires p < |s|
    ensures s == s[..p] + ([s[p]] + s[p + 1..])
  {
  }

  /** Removing position `p` removes one occurrence of `s[p]` from the multiset. */
  lemma MultisetRemove<T>(s: seq<T>, p: nat)
    requires p < |s|
    ensures multiset(s[..p] + s[p + 1..]) == multiset(s) - multiset{s[p]}
  {
    assert s == s[..p] + [s[p]] + s[p + 1..];
  }

  /**
   * The first element of `a` sits somewhere in any permutation `b` of it, and
   * what remains of the two is again a permutation.
   */
  lemma PermutationPick<T>(a: seq<T>, b: seq<T>) returns (p: nat)
    requires a != [] && multiset(a) == multiset(b)
    ensures p < |b| && b[p] == a[0]
    ensures multiset(a[1..]) == multiset(b[..p] + b[p + 1..])
  {
    var x := a[0];
    assert x in multiset(b) by {
      assert x in multiset(a);
    }
    p :| 0 <= p < |b| && b[p] == x;
    MultisetRemove(b, p);
    MultisetTail(a);
  }

  /** Dropping the first element removes one occurrence of it from the multiset. */
  lemma MultisetTail<T>(a: seq<T>)
    requires a != []
    ensures multiset(a[1..]) == multiset(a) - multiset{a[0]}
  {
    assert a == [a[0]] + a[1..];
  }

  /** The number of occurrences of `x` in `s`. */
  function Count<T(==)>(s: seq<T>, x: T): nat
  {
    if s == [] then 0 else (if s[0] == x then 1 else 0) + Count(s[1..], x)
  }

  /** `x` occurs at most `|s|` times, and at least once exactly when it is an element. */
  lemma {:induction false} CountBounds<T>(s: seq<T>, x: T)
    ensures Count(s, x) <= |s|
    ensures Count(s, x) > 0 <==> x in s
  {
    if s != [] {
      CountBounds(s[1..], x);
      assert s == [s[0]] + s[1..];
    }
  }

  lemma {:induction false} CountAppend<T>(a: seq<T>, b: seq<T>, x: T)
    ensures Count(a + b, x) == Count(a, x) + Count(b, x)
  {
    if a == [] {
      assert a + b == b;
    } else {
      assert (a + b)[1..] == a[1..] + b;
      CountAppend(a[1..], b, x);
    }
  }

  /** Counting occurrences agrees with the multiplicity in the multiset. */
  lemma {:induction false} CountMultiplicity<T>(s: seq<T>, x: T)
    ensures Count(s, x) == multiset(s)[x]
  {
    if s != [] {
      CountMultiplicity(s[1..], x);
      assert s == [s[0]] + s[1..];
    }
  }

  /** Sequences with the same number of occurrences of every value are permutations of each other. */
  lemma SameCounts<T>(a: seq<T>, b: seq<T>)
    requires forall x :: Count(a, x) == Count(b, x)
    ensures multiset(a) == multiset(b)
  {
    forall x
      ensures multiset(a)[x] == multiset(b)[x]
    {
      CountMultiplicity(a, x);
      CountMultiplicity(b, x);
    }
  }

  /** Updating a map adds at most one key. */
  lemma MapUpdateSize<K, V>(m: map<K, V>, k: K, v: V)
    ensures |m[k := v]| <= |m| + 1
  {
    if k in m {
      assert m[k := v].Keys == m.Keys;
    } else {
      assert m[k := v].Keys == m.Keys + {k};
    }
  }
}
