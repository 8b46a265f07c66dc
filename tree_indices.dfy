/** The tree-index argument of the queries is normalised into an ordered
    set, as the source does by building a `std::set` from it; an empty set
    stands for every tree. */
module TreeIndices {

  /** Strictly ascending: sorted and free of duplicates. */
  predicate Increasing(s: seq<nat>)
  {
    forall i, j :: 0 <= i < j < |s| ==> s[i] < s[j]
  }

  /** Every index names one of `count` trees. */
  predicate AllBelow(s: seq<nat>, count: nat)
  {
    forall i :: 0 <= i < |s| ==> s[i] < count
  }

  /** Adds `x` to the ordered set `s`. */
  function Insert(s: seq<nat>, x: nat): (r: seq<nat>)
    requires Increasing(s)
    ensures Increasing(r)
    ensures forall y :: y in r <==> y in s || y == x
    ensures |r| > 0
  {
    if s == [] then [x]
    else if x < s[0] then [x] + s
    else if x == s[0] then s
    else
      var rest := Insert(s[1..], x);
      var r := [s[0]] + rest;
      forall i, j | 0 <= i < j < |r| ensures r[i] < r[j] {
        assert r[j] == rest[j - 1] && rest[j - 1] in rest;
        if rest[j - 1] != x {
          assert rest[j - 1] in s[1..];
          var k :| 1 <= k < |s| && s[k] == rest[j - 1];
          assert s[0] < s[k];
        }
        if i > 0 { assert r[i] == rest[i - 1]; }
      }
      r
  }

  /** The ordered set of the indices in `s`, built by inserting them one by
      one in the order given. */
  function Normalise(s: seq<nat>): (r: seq<nat>)
    ensures Increasing(r)
    ensures forall y :: y in r <==> y in s
    ensures r == [] <==> s == []
  {
    if s == [] then [] else Insert(Normalise(s[..|s| - 1]), s[|s| - 1])
  }

  /** The indices of `count` trees, in order. */
  function AllTrees(count: nat): (r: seq<nat>)
    ensures |r| == count
    ensures forall t :: 0 <= t < count ==> r[t] == t
    ensures forall t: nat :: t in r <==> t < count
  {
    var r := seq(count, t => t);
    assert forall t: nat :: t < count ==> t in r by {
      forall t: nat | t < count ensures t in r { assert r[t] == t; }
    }
    r
  }

  /** The first `count - 1` tree ids, then the last one. */
  lemma AllTreesInit(count: nat)
    requires count > 0
    ensures AllTrees(count)[..count - 1] == AllTrees(count - 1)
    ensures AllTrees(count)[count - 1] == count - 1
  {
  }

  /** The first `count` tree ids are in ascending order. */
  lemma AllTreesIncreasing(count: nat)
    ensures Increasing(AllTrees(count))
  {
  }

  /** The trees a query visits: the ordered set of the requested indices, or
      all `count` trees when none is requested. */
  function Resolve(s: seq<nat>, count: nat): (r: seq<nat>)
    ensures Increasing(r)
    ensures s == [] ==> forall t: nat :: t in r <==> t < count
    ensures s != [] ==> forall t :: t in r <==> t in s
    ensures AllBelow(s, count) ==> AllBelow(r, count)
  {
    var normalised := Normalise(s);
    if normalised == [] then
      AllTrees(count)
    else
      assert AllBelow(s, count) ==> AllBelow(normalised, count) by {
        if AllBelow(s, count) {
          forall i | 0 <= i < |normalised| ensures normalised[i] < count {
            assert normalised[i] in s;
          }
        }
      }
      normalised
  }

  /** Two ordered sets with the same elements are the same sequence. */
  lemma {:induction false} IncreasingUnique(s: seq<nat>, t: seq<nat>)
    requires Increasing(s) && Increasing(t)
    requires forall y :: y in s <==> y in t
    ensures s == t
    decreases |s|
  {
    if s != [] { assert s[0] in t; }
    if t != [] { assert t[0] in s; }
    if s != [] && t != [] {
      var i :| 0 <= i < |s| && s[i] == t[0];
      var j :| 0 <= j < |t| && t[j] == s[0];
      assert s[0] <= s[i] && t[0] <= t[j];
      forall y ensures y in s[1..] <==> y in t[1..] {
        if y in s[1..] { assert y in t && y != t[0]; }
        if y in t[1..] { assert y in s && y != s[0]; }
      }
      IncreasingUnique(s[1..], t[1..]);
    }
  }

  /** The visited trees depend only on which indices are requested, not on
      their order or repetition. */
  lemma ResolveCanonical(s: seq<nat>, t: seq<nat>, count: nat)
    requires forall y :: y in s <==> y in t
    ensures Resolve(s, count) == Resolve(t, count)
  {
    IncreasingUnique(Normalise(s), Normalise(t));
  }

  /** Resolving an already resolved tree set changes nothing; this is why the
      source may hand its resolved set to the leaf-id query, which resolves
      it again. */
  lemma ResolveIdempotent(s: seq<nat>, count: nat)
    ensures Resolve(Resolve(s, count), count) == Resolve(s, count)
  {
    var r := Resolve(s, count);
    IncreasingUnique(Normalise(r), r);
  }
}
