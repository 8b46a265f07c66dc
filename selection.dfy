/** Choosing the class of a probability row: the position of its first
    largest value, as `std::max_element` picks it. */
module Selection {
  import opened ForestCommon

  /** The first index holding the maximum of `s`. */
  function FirstArgMax(s: seq<real>): (j: nat)
    requires |s| > 0
    ensures j < |s|
    ensures forall m :: 0 <= m < |s| ==> s[m] <= s[j]
    ensures forall m :: 0 <= m < j ==> s[m] < s[j]
    decreases |s|
  {
    if |s| == 1 then 0
    else
      var j := FirstArgMax(s[..|s| - 1]);
      if s[j] < s[|s| - 1] then |s| - 1 else j
  }

  /** The two properties determine the index: no other position is a first
      maximum. */
  lemma FirstArgMaxUnique(s: seq<real>, j: nat)
    requires j < |s|
    requires forall m :: 0 <= m < |s| ==> s[m] <= s[j]
    requires forall m :: 0 <= m < j ==> s[m] < s[j]
    ensures j == FirstArgMax(s)
  {
  }

  /** Scans row `i` of `a` once, keeping the first largest value seen: a later
      value replaces it only when strictly larger. */
  method MaxElement(a: array2<real>, i: nat) returns (j: nat)
    requires i < a.Length0 && a.Length1 > 0
    ensures j == FirstArgMax(Row(a, i))
  {
    ghost var row := Row(a, i);
    j := 0;
    for c := 1 to a.Length1
      invariant j < c
      invariant j == FirstArgMax(row[..c])
    {
      assert row[..c + 1][..c] == row[..c];
      if a[i, j] < a[i, c] {
        j := c;
      }
    }
    assert row[..a.Length1] == row;
  }
}
