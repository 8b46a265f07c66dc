/** The node-keyed property maps (split tests, node responses) are Dafny
    maps from node id to value; a merge re-keys one map by an id offset. */
module NodeMaps {

  /** `m` with every key moved up by `offset`: the entries a merge inserts.
      Each direction of the characterisation has a single trigger, so that
      the two never feed each other new terms. */
  ghost function ShiftKeys<V>(m: map<nat, V>, offset: nat): (r: map<nat, V>)
    ensures forall j {:trigger j in r} :: j in r <==> j >= offset && j - offset in m
    ensures forall j {:trigger r[j]} :: j in r ==> r[j] == m[j - offset]
    decreases |m|
  {
    if m == map[] then map[]
    else
      var k :| k in m;
      ShiftKeys(m - {k}, offset)[k + offset := m[k]]
  }

  /** Inserting the shifted entry of one more key of `m` extends the shifted
      part of `m` already inserted by exactly that entry. */
  lemma ShiftKeysInsert<V>(m: map<nat, V>, pending: set<nat>, k: nat, offset: nat)
    requires k in m && k in pending
    ensures ShiftKeys(m - (pending - {k}), offset) == ShiftKeys(m - pending, offset)[k + offset := m[k]]
  {
  }

  /** After a merge, a key below the offset keeps the entry it had. */
  lemma MergedLookupLow<V>(m: map<nat, V>, o: map<nat, V>, k: nat, offset: nat)
    requires k in m && k < offset
    ensures k in m + ShiftKeys(o, offset) && (m + ShiftKeys(o, offset))[k] == m[k]
  {
    assert k !in ShiftKeys(o, offset);
  }

  /** After a merge, a shifted key of the other map holds that map's entry. */
  lemma MergedLookupHigh<V>(m: map<nat, V>, o: map<nat, V>, k: nat, offset: nat)
    requires k in o
    ensures k + offset in m + ShiftKeys(o, offset) && (m + ShiftKeys(o, offset))[k + offset] == o[k]
  {
    assert k + offset in ShiftKeys(o, offset);
  }
}
