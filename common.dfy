/** Error kinds, results and the split-comparison average shared by the
    forest's queries, the row view of a feature matrix, and small facts
    about sequence concatenation used by the proofs. */
module ForestCommon {

  /** The precondition violations the forest reports; each one aborts the
      call before any output is written. */
  datatype Error =
    | ShapeMismatch            // instance counts of features and output differ
    | FeatureWidthMismatch     // feature columns differ from the problem spec
    | OutputWidthMismatch      // output columns differ from the tree or class count
    | TreeIndexOutOfRange      // a requested tree index is not below the root count
    | IncompatibleProblemSpec  // merge of two forests with different problem specs

  datatype Result<T> = Success(value: T) | Failure(error: Error)

  datatype Outcome = Pass | Fail(error: Error)

  /** A quotient as the source computes it in double precision: with no
      instances, 0.0 / 0.0 is not a number. */
  datatype Average = Mean(value: real) | NaN

  /** The average number of split comparisons per instance. */
  function Divide(total: nat, count: nat): (a: Average)
    ensures a.NaN? <==> count == 0
    ensures a.Mean? ==> a.value * (count as real) == total as real
  {
    if count == 0 then NaN else Mean(total as real / count as real)
  }

  /** Row `i` of a matrix: the feature vector of instance `i`. */
  function Row(a: array2<real>, i: nat): (row: seq<real>)
    reads a
    requires i < a.Length0
    ensures |row| == a.Length1
    ensures forall j :: 0 <= j < a.Length1 ==> row[j] == a[i, j]
  {
    seq(a.Length1, j requires 0 <= j < a.Length1 reads a => a[i, j])
  }

  /** All rows of a matrix, one per instance. */
  ghost function Rows(a: array2<real>): (rows: seq<seq<real>>)
    reads a
    ensures |rows| == a.Length0
    ensures forall i :: 0 <= i < a.Length0 ==> rows[i] == Row(a, i)
  {
    seq(a.Length0, i requires 0 <= i < a.Length0 reads a => Row(a, i))
  }

  /** Appending nothing changes nothing. */
  lemma AppendNil<T>(a: seq<T>)
    ensures a + [] == a
  {
  }

  /** Concatenation is associative. */
  lemma AppendAssoc<T>(a: seq<T>, b: seq<T>, c: seq<T>)
    ensures (a + b) + c == a + (b + c)
  {
  }

  /** Appending one element after a concatenation appends it to its second
      part. */
  lemma AppendLast<T>(a: seq<T>, b: seq<T>, x: T)
    ensures (a + b) + [x] == a + (b + [x])
  {
  }
}
