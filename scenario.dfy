/** The hand-built forest of the base-class test: one tree of depth two over
    two features, threshold tests `x[dim] <= threshold` that send a row to
    the first child, one class index per leaf, and a vote-counting
    accumulator. Predicting the eight test rows gives the test's labels. */
module ForestScenario {
  import opened ForestCommon
  import opened BinaryForest
  import opened TreeIndices
  import opened Traversal
  import opened Responses
  import opened Selection
  import opened RandomForestModel

  /** A threshold test on one feature. */
  datatype SplitTest = LessEqual(dim: nat, threshold: real)

  /** The first child when the feature is at most the threshold, else the
      second. */
  function Test(t: SplitTest, x: seq<real>): (b: Branch)
    ensures t.dim < |x| ==> (b == 0 <==> x[t.dim] <= t.threshold)
  {
    if t.dim < |x| && x[t.dim] <= t.threshold then 0 else 1
  }

  /** Node 0 splits on feature 0 into nodes 1 and 2, which split on feature
      1 into the leaves 3, 4 and 5, 6. */
  const Tree: Graph := Graph([[1, 2], [3, 4], [5, 6], [], [], [], []], [0])

  const Tests: map<nat, SplitTest> := map[0 := LessEqual(0, 0.6), 1 := LessEqual(1, 0.25), 2 := LessEqual(1, 0.75)]

  /** Each leaf answers one class index. */
  const LeafClasses: map<nat, nat> := map[3 := 0, 4 := 1, 5 := 2, 6 := 3]

  const Spec: ProblemSpec<int> := ProblemSpec(2, [0, 1, -7, 3])

  /** How many of the responses `rs` name class `c`. */
  function Count(rs: seq<nat>, c: nat): (n: nat)
    ensures n <= |rs|
  {
    if rs == [] then 0 else Count(rs[..|rs| - 1], c) + (if rs[|rs| - 1] == c then 1 else 0)
  }

  /** The accumulator: one vote count per class. */
  function Votes(rs: seq<nat>): (v: seq<real>)
    ensures |v| == 4
    ensures forall c :: 0 <= c < 4 ==> v[c] == Count(rs, c) as real
  {
    seq(4, c requires 0 <= c < 4 => Count(rs, c) as real)
  }

  /** The eight test instances, and the labels the test expects. */
  const Instances: seq<seq<real>> :=
    [[0.2, 0.2], [0.4, 0.2], [0.2, 0.7], [0.4, 0.7], [0.7, 0.2], [0.8, 0.2], [0.7, 0.8], [0.8, 0.8]]

  const Expected: seq<int> := [0, 0, 1, 1, -7, -7, 3, 3]

  /** The hand-built forest can be walked and answers at every leaf. */
  lemma TreeWellFormed()
    ensures Traversable(Tree, Tests) && LeavesCovered(Tree, LeafClasses)
  {
    assert Tree.Valid();
  }

  /** Below node 1 or 2, feature 1 picks the leaf. */
  lemma SubtreeLeaf(row: seq<real>, n: nat)
    requires |row| == 2 && (n == 1 || n == 2)
    ensures Traversable(Tree, Tests)
    ensures Leaf(Tree, Tests, Test, row, n) == if row[1] <= Tests[n].threshold then 2 * n + 1 else 2 * n + 2
  {
    TreeWellFormed();
    var leaf := Tree.GetChild(n, Test(Tests[n], row));
    assert leaf == if row[1] <= Tests[n].threshold then 2 * n + 1 else 2 * n + 2;
    DescentStep(Tree, Tests, Test, row, n);
    assert Tree.OutDegree(leaf) == 0;
  }

  /** The tree's decision regions: feature 0 picks the subtree, feature 1
      the leaf within it. */
  lemma LeafRegions(row: seq<real>)
    requires |row| == 2
    ensures Traversable(Tree, Tests)
    ensures TreeLeaf(Tree, Tests, Test, row, 0)
         == if row[0] <= 0.6 then (if row[1] <= 0.25 then 3 else 4)
            else (if row[1] <= 0.75 then 5 else 6)
  {
    TreeWellFormed();
    var first := Tree.GetChild(0, Test(Tests[0], row));
    assert first == if row[0] <= 0.6 then 1 else 2;
    DescentStep(Tree, Tests, Test, row, 0);
    SubtreeLeaf(row, first);
  }

  /** Instance `i` reaches leaf `3 + i / 2`: the two instances of each pair
      fall on the same side of every threshold. */
  lemma InstanceLeaf(i: nat)
    requires i < 8
    ensures Traversable(Tree, Tests)
    ensures TreeLeaf(Tree, Tests, Test, Instances[i], 0) == 3 + i / 2
  {
    LeafRegions(Instances[i]);
  }

  /** A single vote for class `c` makes `c` the first maximum. */
  lemma SingleVote(c: nat)
    requires c < 4
    ensures FirstArgMax(Votes([c])) == c
  {
    var v := Votes([c]);
    assert [c][..0] == [];
    assert v[c] == 1.0;
    forall d | 0 <= d < 4 && d != c ensures v[d] == 0.0 { }
    FirstArgMaxUnique(v, c);
  }

  /** The predicted label of every test instance is the expected one. */
  lemma PredictionsMatchTest(i: nat)
    requires i < 8
    ensures Traversable(Tree, Tests) && LeavesCovered(Tree, LeafClasses) && AllBelow([0], 1)
    ensures Spec.distinctClasses[FirstArgMax(Votes(TreeResponses(Tree, Tests, LeafClasses, Test, Instances[i], [0])))]
         == Expected[i]
  {
    TreeWellFormed();
    InstanceLeaf(i);
    var rs := TreeResponses(Tree, Tests, LeafClasses, Test, Instances[i], [0]);
    assert rs == [LeafClasses[3 + i / 2]];
    SingleVote(i / 2);
  }

  /** A fresh 8 x 2 matrix whose rows are the test instances. */
  method InstanceMatrix() returns (features: array2<real>)
    ensures fresh(features) && features.Length0 == 8 && features.Length1 == 2
    ensures forall i :: 0 <= i < 8 ==> Row(features, i) == Instances[i]
  {
    features := new real[8, 2]((i, j) requires 0 <= i < 8 && 0 <= j < 2 => Instances[i][j]);
    forall i | 0 <= i < 8 ensures Row(features, i) == Instances[i] {
      assert |Instances[i]| == 2;
    }
  }

  /** The test end to end: build the forest from its parts, predict the
      eight instances with all trees, and read back the expected labels. */
  method PredictTestInstances() returns (labels: seq<int>)
    ensures labels == Expected
  {
    TreeWellFormed();
    assert Resolve([], 1) == [0];
    var rf := new RandomForest(Tree, Tests, LeafClasses, Spec);
    var features := InstanceMatrix();
    var predicted := new int[8];
    var r := rf.Predict(features, predicted, [], Test, Votes);
    assert r.Success?;
    forall i | 0 <= i < 8 ensures predicted[i] == Expected[i] {
      assert predicted[i]
          == Spec.distinctClasses[FirstArgMax(Votes(TreeResponses(Tree, Tests, LeafClasses, Test, Instances[i], [0])))];
      PredictionsMatchTest(i);
    }
    labels := predicted[..];
  }
}
