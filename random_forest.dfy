/** The random forest container: a forest graph whose internal nodes carry
    split tests and whose leaves carry responses, the problem it was trained
    for, and the inference queries over it (leaf ids, class probabilities,
    predicted labels) together with merging two forests into one. */
module RandomForestModel {
  import opened ForestCommon
  import opened BinaryForest
  import opened NodeMaps
  import opened TreeIndices
  import opened Traversal
  import opened Responses
  import opened Selection

  /** What the forest was trained for: the width of a feature row and the
      class labels, in class-index order. */
  datatype ProblemSpec<L> = ProblemSpec(numFeatures: nat, distinctClasses: seq<L>) {
    function NumClasses(): nat { |distinctClasses| }
  }

  /** The default problem spec of an empty forest. */
  function EmptySpec<L>(): ProblemSpec<L> { ProblemSpec(0, []) }


  /** Number of worker threads: -1 asks for the hardware's parallelism, and
      anything below one becomes one. The count does not change any result. */
  function ThreadCount(requested: int, hardwareThreads: nat): (n: nat)
    ensures n >= 1
    ensures requested >= 1 ==> n == requested
    ensures requested == -1 && hardwareThreads >= 1 ==> n == hardwareThreads
    ensures requested == -1 && hardwareThreads == 0 ==> n == 1
    ensures requested < 1 && requested != -1 ==> n == 1
  {
    var n := if requested == -1 then hardwareThreads else requested;
    if n < 1 then 1 else n
  }


  /** The entries of `o` added to `m`, each under its key plus `offset`, one
      insertion at a time. */
  method InsertShifted<V>(m: map<nat, V>, o: map<nat, V>, offset: nat) returns (r: map<nat, V>)
    ensures r == m + ShiftKeys(o, offset)
  {
    r := m;
    var pending := o.Keys;
    assert ShiftKeys(o - pending, offset) == map[];
    while pending != {}
      invariant pending <= o.Keys
      invariant r == m + ShiftKeys(o - pending, offset)
      decreases pending
    {
      var k :| k in pending;
      ShiftKeysInsert(o, pending, k, offset);
      UpdateUnion(m, ShiftKeys(o - pending, offset), k + offset, o[k]);
      r := r[k + offset := o[k]];
      pending := pending - {k};
    }
    assert o - pending == o;
  }

  /** Updating a union updates its right operand. */
  lemma UpdateUnion<V>(a: map<nat, V>, b: map<nat, V>, k: nat, v: V)
    ensures (a + b)[k := v] == a + b[k := v]
  {
  }

  /** The accumulator turns any list of responses into `width` values. */
  ghost predicate Produces<R(!new)>(acc: seq<R> -> seq<real>, width: nat)
  {
    forall rs :: |acc(rs)| == width
  }

  /** A random forest. Its graph, split tests, node responses and problem
      spec are public fields, as in the source; the split test and the
      accumulator are passed to the queries as functions. */
  class RandomForest<S, R(!new), L(==)> {
    var graph: Graph
    var splitTests: map<nat, S>
    var nodeResponses: map<nat, R>
    var problemSpec: ProblemSpec<L>

    /** The forest can answer queries: its graph is valid, every internal
        node has a split test and every leaf a response. */
    predicate Valid()
      reads this
    {
      Traversable(graph, splitTests) && LeavesCovered(graph, nodeResponses)
    }

    /** The empty forest. */
    constructor Empty()
      ensures graph == EmptyGraph && splitTests == map[] && nodeResponses == map[]
      ensures problemSpec == EmptySpec()
      ensures NumNodes() == 0 && NumTrees() == 0 && Valid()
    {
      graph := EmptyGraph;
      splitTests := map[];
      nodeResponses := map[];
      problemSpec := EmptySpec();
    }

    /** A forest made of the given parts, copied as they are. */
    constructor (graph: Graph, splitTests: map<nat, S>, nodeResponses: map<nat, R>, problemSpec: ProblemSpec<L>)
      ensures this.graph == graph && this.splitTests == splitTests
      ensures this.nodeResponses == nodeResponses && this.problemSpec == problemSpec
    {
      this.graph := graph;
      this.splitTests := splitTests;
      this.nodeResponses := nodeResponses;
      this.problemSpec := problemSpec;
    }

    function NumNodes(): nat
      reads this
    {
      graph.NumNodes()
    }

    function NumTrees(): nat
      reads this
    {
      graph.NumRoots()
    }

    function NumClasses(): nat
      reads this
    {
      problemSpec.NumClasses()
    }

    /** Grows this forest by the trees of `other`: its nodes are appended
        after this forest's, and its split tests and responses are inserted
        under the shifted node ids. Forests trained for different problems
        cannot be merged. */
    method Merge(other: RandomForest<S, R, L>) returns (r: Outcome)
      requires other != this
      modifies this
      ensures r.Fail? <==> old(problemSpec) != other.problemSpec
      ensures r.Fail? ==> r.error == IncompatibleProblemSpec && unchanged(this)
      ensures r.Pass? ==>
                && graph == old(graph).Merge(other.graph)
                && splitTests == old(splitTests) + ShiftKeys(other.splitTests, old(NumNodes()))
                && nodeResponses == old(nodeResponses) + ShiftKeys(other.nodeResponses, old(NumNodes()))
                && problemSpec == old(problemSpec)
      ensures r.Pass? ==>
                && NumNodes() == old(NumNodes()) + other.NumNodes()
                && NumTrees() == old(NumTrees()) + other.NumTrees()
      ensures r.Pass? && old(Valid()) && other.Valid() ==> Valid()
    {
      if problemSpec != other.problemSpec {
        return Fail(IncompatibleProblemSpec);
      }
      ghost var g, tg, rg := graph, splitTests, nodeResponses;
      var offset := NumNodes();
      graph := graph.Merge(other.graph);
      splitTests := InsertShifted(splitTests, other.splitTests, offset);
      nodeResponses := InsertShifted(nodeResponses, other.nodeResponses, offset);
      if Traversable(g, tg) && LeavesCovered(g, rg) && other.Valid() {
        MergeTraversable(g, tg, other.graph, other.splitTests);
        MergeLeavesCovered(g, rg, other.graph, other.nodeResponses);
      }
      return Pass;
    }

    /** The trees a query visits: the requested indices as an ordered set,
        or every tree when none is requested. An index naming no tree is an
        error. */
    method ResolveTreeIndices(treeIndices: seq<nat>) returns (r: Result<seq<nat>>)
      ensures r.Failure? <==> !AllBelow(treeIndices, NumTrees())
      ensures r.Failure? ==> r.error == TreeIndexOutOfRange
      ensures r.Success? ==> r.value == Resolve(treeIndices, NumTrees())
    {
      var actual: seq<nat> := [];
      for i := 0 to |treeIndices|
        invariant actual == Normalise(treeIndices[..i])
      {
        assert treeIndices[..i + 1][..i] == treeIndices[..i];
        actual := Insert(actual, treeIndices[i]);
      }
      assert treeIndices[..|treeIndices|] == treeIndices;
      for j := 0 to |actual|
        invariant forall j' :: 0 <= j' < j ==> actual[j'] < NumTrees()
      {
        if actual[j] >= NumTrees() {
          assert actual[j] in treeIndices;
          return Failure(TreeIndexOutOfRange);
        }
      }
      forall i | 0 <= i < |treeIndices| ensures treeIndices[i] < NumTrees() {
        assert treeIndices[i] in actual;
      }
      if |actual| == 0 {
        for t := 0 to NumTrees()
          invariant Increasing(actual)
          invariant forall y: nat :: y in actual <==> y < t
        {
          actual := Insert(actual, t);
        }
        AllTreesIncreasing(NumTrees());
        IncreasingUnique(actual, AllTrees(NumTrees()));
      }
      return Success(actual);
    }

    /** For each instance (row of `features`) and each visited tree `k`,
        the leaf the instance reaches in tree `k` is written to `ids[i, k]`;
        the other entries become -1. Returns the average number of split
        comparisons per instance. The shapes are checked first, in this
        order, then the tree indices. */
    method LeafIds(features: array2<real>, ids: array2<int>, treeIndices: seq<nat>,
                   eval: (S, seq<real>) -> Branch) returns (r: Result<Average>)
      requires Traversable(graph, splitTests)
      modifies ids
      ensures features.Length0 != ids.Length0 ==> r == Failure(ShapeMismatch)
      ensures features.Length0 == ids.Length0 && features.Length1 != problemSpec.numFeatures ==>
                r == Failure(FeatureWidthMismatch)
      ensures (features.Length0 == ids.Length0 && features.Length1 == problemSpec.numFeatures
               && ids.Length1 != NumTrees()) ==> r == Failure(OutputWidthMismatch)
      ensures (features.Length0 == ids.Length0 && features.Length1 == problemSpec.numFeatures
               && ids.Length1 == NumTrees() && !AllBelow(treeIndices, NumTrees())) ==>
                r == Failure(TreeIndexOutOfRange)
      ensures r.Failure? ==> unchanged(ids)
      ensures r.Success? <==>
                && features.Length0 == ids.Length0 && features.Length1 == problemSpec.numFeatures
                && ids.Length1 == NumTrees() && AllBelow(treeIndices, NumTrees())
      ensures r.Success? ==>
                && AllBelow(treeIndices, NumTrees())
                && r.value == Divide(TotalComparisons(graph, splitTests, eval, Rows(features),
                                                      Resolve(treeIndices, NumTrees())),
                                     features.Length0)
                && LeafIdsOf(ids, Rows(features), Resolve(treeIndices, NumTrees()), eval)
    {
      if features.Length0 != ids.Length0 {
        return Failure(ShapeMismatch);
      }
      if features.Length1 != problemSpec.numFeatures {
        return Failure(FeatureWidthMismatch);
      }
      if ids.Length1 != NumTrees() {
        return Failure(OutputWidthMismatch);
      }
      var resolved := ResolveTreeIndices(treeIndices);
      if resolved.Failure? {
        return Failure(resolved.error);
      }
      var trees := resolved.value;
      FillUnreached(ids);
      ghost var rows := Rows(features);
      var total := 0;
      for i := 0 to features.Length0
        invariant total == TotalComparisons(graph, splitTests, eval, rows[..i], trees)
        invariant forall i', k :: 0 <= i' < ids.Length0 && 0 <= k < ids.Length1 ==>
                    ids[i', k] == if i' < i && k in trees
                                  then TreeLeaf(graph, splitTests, eval, rows[i'], k)
                                  else -1
      {
        var count := LeafIdsImpl(features, ids, i, i + 1, trees, eval);
        SingleInstanceComparisons(graph, splitTests, eval, rows, i, trees);
        total := total + count;
      }
      assert rows[..features.Length0] == rows;
      assert LeafIdsOf(ids, rows, trees, eval);
      return Success(Divide(total, features.Length0));
    }

    /** Sets every entry of `ids` to -1, the id of no node. */
    static method FillUnreached(ids: array2<int>)
      modifies ids
      ensures forall i, k :: 0 <= i < ids.Length0 && 0 <= k < ids.Length1 ==> ids[i, k] == -1
    {
      for i := 0 to ids.Length0
        invariant forall i', k :: 0 <= i' < i && 0 <= k < ids.Length1 ==> ids[i', k] == -1
      {
        for k := 0 to ids.Length1
          invariant forall i', k' :: 0 <= i' < i && 0 <= k' < ids.Length1 ==> ids[i', k'] == -1
          invariant forall k' :: 0 <= k' < k ==> ids[i, k'] == -1
        {
          ids[i, k] := -1;
        }
      }
    }

    /** For each instance (row of `features`), the responses of the leaves
        it reaches in the visited trees, in ascending tree order, are given
        to the accumulator `acc`, whose output becomes row `i` of `probs`.
        Returns the average number of split comparisons per instance. The
        shapes are checked first, in this order, then the tree indices. The
        leaf ids are computed before `probs` is written, so `probs` may be
        `features` itself. */
    method PredictProba(features: array2<real>, probs: array2<real>, treeIndices: seq<nat>,
                        eval: (S, seq<real>) -> Branch, acc: seq<R> -> seq<real>) returns (r: Result<Average>)
      requires Valid()
      requires Produces(acc, NumClasses())
      modifies probs
      ensures features.Length0 != probs.Length0 ==> r == Failure(ShapeMismatch)
      ensures features.Length0 == probs.Length0 && features.Length1 != problemSpec.numFeatures ==>
                r == Failure(FeatureWidthMismatch)
      ensures (features.Length0 == probs.Length0 && features.Length1 == problemSpec.numFeatures
               && probs.Length1 != NumClasses()) ==> r == Failure(OutputWidthMismatch)
      ensures (features.Length0 == probs.Length0 && features.Length1 == problemSpec.numFeatures
               && probs.Length1 == NumClasses() && !AllBelow(treeIndices, NumTrees())) ==>
                r == Failure(TreeIndexOutOfRange)
      ensures r.Failure? ==> unchanged(probs)
      ensures r.Success? <==>
                && features.Length0 == probs.Length0 && features.Length1 == problemSpec.numFeatures
                && probs.Length1 == NumClasses() && AllBelow(treeIndices, NumTrees())
      ensures r.Success? ==>
                && AllBelow(treeIndices, NumTrees())
                && r.value == Divide(TotalComparisons(graph, splitTests, eval, old(Rows(features)),
                                                      Resolve(treeIndices, NumTrees())),
                                     features.Length0)
                && ProbabilitiesOf(probs, old(Rows(features)), Resolve(treeIndices, NumTrees()), eval, acc)
    {
      if features.Length0 != probs.Length0 {
        return Failure(ShapeMismatch);
      }
      if features.Length1 != problemSpec.numFeatures {
        return Failure(FeatureWidthMismatch);
      }
      if probs.Length1 != NumClasses() {
        return Failure(OutputWidthMismatch);
      }
      var resolved := ResolveTreeIndices(treeIndices);
      if resolved.Failure? {
        return Failure(resolved.error);
      }
      var trees := resolved.value;
      ghost var rows := Rows(features);
      var ids := new int[features.Length0, NumTrees()];
      ResolveIdempotent(treeIndices, NumTrees());
      var leafIds := LeafIds(features, ids, trees, eval);
      if leafIds.Failure? {
        assert false;
        return leafIds;
      }
      assert Rows(features) == rows;
      assert LeafIdsOf(ids, rows, trees, eval);
      FillProbabilities(ids, probs, trees, eval, acc, rows);
      return leafIds;
    }

    /** Predicts a label for each instance: the class whose probability is
        the first largest in the instance's row of `predict_proba`'s output.
        Returns the average number of split comparisons per instance. An
        instance that passes every check can only be labelled when there is
        at least one class. */
    method Predict(features: array2<real>, labels: array<L>, treeIndices: seq<nat>,
                   eval: (S, seq<real>) -> Branch, acc: seq<R> -> seq<real>) returns (r: Result<Average>)
      requires Valid()
      requires Produces(acc, NumClasses())
      requires (features.Length0 == labels.Length && features.Length1 == problemSpec.numFeatures
                && AllBelow(treeIndices, NumTrees()) && features.Length0 > 0) ==> NumClasses() > 0
      modifies labels
      ensures features.Length0 != labels.Length ==> r == Failure(ShapeMismatch)
      ensures features.Length0 == labels.Length && features.Length1 != problemSpec.numFeatures ==>
                r == Failure(FeatureWidthMismatch)
      ensures (features.Length0 == labels.Length && features.Length1 == problemSpec.numFeatures
               && !AllBelow(treeIndices, NumTrees())) ==> r == Failure(TreeIndexOutOfRange)
      ensures r.Failure? ==> unchanged(labels)
      ensures r.Success? <==>
                && features.Length0 == labels.Length && features.Length1 == problemSpec.numFeatures
                && AllBelow(treeIndices, NumTrees())
      ensures r.Success? ==>
                && AllBelow(treeIndices, NumTrees())
                && r.value == Divide(TotalComparisons(graph, splitTests, eval, Rows(features),
                                                      Resolve(treeIndices, NumTrees())),
                                     features.Length0)
                && forall i :: 0 <= i < labels.Length ==>
                     labels[i] == problemSpec.distinctClasses[
                       FirstArgMax(acc(TreeResponses(graph, splitTests, nodeResponses, eval, Row(features, i),
                                                     Resolve(treeIndices, NumTrees()))))]
    {
      if features.Length0 != labels.Length {
        return Failure(ShapeMismatch);
      }
      if features.Length1 != problemSpec.numFeatures {
        return Failure(FeatureWidthMismatch);
      }
      var probs := new real[features.Length0, NumClasses()];
      r := PredictProba(features, probs, treeIndices, eval, acc);
      if r.Failure? {
        return;
      }
      ghost var trees := Resolve(treeIndices, NumTrees());
      ChooseLabels(probs, labels, eval, acc, trees, Rows(features));
    }

    /** The labelling loop of `predict`: each instance gets the class at the
        first largest entry of its row of `probs`. */
    method ChooseLabels(probs: array2<real>, labels: array<L>,
                        ghost eval: (S, seq<real>) -> Branch, ghost acc: seq<R> -> seq<real>,
                        ghost trees: seq<nat>, ghost rows: seq<seq<real>>)
      requires Valid() && AllBelow(trees, NumTrees()) && Produces(acc, NumClasses())
      requires ProbabilitiesOf(probs, rows, trees, eval, acc) && probs.Length1 == NumClasses()
      requires labels.Length == |rows| && (|rows| > 0 ==> NumClasses() > 0)
      modifies labels
      ensures forall i :: 0 <= i < labels.Length ==>
                labels[i] == problemSpec.distinctClasses[
                  FirstArgMax(acc(TreeResponses(graph, splitTests, nodeResponses, eval, rows[i], trees)))]
    {
      for i := 0 to labels.Length
        invariant forall i' :: 0 <= i' < i ==>
                    labels[i'] == problemSpec.distinctClasses[
                      FirstArgMax(acc(TreeResponses(graph, splitTests, nodeResponses, eval, rows[i'], trees)))]
      {
        var classIndex := MaxElement(probs, i);
        assert Row(probs, i) == acc(TreeResponses(graph, splitTests, nodeResponses, eval, rows[i], trees));
        labels[i] := problemSpec.distinctClasses[classIndex];
      }
    }

    /** `ids` holds the leaf ids of the instances `rows`: entry `(i, k)` is
        the leaf instance `i` reaches in tree `k` when `k` is among `trees`,
        and -1 otherwise. */
    ghost predicate LeafIdsOf(ids: array2<int>, rows: seq<seq<real>>, trees: seq<nat>,
                              eval: (S, seq<real>) -> Branch)
      reads this, ids
      requires Traversable(graph, splitTests) && AllBelow(trees, NumTrees())
    {
      && ids.Length0 == |rows|
      && forall i, k :: 0 <= i < ids.Length0 && 0 <= k < ids.Length1 ==>
           ids[i, k] == if k in trees then TreeLeaf(graph, splitTests, eval, rows[i], k) else -1
    }

    /** Row `i` of `probs` is the accumulator's output for the responses
        instance `rows[i]` collects from the trees `trees`. */
    ghost predicate ProbabilitiesOf(probs: array2<real>, rows: seq<seq<real>>, trees: seq<nat>,
                                    eval: (S, seq<real>) -> Branch, acc: seq<R> -> seq<real>)
      reads this, probs
      requires Valid() && AllBelow(trees, NumTrees())
    {
      && probs.Length0 == |rows|
      && forall i, c :: 0 <= i < probs.Length0 && 0 <= c < probs.Length1 ==>
           var out := acc(TreeResponses(graph, splitTests, nodeResponses, eval, rows[i], trees));
           c < |out| && probs[i, c] == out[c]
    }

    /** The instance loop of `predict_proba`: for each instance, the
        responses of the leaves recorded in `ids` go to the accumulator,
        whose output is written to the instance's row of `probs`. */
    method FillProbabilities(ids: array2<int>, probs: array2<real>, trees: seq<nat>,
                             eval: (S, seq<real>) -> Branch, acc: seq<R> -> seq<real>,
                             ghost rows: seq<seq<real>>)
      requires Valid() && AllBelow(trees, NumTrees())
      requires Produces(acc, NumClasses())
      requires LeafIdsOf(ids, rows, trees, eval) && ids.Length1 == NumTrees()
      requires probs.Length0 == |rows| && probs.Length1 == NumClasses()
      modifies probs
      ensures ProbabilitiesOf(probs, rows, trees, eval, acc)
    {
      for i := 0 to probs.Length0
        invariant forall i', c :: 0 <= i' < i && 0 <= c < probs.Length1 ==>
                    probs[i', c] == acc(TreeResponses(graph, splitTests, nodeResponses, eval, rows[i'], trees))[c]
      {
        var results := InstanceResponses(ids, i, trees, eval, rows[i]);
        WriteRow(probs, i, acc(results));
      }
    }

    /** The responses `predict_proba` collects for instance `i`, whose
        features are `row`, in the order of `trees`: the response of the leaf
        recorded in `ids[i, k]` for each tree `k`. */
    method InstanceResponses(ids: array2<int>, i: nat, trees: seq<nat>, eval: (S, seq<real>) -> Branch,
                             ghost row: seq<real>) returns (results: seq<R>)
      requires Valid() && AllBelow(trees, NumTrees())
      requires i < ids.Length0 && ids.Length1 == NumTrees()
      requires forall k :: k in trees ==> ids[i, k] == TreeLeaf(graph, splitTests, eval, row, k)
      ensures results == TreeResponses(graph, splitTests, nodeResponses, eval, row, trees)
    {
      results := [];
      for j := 0 to |trees|
        invariant results == TreeResponses(graph, splitTests, nodeResponses, eval, row, trees[..j])
      {
        var k := trees[j];
        TreeResponsesLast(graph, splitTests, nodeResponses, eval, row, trees, j);
        results := results + [nodeResponses[ids[i, k] as nat]];
      }
      assert trees[..|trees|] == trees;
    }

    /** Writes `values` into row `i` of `a`, leaving the other rows alone. */
    static method WriteRow(a: array2<real>, i: nat, values: seq<real>)
      requires i < a.Length0 && |values| == a.Length1
      modifies a
      ensures forall i', c :: 0 <= i' < a.Length0 && 0 <= c < a.Length1 ==>
                a[i', c] == if i' == i then values[c] else old(a[i', c])
    {
      for c := 0 to a.Length1
        invariant forall i', c' :: 0 <= i' < a.Length0 && 0 <= c' < a.Length1 ==>
                    a[i', c'] == if i' == i && c' < c then values[c'] else old(a[i', c'])
      {
        a[i, c] := values[c];
      }
    }

    /** Walks every tree of `trees` for the instances `from` to `to - 1`,
        writes the leaf each tree reaches into `ids[i, k]` and returns the
        split comparisons made. The caller has checked the shapes. */
    method LeafIdsImpl(features: array2<real>, ids: array2<int>, from: nat, to: nat,
                       trees: seq<nat>, eval: (S, seq<real>) -> Branch) returns (count: nat)
      requires Traversable(graph, splitTests)
      requires features.Length0 == ids.Length0 && features.Length1 == problemSpec.numFeatures
      requires from <= to <= features.Length0 && ids.Length1 == NumTrees()
      requires AllBelow(trees, NumTrees())
      modifies ids
      ensures count == TotalComparisons(graph, splitTests, eval, Rows(features)[from..to], trees)
      ensures forall i, k :: 0 <= i < ids.Length0 && 0 <= k < ids.Length1 ==>
                ids[i, k] == if from <= i < to && k in trees
                             then TreeLeaf(graph, splitTests, eval, Row(features, i), k)
                             else old(ids[i, k])
    {
      ghost var rows := Rows(features);
      count := 0;
      for i := from to to
        invariant count == TotalComparisons(graph, splitTests, eval, rows[from..i], trees)
        invariant forall i', k :: 0 <= i' < ids.Length0 && 0 <= k < ids.Length1 ==>
                    ids[i', k] == if from <= i' < i && k in trees
                                  then TreeLeaf(graph, splitTests, eval, rows[i'], k)
                                  else old(ids[i', k])
      {
        var row := Row(features, i);
        var instance := InstanceLeafIds(row, ids, i, trees, eval);
        TotalComparisonsLast(graph, splitTests, eval, rows, from, i, trees);
        count := count + instance;
      }
    }

    /** The body of the instance loop of `LeafIdsImpl` for instance `i`,
        whose features are `row`: walks each tree of `trees` and writes its
        leaf into row `i` of `ids`; returns the comparisons made. */
    method InstanceLeafIds(row: seq<real>, ids: array2<int>, i: nat,
                           trees: seq<nat>, eval: (S, seq<real>) -> Branch) returns (count: nat)
      requires Traversable(graph, splitTests)
      requires i < ids.Length0 && ids.Length1 == NumTrees() && AllBelow(trees, NumTrees())
      modifies ids
      ensures count == InstanceComparisons(graph, splitTests, eval, row, trees)
      ensures forall i', k :: 0 <= i' < ids.Length0 && 0 <= k < ids.Length1 ==>
                ids[i', k] == if i' == i && k in trees
                              then TreeLeaf(graph, splitTests, eval, row, k)
                              else old(ids[i', k])
    {
      count := 0;
      for j := 0 to |trees|
        invariant count == InstanceComparisons(graph, splitTests, eval, row, trees[..j])
        invariant forall i', k :: 0 <= i' < ids.Length0 && 0 <= k < ids.Length1 ==>
                    ids[i', k] == if i' == i && k in trees[..j]
                                  then TreeLeaf(graph, splitTests, eval, row, k)
                                  else old(ids[i', k])
      {
        var k := trees[j];
        var leaf, steps := WalkToLeaf(row, k, eval);
        InstanceComparisonsLast(graph, splitTests, eval, row, trees, j);
        assert trees[..j + 1] == trees[..j] + [k];
        ids[i, k] := leaf;
        count := count + steps;
      }
      assert trees[..|trees|] == trees;
    }

    /** The walk of `LeafIdsImpl` down tree `k`: from the root, follow the
        child the node's split test picks for `row` until a leaf; one split
        comparison per step. */
    method WalkToLeaf(row: seq<real>, k: nat, eval: (S, seq<real>) -> Branch) returns (node: nat, steps: nat)
      requires Traversable(graph, splitTests) && k < NumTrees()
      ensures node == TreeLeaf(graph, splitTests, eval, row, k)
      ensures steps == Comparisons(graph, splitTests, eval, row, graph.GetRoot(k))
    {
      node := graph.GetRoot(k);
      steps := 0;
      ghost var walked: seq<nat> := [];
      while graph.OutDegree(node) > 0
        invariant node < graph.NumNodes() && steps == |walked|
        invariant Descent(graph, splitTests, eval, row, graph.GetRoot(k))
               == walked + Descent(graph, splitTests, eval, row, node)
        decreases graph.NumNodes() - node
      {
        var childIndex := eval(splitTests[node], row);
        var child := graph.GetChild(node, childIndex);
        DescentStep(graph, splitTests, eval, row, node);
        ghost var step: seq<nat> := [node];
        AppendAssoc(walked, step, Descent(graph, splitTests, eval, row, child));
        walked := walked + step;
        node := child;
        steps := steps + 1;
      }
      WalkEnds(graph, splitTests, eval, row, graph.GetRoot(k), walked, node);
    }
  }
}
