# vigra RandomForest inference core in Dafny

This project models the inference half of vigra's `RandomForest` container
(`include/vigra/random_forest_new/random_forest.hxx`). A forest is:

- a directed binary graph with one root per tree;
- a split test on each internal node;
- a response on each leaf;
- the problem spec the forest was trained for: the feature count and the
  distinct class labels.

The model covers these operations:

- the two constructors;
- `merge`, which appends the nodes of another forest and re-inserts its
  split tests and responses under shifted node ids;
- `leaf_ids` / `leaf_ids_impl`, which walk every instance down every
  selected tree, record the leaf reached and count the split comparisons;
- `predict_proba`, which hands each instance's leaf responses, in ascending
  tree order, to the accumulator;
- `predict`, which takes the first maximum of each probability row and maps
  it through the distinct class labels;
- the accessors `num_nodes`, `num_trees` and `num_classes`.

Modules:

- `BinaryForest` (binary_forest.dfy): the graph as a node arena. `children[n]`
  lists the children of node `n`, and `roots[k]` is the root of tree `k`.
  `Merge` appends a graph with its ids shifted.
- `NodeMaps` (node_maps.dfy): the node-keyed property maps as `map<nat, V>`,
  and the key shift a merge applies.
- `Traversal` (traversal.dfy): the root-to-leaf walk as a specification
  function (`Descent`, `Leaf`, `Comparisons`), and its behaviour under merge.
- `TreeIndices` (tree_indices.dfy): the requested tree indices turned into an
  ordered set, or into all trees when none are requested.
- `Selection` (selection.dfy): the first maximum of a row, as
  `std::max_element` finds it.
- `Responses` (responses.dfy): the list of responses the accumulator receives.
- `RandomForestModel` (random_forest.dfy): the `RandomForest` class. Its
  fields, `Merge` and the queries are imperative methods. Each query is
  proved against the specification functions above.
- `ForestScenario` (scenario.dfy): the hand-built seven-node forest of the
  base-class test, predicted end to end.

The following are parameters of the queries, not code of the model:

- the split test, a function `eval` from a test and a feature row to child 0
  or 1;
- the accumulator, a function `acc` from a list of responses to a row of
  `num_classes` values.

A `vigra_precondition` failure becomes a `Failure` result carrying the
error kind. The checks are made in the source's order.

## Model

| member | source | states |
|---|---|---|
| RandomForestModel.RandomForest.Empty | include/vigra/random_forest_new/random_forest.hxx:162-169 | The default forest has an empty graph, empty maps and the default problem spec. It has no nodes and no trees, and it is valid. |
| RandomForestModel.RandomForest.constructor | include/vigra/random_forest_new/random_forest.hxx:171-182 | The forest holds exactly the graph, split tests, node responses and problem spec it was given. |
| RandomForestModel.RandomForest.Merge | include/vigra/random_forest_new/random_forest.hxx:185-201 | Fails with IncompatibleProblemSpec exactly when the problem specs differ, and then changes nothing. On success: the graph is the old graph merged with the other's; each map is the old map plus the other's entries with keys shifted by the old node count; the spec is kept; node and tree counts are the sums of both forests' counts; a valid forest merged with a valid forest stays valid. |
| RandomForestModel.InsertShifted | include/vigra/random_forest_new/random_forest.hxx:193-200 | The insertion loop yields the old map united with the other map's entries, each under its key plus the offset. |
| NodeMaps.MergedLookupLow | include/vigra/random_forest_new/random_forest.hxx:191-200 | After a merge, an entry whose key is below the offset still holds its old value. |
| NodeMaps.MergedLookupHigh | include/vigra/random_forest_new/random_forest.hxx:191-200 | After a merge, every key `k` of the other map is present as `k + offset` and holds the other map's value. |
| BinaryForest.Graph.Merge | include/vigra/random_forest_new/random_forest.hxx:191-192 | The merged graph's node count and root count are the sums of the two graphs' counts. |
| BinaryForest.MergeValid | include/vigra/random_forest_new/random_forest.hxx:191-192 | Merging two well-formed graphs gives a well-formed graph: out-degree 0 or 2, children after parents, and every id in range. |
| Traversal.MergeTraversable | include/vigra/random_forest_new/random_forest.hxx:191-196 | After a merge, every internal node of the merged graph has a split test. |
| Traversal.MergeLeavesCovered | include/vigra/random_forest_new/random_forest.hxx:191-200 | After a merge, every leaf of the merged graph has a response. |
| Traversal.DescentMergeLeft | include/vigra/random_forest_new/random_forest.hxx:191-200 | In the merged forest, the walk from one of this forest's nodes is the walk it took before the merge. |
| Traversal.DescentMergeRight | include/vigra/random_forest_new/random_forest.hxx:191-200 | In the merged forest, the walk from an appended node is the other forest's walk with every id shifted by the offset. |
| Responses.MergeCombinesPredictions | include/vigra/random_forest_new/random_forest.hxx:185-201 | A query over all trees of the merged forest hands the accumulator this forest's responses followed by the other forest's responses. |
| RandomForestModel.RandomForest.ResolveTreeIndices | include/vigra/random_forest_new/random_forest.hxx:243-251 | Fails with TreeIndexOutOfRange exactly when some requested index is at least the number of trees. Otherwise it returns the sorted, duplicate-free set of the requested indices, or all trees when none are requested. |
| TreeIndices.Insert | include/vigra/random_forest_new/random_forest.hxx:244 | Inserting into an ordered set keeps it strictly increasing and adds exactly the new index. |
| TreeIndices.Normalise | include/vigra/random_forest_new/random_forest.hxx:244 | The ordered set built from the indices is strictly increasing, holds exactly the requested indices, and is empty only when none are requested. |
| TreeIndices.Resolve | include/vigra/random_forest_new/random_forest.hxx:244-251 | The visited trees are strictly increasing. With no request they are all trees; otherwise they are exactly the requested ones, and they stay in range when the request does. |
| TreeIndices.ResolveCanonical | include/vigra/random_forest_new/random_forest.hxx:289-296 | Any reordering or duplication of the same requested indices visits the same trees in the same order. |
| TreeIndices.ResolveIdempotent | include/vigra/random_forest_new/random_forest.hxx:256 | Passing an already resolved tree set to `leaf_ids` again selects the same trees. |
| RandomForestModel.RandomForest.LeafIds | include/vigra/random_forest_new/random_forest.hxx:275-319 | Fails, leaving `ids` untouched, on the first failing check in source order: row counts differ, feature width differs, id width differs from the tree count, or a tree index is out of range. It succeeds exactly when all checks pass. Then each selected tree's column holds the leaf the instance reaches and every other cell is -1. The result is the total comparison count divided by the instance count, NaN without instances. |
| RandomForestModel.RandomForest.FillUnreached | include/vigra/random_forest_new/random_forest.hxx:306 | Every cell of the id matrix becomes -1. |
| RandomForestModel.ThreadCount | include/vigra/random_forest_new/random_forest.hxx:299-302 | A request of one or more is kept. -1 asks for the hardware's thread count, and becomes one when that count is zero. Any other request below one becomes one. The count is always at least one. |
| ForestCommon.Divide | include/vigra/random_forest_new/random_forest.hxx:317-318 | The average is NaN exactly when there are no instances; otherwise the average times the instance count is the total. |
| RandomForestModel.RandomForest.LeafIdsImpl | include/vigra/random_forest_new/random_forest.hxx:323-356 | For rows `from..to` and each selected tree, writes the leaf the instance reaches and leaves every other cell as it was. Returns the comparisons of those rows' walks over the selected trees. |
| RandomForestModel.RandomForest.InstanceLeafIds | include/vigra/random_forest_new/random_forest.hxx:342-353 | For one instance, writes the reached leaf into the column of each selected tree and changes nothing else. Returns that instance's total comparison count. |
| RandomForestModel.RandomForest.WalkToLeaf | include/vigra/random_forest_new/random_forest.hxx:345-352 | The while loop from the root of tree `k` stops at the leaf the specification walk reaches, after as many steps as that walk makes comparisons. |
| Traversal.DescentFollowsTests | include/vigra/random_forest_new/random_forest.hxx:346-351 | The specification walk starts at the given node. At each internal node it moves to the child the split test picks, and it ends at a node of out-degree 0. |
| Traversal.DescentUnique | include/vigra/random_forest_new/random_forest.hxx:346-351 | Any walk that follows the split tests to a leaf is the specification walk. Its last node is the leaf, and one comparison is counted per step. |
| Traversal.DescentIncreasing | include/vigra/random_forest_new/random_forest.hxx:346-351 | Node ids strictly increase along a walk, so no node is visited twice. |
| Traversal.ComparisonsBound | include/vigra/random_forest_new/random_forest.hxx:346-351 | A walk from node `n` makes fewer comparisons than there are nodes from `n` on. |
| Traversal.SingleInstanceComparisons | include/vigra/random_forest_new/random_forest.hxx:307-315 | The comparisons of the first `i + 1` instances are those of the first `i` plus those of instance `i`. Running the instances one at a time therefore gives the same total as the parallel loop. |
| RandomForestModel.RandomForest.PredictProba | include/vigra/random_forest_new/random_forest.hxx:230-271 | Fails, leaving `probs` untouched, on the first failing check in source order: row counts differ, feature width differs, probability width differs from the class count, or a tree index is out of range. It succeeds exactly when all checks pass. Then row `i` of `probs` is the accumulator applied to the responses of the leaves instance `i` reaches in the selected trees, in ascending tree order. The result is the average comparison count. |
| RandomForestModel.RandomForest.FillProbabilities | include/vigra/random_forest_new/random_forest.hxx:258-269 | Given the leaf ids of every instance, each probability row is the accumulator applied to that instance's leaf responses. |
| RandomForestModel.RandomForest.InstanceResponses | include/vigra/random_forest_new/random_forest.hxx:262-266 | The collected `tree_results` are the responses of the instance's leaves, one per selected tree, in ascending tree order. |
| Responses.TreeResponsesAt | include/vigra/random_forest_new/random_forest.hxx:263-266 | Entry `j` of the collected responses is the response of the leaf that the `j`-th selected tree sends the instance to. |
| RandomForestModel.RandomForest.Predict | include/vigra/random_forest_new/random_forest.hxx:205-226 | Fails, leaving `labels` untouched, when the row counts differ, the feature width differs, or a tree index is out of range. It succeeds exactly when these checks pass. Then `labels[i]` is the distinct class at the first maximum of the accumulator's row for instance `i`, and the result is the average comparison count. |
| RandomForestModel.RandomForest.ChooseLabels | include/vigra/random_forest_new/random_forest.hxx:218-224 | Each label is the distinct class at the first position of the maximum of its probability row. |
| Selection.MaxElement | include/vigra/random_forest_new/random_forest.hxx:220-222 | The scan of a row returns the index of its first maximum, as `std::max_element` does. |
| Selection.FirstArgMax | include/vigra/random_forest_new/random_forest.hxx:220-222 | The chosen index holds a value no smaller than any other, and every earlier index holds a strictly smaller value. |
| Selection.FirstArgMaxUnique | include/vigra/random_forest_new/random_forest.hxx:220-222 | These two properties determine the chosen index: ties go to the first maximum. |
| ForestScenario.Test | test/random_forest_new/test.cxx:51 | The split test used by the test sends a row to child 0 exactly when its feature is at most the threshold. |
| ForestScenario.TreeWellFormed | test/random_forest_new/test.cxx:56-82 | The hand-built forest is well formed. Every internal node has a split test and every leaf has a response. |
| ForestScenario.LeafRegions | test/random_forest_new/test.cxx:67-81 | Feature 0 against 0.6 picks the subtree. Feature 1 against 0.25 or 0.75 then picks leaf 3, 4, 5 or 6. |
| ForestScenario.InstanceLeaf | test/random_forest_new/test.cxx:92-96 | Test instance `i` reaches leaf `3 + i / 2`. |
| ForestScenario.PredictionsMatchTest | test/random_forest_new/test.cxx:83-103 | The label predicted for every test instance is the expected label. |
| ForestScenario.PredictTestInstances | test/random_forest_new/test.cxx:56-103 | The end-to-end run (construct the forest, predict the eight instances with all trees) yields `[0, 0, 1, 1, -7, -7, 3, 3]`. |

## Left out

- Threading: the model runs the instances one after another. `parallel_foreach` and the per-thread comparison counters are left out. Each instance writes only its own row, so the results are the same; `ThreadCount` models only the clamp.
- Floating point: comparison counts are `nat` and averages and probabilities are `real`. The 0/0 of an empty feature matrix is the `NaN` case of `Average`.
- `BinaryForest`, `PropertyMap` and `ProblemSpecNew` live in files that are not part of this model. The graph is an arena whose merge appends the other graph's nodes with shifted ids and its roots after this graph's roots. `PropertyMap::insert` is modelled as a map update. The class count is the number of distinct classes.
- RandomForestModel.RandomForest.LeafIds: requires a walkable forest (`Traversable`): every node has out-degree 0 or 2, every child id is larger than its parent's, and every internal node has a split test. So do LeafIdsImpl, InstanceLeafIds and WalkToLeaf. On a malformed forest the source's `split_tests_.at(node)` fails (random_forest.hxx:348), and `getChild` on an out-degree-1 node misbehaves. The model does not cover those paths. The leaf-id chain does not read the node responses, so it does not require them.
- RandomForestModel.RandomForest.PredictProba: requires `Valid()`, meaning walkable with a response on every leaf. So do Predict, FillProbabilities, InstanceResponses and ChooseLabels. The failure of `node_responses_.at(...)` on a leaf without a response (random_forest.hxx:265) is not modelled.
- Graph acyclicity is modelled as "every child id is larger than its parent's id", which holds for the test forest and is kept by merge.
- RandomForestModel.RandomForest.Merge: requires `other != this`. A self-merge would iterate over a map while inserting into it, which the model does not capture.
- RandomForestModel.RandomForest.LeafIdsImpl: its own shape and range checks are preconditions rather than error results, because its only caller has already checked them.
- The split test and the accumulator are abstract parameters. The accumulator must return `num_classes` values for every input, and the response type must not hold references.
- Leaf ids are `size_t` filled with `-1`; the model uses `int` with -1 as the unreached marker.
- RandomForestModel.RandomForest.Predict: requires at least one class, but only for a call that has instances and passes every check (label count, feature width, tree indices). Only such a call reaches the labelling loop. With no classes, `max_element` on an empty row returns the end iterator there, and the label lookup reads past `distinct_classes_` (random_forest.hxx:218-223). A call that fails a check is rejected cleanly with any class count.
- Predict does not check the width of its internal probability matrix, because it builds the matrix with the class count itself.
- The doc comment of `predict_proba` gives `probs` `num_trees` columns, but the code checks `num_classes` (random_forest.hxx:240). The model follows the code.
- The accessors `num_nodes`, `num_trees` and `num_classes` are plain reading functions without contracts of their own. Their meaning is stated through the contracts of the constructors and Merge.
- The loops of `predict_proba`, `predict` and `leaf_ids_impl` are split across helper methods (FillProbabilities, InstanceResponses, ChooseLabels, InstanceLeafIds, WalkToLeaf). Each helper keeps the source's loop structure.
- ForestScenario: `LessEqualSplitTest` and `ArgMaxAcc` are in files that are not part of this model. They are assumed to send a row to child 0 when `x[dim] <= threshold`, and to give one vote per tree to the response's class.
- Training, the split criteria, the out-of-bag visitor and the HDF5 tests (test/random_forest_new/test.cxx:106-218) are outside the inference core.
