/** What the accumulator is given for one instance: the responses of the
    leaves the instance reaches in the selected trees, in tree order; and
    why a merged forest hands it both forests' responses. */
module Responses {
  import opened ForestCommon
  import opened BinaryForest
  import opened NodeMaps
  import opened TreeIndices
  import opened Traversal

  /** The responses of the leaves `row` reaches in the trees `trees`, in the
      order of `trees`: what the accumulator is given for one instance. */
  function TreeResponses<S, R>(g: Graph, tests: map<nat, S>, responses: map<nat, R>,
                               eval: (S, seq<real>) -> Branch, row: seq<real>, trees: seq<nat>): (rs: seq<R>)
    requires Traversable(g, tests) && LeavesCovered(g, responses) && AllBelow(trees, g.NumRoots())
    ensures |rs| == |trees|
    decreases |trees|
  {
    if trees == [] then []
    else
      TreeResponses(g, tests, responses, eval, row, trees[..|trees| - 1])
        + [responses[TreeLeaf(g, tests, eval, row, trees[|trees| - 1])]]
  }

  /** One more tree appends the response of its leaf. */
  lemma TreeResponsesLast<S, R>(g: Graph, tests: map<nat, S>, responses: map<nat, R>,
                                eval: (S, seq<real>) -> Branch, row: seq<real>, trees: seq<nat>, j: nat)
    requires Traversable(g, tests) && LeavesCovered(g, responses) && AllBelow(trees, g.NumRoots())
    requires j < |trees|
    ensures TreeResponses(g, tests, responses, eval, row, trees[..j + 1])
         == TreeResponses(g, tests, responses, eval, row, trees[..j])
            + [responses[TreeLeaf(g, tests, eval, row, trees[j])]]
  {
    assert trees[..j + 1][..j] == trees[..j];
  }

  /** Entry `j` of the collected responses is the response of the leaf tree
      `trees[j]` sends the row to. */
  lemma {:induction false} TreeResponsesAt<S, R>(g: Graph, tests: map<nat, S>, responses: map<nat, R>,
                                                 eval: (S, seq<real>) -> Branch, row: seq<real>,
                                                 trees: seq<nat>, j: nat)
    requires Traversable(g, tests) && LeavesCovered(g, responses) && AllBelow(trees, g.NumRoots())
    requires j < |trees|
    ensures TreeResponses(g, tests, responses, eval, row, trees)[j]
         == responses[TreeLeaf(g, tests, eval, row, trees[j])]
    decreases |trees|
  {
    if j < |trees| - 1 {
      TreeResponsesAt(g, tests, responses, eval, row, trees[..|trees| - 1], j);
    }
  }

  /** Forest `o` sits inside forest `m` at node offset `offset`, with its
      trees at the root positions from `first` on, and with its leaves'
      responses. */
  ghost predicate EmbeddedForest<S, R>(m: Graph, tm: map<nat, S>, rm: map<nat, R>,
                                       o: Graph, to: map<nat, S>, ro: map<nat, R>, offset: nat, first: nat)
  {
    && Traversable(o, to) && LeavesCovered(o, ro)
    && Embeds(m, tm, o, to, offset) && EmbedsResponses(rm, o, ro, offset)
    && first + o.NumRoots() <= m.NumRoots()
    && forall k :: 0 <= k < o.NumRoots() ==> m.roots[first + k] == o.roots[k] + offset
  }

  /** The responses of the first `n` trees of the forest for `row`, in tree
      order: what the accumulator is given when no tree is selected
      explicitly (`AllTreeResponses`). */
  function ForestResponses<S, R>(g: Graph, tests: map<nat, S>, responses: map<nat, R>,
                                 eval: (S, seq<real>) -> Branch, row: seq<real>, n: nat): (rs: seq<R>)
    requires Traversable(g, tests) && LeavesCovered(g, responses) && n <= g.NumRoots()
    ensures |rs| == n
  {
    if n == 0 then []
    else ForestResponses(g, tests, responses, eval, row, n - 1) + [responses[TreeLeaf(g, tests, eval, row, n - 1)]]
  }

  /** One more tree appends its response. */
  lemma ForestResponsesLast<S, R>(g: Graph, tests: map<nat, S>, responses: map<nat, R>,
                                  eval: (S, seq<real>) -> Branch, row: seq<real>, k: nat)
    requires Traversable(g, tests) && LeavesCovered(g, responses) && k < g.NumRoots()
    ensures ForestResponses(g, tests, responses, eval, row, k + 1)
         == ForestResponses(g, tests, responses, eval, row, k) + [responses[TreeLeaf(g, tests, eval, row, k)]]
  {
  }

  /** Selecting all `n` first trees explicitly collects the same responses. */
  lemma {:induction false} AllTreeResponses<S, R>(g: Graph, tests: map<nat, S>, responses: map<nat, R>,
                                                  eval: (S, seq<real>) -> Branch, row: seq<real>, n: nat)
    requires Traversable(g, tests) && LeavesCovered(g, responses) && n <= g.NumRoots()
    ensures AllBelow(AllTrees(n), g.NumRoots())
    ensures TreeResponses(g, tests, responses, eval, row, AllTrees(n)) == ForestResponses(g, tests, responses, eval, row, n)
    decreases n
  {
    if n > 0 {
      AllTreeResponses(g, tests, responses, eval, row, n - 1);
      AllTreesInit(n);
    }
  }

  /** The first `n` trees of a forest embedded unshifted at the front of a
      larger one answer as the larger forest's first `n` trees. */
  lemma {:induction false} LeadingResponses<S, R>(m: Graph, tm: map<nat, S>, rm: map<nat, R>,
                                                  g: Graph, tg: map<nat, S>, rg: map<nat, R>,
                                                  eval: (S, seq<real>) -> Branch, row: seq<real>, n: nat)
    requires Traversable(m, tm) && LeavesCovered(m, rm)
    requires EmbeddedForest(m, tm, rm, g, tg, rg, 0, 0)
    requires n <= g.NumRoots()
    ensures ForestResponses(m, tm, rm, eval, row, n) == ForestResponses(g, tg, rg, eval, row, n)
    decreases n
  {
    if n > 0 {
      LeadingResponses(m, tm, rm, g, tg, rg, eval, row, n - 1);
      EmbeddedTreeResponse(m, tm, rm, g, tg, rg, 0, eval, row, n - 1, n - 1);
    }
  }

  /** A forest embedded with its trees at the root positions from `first` on:
      the larger forest's first `first + n` trees answer as its first `first`
      trees followed by the embedded forest's first `n`. */
  lemma {:induction false} TrailingResponses<S, R>(m: Graph, tm: map<nat, S>, rm: map<nat, R>,
                                                   o: Graph, to: map<nat, S>, ro: map<nat, R>,
                                                   offset: nat, first: nat,
                                                   eval: (S, seq<real>) -> Branch, row: seq<real>, n: nat)
    requires Traversable(m, tm) && LeavesCovered(m, rm)
    requires EmbeddedForest(m, tm, rm, o, to, ro, offset, first)
    requires n <= o.NumRoots()
    ensures ForestResponses(m, tm, rm, eval, row, first + n)
         == ForestResponses(m, tm, rm, eval, row, first) + ForestResponses(o, to, ro, eval, row, n)
    decreases n
  {
    if n == 0 {
      AppendNil(ForestResponses(m, tm, rm, eval, row, first));
    } else {
      var k := n - 1;
      TrailingResponses(m, tm, rm, o, to, ro, offset, first, eval, row, k);
      EmbeddedTreeResponse(m, tm, rm, o, to, ro, offset, eval, row, k, first + k);
      ForestResponsesLast(m, tm, rm, eval, row, first + k);
      ForestResponsesLast(o, to, ro, eval, row, k);
      AppendLast(ForestResponses(m, tm, rm, eval, row, first),
                 ForestResponses(o, to, ro, eval, row, k), ro[TreeLeaf(o, to, eval, row, k)]);
    }
  }

  /** Merging keeps every tree where it was: in the merged forest, with all
      its trees selected, an instance collects exactly this forest's
      responses followed by the other forest's, so that one accumulator call
      combines the two. The requirements on the merged forest, needed so
      that its responses are defined, are what `MergeTraversable` and
      `MergeLeavesCovered` prove. */
  lemma MergeCombinesResponses<S, R>(g: Graph, tg: map<nat, S>, rg: map<nat, R>,
                                     other: Graph, to: map<nat, S>, ro: map<nat, R>,
                                     eval: (S, seq<real>) -> Branch, row: seq<real>)
    requires Traversable(g, tg) && LeavesCovered(g, rg)
    requires Traversable(other, to) && LeavesCovered(other, ro)
    requires Traversable(g.Merge(other), tg + ShiftKeys(to, g.NumNodes()))
    requires LeavesCovered(g.Merge(other), rg + ShiftKeys(ro, g.NumNodes()))
    ensures ForestResponses(g.Merge(other), tg + ShiftKeys(to, g.NumNodes()), rg + ShiftKeys(ro, g.NumNodes()),
                            eval, row, g.NumRoots() + other.NumRoots())
         == ForestResponses(g, tg, rg, eval, row, g.NumRoots()) + ForestResponses(other, to, ro, eval, row, other.NumRoots())
  {
    MergeEmbedsBoth(g, tg, rg, other, to, ro);
    var m, tm, rm := g.Merge(other), tg + ShiftKeys(to, g.NumNodes()), rg + ShiftKeys(ro, g.NumNodes());
    LeadingResponses(m, tm, rm, g, tg, rg, eval, row, g.NumRoots());
    TrailingResponses(m, tm, rm, other, to, ro, g.NumNodes(), g.NumRoots(), eval, row, other.NumRoots());
  }

  /** Both forests sit inside the merged forest: this one at offset 0 and
      the first root positions, the other one past this one's nodes and
      roots. */
  lemma MergeEmbedsBoth<S, R>(g: Graph, tg: map<nat, S>, rg: map<nat, R>,
                              other: Graph, to: map<nat, S>, ro: map<nat, R>)
    requires Traversable(g, tg) && LeavesCovered(g, rg)
    requires Traversable(other, to) && LeavesCovered(other, ro)
    ensures EmbeddedForest(g.Merge(other), tg + ShiftKeys(to, g.NumNodes()), rg + ShiftKeys(ro, g.NumNodes()),
                           g, tg, rg, 0, 0)
    ensures EmbeddedForest(g.Merge(other), tg + ShiftKeys(to, g.NumNodes()), rg + ShiftKeys(ro, g.NumNodes()),
                           other, to, ro, g.NumNodes(), g.NumRoots())
  {
    MergeEmbedsLeft(g, tg, other, to);
    MergeEmbedsResponsesLeft(g, rg, ro);
    MergeEmbedsRight(g, tg, other, to);
    MergeEmbedsResponsesRight(g, rg, other, ro);
    forall k | 0 <= k < g.NumRoots() ensures g.Merge(other).roots[0 + k] == g.roots[k] + 0 {
      MergeRoot(g, other, k);
    }
    forall k | 0 <= k < other.NumRoots()
      ensures g.Merge(other).roots[g.NumRoots() + k] == other.roots[k] + g.NumNodes()
    {
      MergeRoot(g, other, g.NumRoots() + k);
    }
  }

  /** A query over no explicitly selected trees, on the merged forest, hands
      the accumulator this forest's responses followed by the other
      forest's: predicting with the merged forest combines both forests
      through one accumulator call per instance. The requirements on the
      merged forest, needed so that its responses are defined, are what
      `MergeTraversable` and `MergeLeavesCovered` prove. */
  lemma MergeCombinesPredictions<S, R>(g: Graph, tg: map<nat, S>, rg: map<nat, R>,
                                       other: Graph, to: map<nat, S>, ro: map<nat, R>,
                                       eval: (S, seq<real>) -> Branch, row: seq<real>)
    requires Traversable(g, tg) && LeavesCovered(g, rg)
    requires Traversable(other, to) && LeavesCovered(other, ro)
    requires Traversable(g.Merge(other), tg + ShiftKeys(to, g.NumNodes()))
    requires LeavesCovered(g.Merge(other), rg + ShiftKeys(ro, g.NumNodes()))
    ensures AllBelow(Resolve([], g.Merge(other).NumRoots()), g.Merge(other).NumRoots())
    ensures AllBelow(Resolve([], g.NumRoots()), g.NumRoots()) && AllBelow(Resolve([], other.NumRoots()), other.NumRoots())
    ensures TreeResponses(g.Merge(other), tg + ShiftKeys(to, g.NumNodes()), rg + ShiftKeys(ro, g.NumNodes()),
                          eval, row, Resolve([], g.Merge(other).NumRoots()))
         == TreeResponses(g, tg, rg, eval, row, Resolve([], g.NumRoots()))
            + TreeResponses(other, to, ro, eval, row, Resolve([], other.NumRoots()))
  {
    var m, tm, rm := g.Merge(other), tg + ShiftKeys(to, g.NumNodes()), rg + ShiftKeys(ro, g.NumNodes());
    AllTreeResponses(m, tm, rm, eval, row, m.NumRoots());
    AllTreeResponses(g, tg, rg, eval, row, g.NumRoots());
    AllTreeResponses(other, to, ro, eval, row, other.NumRoots());
    MergeCombinesResponses(g, tg, rg, other, to, ro, eval, row);
  }
}
