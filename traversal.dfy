/** Walking a tree of the forest from its root to a leaf: at each internal
    node the node's split test, applied to the instance's feature row, picks
    the child to descend to; each such step is one split comparison. */
module Traversal {
  import opened BinaryForest
  import opened NodeMaps
  import opened TreeIndices

  /** A split test's answer: the index of the child to descend to. */
  type Branch = b: nat | b < 2

  /** The forest can be walked: its graph is valid and every internal node
      carries a split test. */
  predicate Traversable<S>(g: Graph, tests: map<nat, S>)
  {
    g.Valid() && forall n {:trigger g.OutDegree(n)} :: 0 <= n < g.NumNodes() && g.OutDegree(n) > 0 ==> n in tests
  }

  /** Every leaf carries a response. */
  predicate LeavesCovered<R>(g: Graph, responses: map<nat, R>)
  {
    forall n {:trigger g.OutDegree(n)} :: 0 <= n < g.NumNodes() && g.OutDegree(n) == 0 ==> n in responses
  }

  /** `p` is a walk that starts anywhere, follows the branch the split test of
      each internal node picks for `row`, and stops at the first leaf. */
  ghost predicate IsDescent<S>(g: Graph, tests: map<nat, S>, eval: (S, seq<real>) -> Branch,
                               row: seq<real>, p: seq<nat>)
    requires Traversable(g, tests)
  {
    && |p| > 0
    && (forall m :: 0 <= m < |p| ==> p[m] < g.NumNodes())
    && (forall m :: 0 <= m < |p| - 1 ==>
          g.OutDegree(p[m]) > 0 && p[m + 1] == g.GetChild(p[m], eval(tests[p[m]], row)))
    && g.OutDegree(p[|p| - 1]) == 0
  }

  /** The nodes the source's walk visits from node `n` for `row`, the leaf
      last. */
  function Descent<S>(g: Graph, tests: map<nat, S>, eval: (S, seq<real>) -> Branch,
                      row: seq<real>, n: nat): (p: seq<nat>)
    requires Traversable(g, tests) && n < g.NumNodes()
    ensures |p| > 0 && p[0] == n
    ensures p[|p| - 1] < g.NumNodes() && g.OutDegree(p[|p| - 1]) == 0
    decreases g.NumNodes() - n
  {
    if g.OutDegree(n) == 0 then [n]
    else [n] + Descent(g, tests, eval, row, g.GetChild(n, eval(tests[n], row)))
  }

  /** The leaf reached from node `n`. */
  function Leaf<S>(g: Graph, tests: map<nat, S>, eval: (S, seq<real>) -> Branch,
                   row: seq<real>, n: nat): (leaf: nat)
    requires Traversable(g, tests) && n < g.NumNodes()
    ensures leaf < g.NumNodes() && g.OutDegree(leaf) == 0
  {
    var p := Descent(g, tests, eval, row, n);
    p[|p| - 1]
  }

  /** The split comparisons made on the way from node `n` to its leaf: one
      per internal node on the walk. */
  function Comparisons<S>(g: Graph, tests: map<nat, S>, eval: (S, seq<real>) -> Branch,
                          row: seq<real>, n: nat): (c: nat)
    requires Traversable(g, tests) && n < g.NumNodes()
  {
    |Descent(g, tests, eval, row, n)| - 1
  }

  /** From an internal node the walk goes on at the child its test picks. */
  lemma DescentStep<S>(g: Graph, tests: map<nat, S>, eval: (S, seq<real>) -> Branch,
                       row: seq<real>, n: nat)
    requires Traversable(g, tests) && n < g.NumNodes() && g.OutDegree(n) > 0
    ensures Descent(g, tests, eval, row, n)
         == [n] + Descent(g, tests, eval, row, g.GetChild(n, eval(tests[n], row)))
  {
  }

  /** The walk `Descent` computes follows the split tests and stops at the
      first leaf. */
  lemma {:induction false} DescentFollowsTests<S>(g: Graph, tests: map<nat, S>, eval: (S, seq<real>) -> Branch,
                                                  row: seq<real>, n: nat)
    requires Traversable(g, tests) && n < g.NumNodes()
    ensures IsDescent(g, tests, eval, row, Descent(g, tests, eval, row, n))
    decreases g.NumNodes() - n
  {
    if g.OutDegree(n) > 0 {
      var c := g.GetChild(n, eval(tests[n], row));
      DescentFollowsTests(g, tests, eval, row, c);
      var q: seq<nat> := Descent(g, tests, eval, row, c);
      var p: seq<nat> := Descent(g, tests, eval, row, n);
      assert p == [n] + q;
      forall m | 0 <= m < |p| ensures p[m] < g.NumNodes() {
        if m > 0 { assert p[m] == q[m - 1]; }
      }
      forall m | 0 <= m < |p| - 1
        ensures g.OutDegree(p[m]) > 0 && p[m + 1] == g.GetChild(p[m], eval(tests[p[m]], row))
      {
        if m > 0 { assert p[m] == q[m - 1] && p[m + 1] == q[m]; }
      }
    }
  }

  /** A walk that follows the split tests is the walk `Descent` computes: the
      leaf and the comparison count are determined by the forest and the row. */
  lemma {:induction false} DescentUnique<S>(g: Graph, tests: map<nat, S>, eval: (S, seq<real>) -> Branch,
                                            row: seq<real>, p: seq<nat>)
    requires Traversable(g, tests) && IsDescent(g, tests, eval, row, p)
    ensures p == Descent(g, tests, eval, row, p[0])
    ensures Leaf(g, tests, eval, row, p[0]) == p[|p| - 1]
    ensures Comparisons(g, tests, eval, row, p[0]) == |p| - 1
    decreases |p|
  {
    if |p| > 1 {
      assert IsDescent(g, tests, eval, row, p[1..]);
      DescentUnique(g, tests, eval, row, p[1..]);
    }
  }

  /** Node ids grow along a walk, so the walk never revisits a node. */
  lemma {:induction false} DescentIncreasing<S>(g: Graph, tests: map<nat, S>, eval: (S, seq<real>) -> Branch,
                                                row: seq<real>, n: nat)
    requires Traversable(g, tests) && n < g.NumNodes()
    ensures Increasing(Descent(g, tests, eval, row, n))
    decreases g.NumNodes() - n
  {
    var p := Descent(g, tests, eval, row, n);
    if g.OutDegree(n) > 0 {
      var c := g.GetChild(n, eval(tests[n], row));
      DescentIncreasing(g, tests, eval, row, c);
      assert p == [n] + Descent(g, tests, eval, row, c);
      forall i, j | 0 <= i < j < |p| ensures p[i] < p[j] {
        if i == 0 {
          assert p[1] == c && c <= p[j];
        }
      }
    }
  }

  /** A walk from node `n` makes fewer comparisons than there are nodes
      above `n`: node ids grow along every walk. */
  lemma {:induction false} ComparisonsBound<S>(g: Graph, tests: map<nat, S>, eval: (S, seq<real>) -> Branch,
                                               row: seq<real>, n: nat)
    requires Traversable(g, tests) && n < g.NumNodes()
    ensures Comparisons(g, tests, eval, row, n) < g.NumNodes() - n
    decreases g.NumNodes() - n
  {
    if g.OutDegree(n) > 0 {
      var c := g.GetChild(n, eval(tests[n], row));
      ComparisonsBound(g, tests, eval, row, c);
      assert Descent(g, tests, eval, row, n) == [n] + Descent(g, tests, eval, row, c);
    }
  }

  /** The leaf tree `k` sends `row` to. */
  function TreeLeaf<S>(g: Graph, tests: map<nat, S>, eval: (S, seq<real>) -> Branch,
                       row: seq<real>, k: nat): (leaf: nat)
    requires Traversable(g, tests) && k < g.NumRoots()
    ensures leaf < g.NumNodes() && g.OutDegree(leaf) == 0
  {
    Leaf(g, tests, eval, row, g.GetRoot(k))
  }

  /** The split comparisons one instance costs over the trees `trees`. */
  function InstanceComparisons<S>(g: Graph, tests: map<nat, S>, eval: (S, seq<real>) -> Branch,
                                  row: seq<real>, trees: seq<nat>): (c: nat)
    requires Traversable(g, tests) && AllBelow(trees, g.NumRoots())
  {
    if trees == [] then 0
    else
      var last := trees[|trees| - 1];
      InstanceComparisons(g, tests, eval, row, trees[..|trees| - 1])
        + Comparisons(g, tests, eval, row, g.GetRoot(last))
  }

  /** The split comparisons all instances cost over the trees `trees`. */
  function TotalComparisons<S>(g: Graph, tests: map<nat, S>, eval: (S, seq<real>) -> Branch,
                               rows: seq<seq<real>>, trees: seq<nat>): (c: nat)
    requires Traversable(g, tests) && AllBelow(trees, g.NumRoots())
  {
    if rows == [] then 0
    else
      TotalComparisons(g, tests, eval, rows[..|rows| - 1], trees)
        + InstanceComparisons(g, tests, eval, rows[|rows| - 1], trees)
  }

  /** A walk from `start` that has passed the nodes `walked` and stands on
      the leaf `node` has reached `start`'s leaf, with one comparison per
      node passed. */
  lemma WalkEnds<S>(g: Graph, tests: map<nat, S>, eval: (S, seq<real>) -> Branch,
                    row: seq<real>, start: nat, walked: seq<nat>, node: nat)
    requires Traversable(g, tests) && start < g.NumNodes() && node < g.NumNodes()
    requires g.OutDegree(node) == 0
    requires Descent(g, tests, eval, row, start) == walked + Descent(g, tests, eval, row, node)
    ensures Leaf(g, tests, eval, row, start) == node
    ensures Comparisons(g, tests, eval, row, start) == |walked|
  {
    assert Descent(g, tests, eval, row, node) == [node];
  }

  /** One more tree adds the comparisons of its walk. */
  lemma InstanceComparisonsLast<S>(g: Graph, tests: map<nat, S>, eval: (S, seq<real>) -> Branch,
                                   row: seq<real>, trees: seq<nat>, j: nat)
    requires Traversable(g, tests) && AllBelow(trees, g.NumRoots()) && j < |trees|
    ensures InstanceComparisons(g, tests, eval, row, trees[..j + 1])
         == InstanceComparisons(g, tests, eval, row, trees[..j]) + Comparisons(g, tests, eval, row, g.GetRoot(trees[j]))
  {
    assert trees[..j + 1][..j] == trees[..j];
  }

  /** One more instance adds the comparisons of its walks. */
  lemma TotalComparisonsLast<S>(g: Graph, tests: map<nat, S>, eval: (S, seq<real>) -> Branch,
                                rows: seq<seq<real>>, from: nat, i: nat, trees: seq<nat>)
    requires Traversable(g, tests) && AllBelow(trees, g.NumRoots()) && from <= i < |rows|
    ensures TotalComparisons(g, tests, eval, rows[from..i + 1], trees)
         == TotalComparisons(g, tests, eval, rows[from..i], trees) + InstanceComparisons(g, tests, eval, rows[i], trees)
  {
    var window := rows[from..i + 1];
    assert window[..|window| - 1] == rows[from..i];
    assert window[|window| - 1] == rows[i];
  }

  /** The comparisons of the first `i + 1` instances are those of the first
      `i` plus those of instance `i` alone. */
  lemma SingleInstanceComparisons<S>(g: Graph, tests: map<nat, S>, eval: (S, seq<real>) -> Branch,
                                     rows: seq<seq<real>>, i: nat, trees: seq<nat>)
    requires Traversable(g, tests) && AllBelow(trees, g.NumRoots()) && i < |rows|
    ensures TotalComparisons(g, tests, eval, rows[..i + 1], trees)
         == TotalComparisons(g, tests, eval, rows[..i], trees) + TotalComparisons(g, tests, eval, rows[i..i + 1], trees)
  {
    assert rows[..i + 1][..i] == rows[..i];
    assert rows[i..i + 1][..0] == [];
  }

  /** Merging keeps the forest walkable: the appended internal nodes bring
      their split tests along under their shifted ids. */
  lemma MergeTraversable<S>(g: Graph, tg: map<nat, S>, other: Graph, to: map<nat, S>)
    requires Traversable(g, tg) && Traversable(other, to)
    ensures Traversable(g.Merge(other), tg + ShiftKeys(to, g.NumNodes()))
  {
    var m := g.Merge(other);
    var offset := g.NumNodes();
    MergeValid(g, other);
    forall n | 0 <= n < m.NumNodes() && m.OutDegree(n) > 0
      ensures n in tg + ShiftKeys(to, offset)
    {
      MergeNode(g, other, n);
      if n >= offset {
        assert other.OutDegree(n - offset) > 0;
        MergedLookupHigh(tg, to, n - offset, offset);
      } else {
        assert g.OutDegree(n) > 0;
        MergedLookupLow(tg, to, n, offset);
      }
    }
  }

  /** Merging keeps every leaf covered by a response. */
  lemma MergeLeavesCovered<R>(g: Graph, rg: map<nat, R>, other: Graph, ro: map<nat, R>)
    requires LeavesCovered(g, rg) && LeavesCovered(other, ro)
    ensures LeavesCovered(g.Merge(other), rg + ShiftKeys(ro, g.NumNodes()))
  {
    var m := g.Merge(other);
    var offset := g.NumNodes();
    forall n | 0 <= n < m.NumNodes() && m.OutDegree(n) == 0
      ensures n in rg + ShiftKeys(ro, offset)
    {
      MergeNode(g, other, n);
      if n >= offset {
        assert other.OutDegree(n - offset) == 0;
        MergedLookupHigh(rg, ro, n - offset, offset);
      } else {
        assert g.OutDegree(n) == 0;
        MergedLookupLow(rg, ro, n, offset);
      }
    }
  }

  /** Forest `o` sits inside forest `m` at node offset `offset`: each node of
      `o` appears in `m` with its children and its split test, ids shifted. */
  ghost predicate Embeds<S>(m: Graph, tm: map<nat, S>, o: Graph, to: map<nat, S>, offset: nat)
    requires Traversable(o, to)
  {
    && o.NumNodes() + offset <= m.NumNodes()
    && (forall n {:trigger o.children[n]} :: 0 <= n < o.NumNodes() ==>
          m.children[n + offset] == Shift(o.children[n], offset))
    && (forall n {:trigger o.OutDegree(n)} :: 0 <= n < o.NumNodes() && o.OutDegree(n) > 0 ==>
          n + offset in tm && tm[n + offset] == to[n])
  }

  /** One step of a walk in an embedded forest: a leaf stays a leaf, and an
      internal node's test sends the row to the shifted child. */
  lemma EmbeddedStep<S>(m: Graph, tm: map<nat, S>, o: Graph, to: map<nat, S>, offset: nat,
                        eval: (S, seq<real>) -> Branch, row: seq<real>, n: nat)
    requires Traversable(m, tm) && Traversable(o, to) && Embeds(m, tm, o, to, offset)
    requires n < o.NumNodes()
    ensures n + offset < m.NumNodes()
    ensures m.OutDegree(n + offset) == o.OutDegree(n)
    ensures o.OutDegree(n) > 0 ==>
              m.GetChild(n + offset, eval(tm[n + offset], row)) == o.GetChild(n, eval(to[n], row)) + offset
  {
    assert m.children[n + offset] == Shift(o.children[n], offset);
    if o.OutDegree(n) > 0 {
      assert tm[n + offset] == to[n];
    }
  }

  /** A walk in an embedded forest is, ids shifted, the walk in the forest
      that embeds it. */
  lemma {:induction false} DescentEmbedded<S>(m: Graph, tm: map<nat, S>, o: Graph, to: map<nat, S>, offset: nat,
                                              eval: (S, seq<real>) -> Branch, row: seq<real>, n: nat)
    requires Traversable(m, tm) && Traversable(o, to) && Embeds(m, tm, o, to, offset)
    requires n < o.NumNodes()
    ensures Descent(m, tm, eval, row, n + offset) == Shift(Descent(o, to, eval, row, n), offset)
    decreases o.NumNodes() - n
  {
    EmbeddedStep(m, tm, o, to, offset, eval, row, n);
    if o.OutDegree(n) > 0 {
      var c := o.GetChild(n, eval(to[n], row));
      DescentEmbedded(m, tm, o, to, offset, eval, row, c);
      DescentStep(o, to, eval, row, n);
      DescentStep(m, tm, eval, row, n + offset);
      ShiftCons(n, Descent(o, to, eval, row, c), offset);
    } else {
      ShiftSingle(n, offset);
    }
  }

  /** This forest sits at offset 0 inside its merge with `other`. */
  lemma MergeEmbedsLeft<S>(g: Graph, tg: map<nat, S>, other: Graph, to: map<nat, S>)
    requires Traversable(g, tg)
    ensures Embeds(g.Merge(other), tg + ShiftKeys(to, g.NumNodes()), g, tg, 0)
  {
    var m := g.Merge(other);
    forall k {:trigger g.children[k]} | 0 <= k < g.NumNodes() ensures m.children[k + 0] == Shift(g.children[k], 0) {
      MergeNode(g, other, k);
      ShiftZero(g.children[k]);
    }
    forall k {:trigger g.OutDegree(k)} | 0 <= k < g.NumNodes() && g.OutDegree(k) > 0
      ensures k + 0 in tg + ShiftKeys(to, g.NumNodes()) && (tg + ShiftKeys(to, g.NumNodes()))[k + 0] == tg[k]
    {
      MergedLookupLow(tg, to, k, g.NumNodes());
    }
  }

  /** The other forest sits at offset `g.NumNodes()` inside the merge. */
  lemma MergeEmbedsRight<S>(g: Graph, tg: map<nat, S>, other: Graph, to: map<nat, S>)
    requires Traversable(other, to)
    ensures Embeds(g.Merge(other), tg + ShiftKeys(to, g.NumNodes()), other, to, g.NumNodes())
  {
    var offset := g.NumNodes();
    forall k {:trigger other.children[k]} | 0 <= k < other.NumNodes()
      ensures g.Merge(other).children[k + offset] == Shift(other.children[k], offset)
    {
      MergeNode(g, other, k + offset);
    }
    forall k {:trigger other.OutDegree(k)} | 0 <= k < other.NumNodes() && other.OutDegree(k) > 0
      ensures k + offset in tg + ShiftKeys(to, offset) && (tg + ShiftKeys(to, offset))[k + offset] == to[k]
    {
      MergedLookupHigh(tg, to, k, offset);
    }
  }

  /** In the merged forest, a walk from one of this forest's nodes is the
      walk it made before the merge.
      The merged forest's walkability, required so that the walk in it is
      defined, is what `MergeTraversable` proves. */
  lemma DescentMergeLeft<S>(g: Graph, tg: map<nat, S>, other: Graph, to: map<nat, S>,
                            eval: (S, seq<real>) -> Branch, row: seq<real>, n: nat)
    requires Traversable(g, tg) && Traversable(other, to) && n < g.NumNodes()
    requires Traversable(g.Merge(other), tg + ShiftKeys(to, g.NumNodes()))
    ensures Descent(g.Merge(other), tg + ShiftKeys(to, g.NumNodes()), eval, row, n)
         == Descent(g, tg, eval, row, n)
  {
    MergeEmbedsLeft(g, tg, other, to);
    DescentEmbedded(g.Merge(other), tg + ShiftKeys(to, g.NumNodes()), g, tg, 0, eval, row, n);
    ShiftZero(Descent(g, tg, eval, row, n));
  }

  /** In the merged forest, a walk from an appended node is the walk the
      other forest made from the node before the merge, with shifted ids.
      The merged forest's walkability, required so that the walk in it is
      defined, is what `MergeTraversable` proves. */
  lemma DescentMergeRight<S>(g: Graph, tg: map<nat, S>, other: Graph, to: map<nat, S>,
                             eval: (S, seq<real>) -> Branch, row: seq<real>, n: nat)
    requires Traversable(g, tg) && Traversable(other, to) && n < other.NumNodes()
    requires Traversable(g.Merge(other), tg + ShiftKeys(to, g.NumNodes()))
    ensures Descent(g.Merge(other), tg + ShiftKeys(to, g.NumNodes()), eval, row, n + g.NumNodes())
         == Shift(Descent(other, to, eval, row, n), g.NumNodes())
  {
    MergeEmbedsRight(g, tg, other, to);
    DescentEmbedded(g.Merge(other), tg + ShiftKeys(to, g.NumNodes()), other, to, g.NumNodes(), eval, row, n);
  }

  /** A tree whose root is an embedded root, shifted, reaches the embedded
      tree's leaf, shifted. */
  lemma EmbeddedTreeLeaf<S>(m: Graph, tm: map<nat, S>, o: Graph, to: map<nat, S>, offset: nat,
                            eval: (S, seq<real>) -> Branch, row: seq<real>, k: nat, km: nat)
    requires Traversable(m, tm) && Traversable(o, to) && Embeds(m, tm, o, to, offset)
    requires k < o.NumRoots() && km < m.NumRoots() && m.roots[km] == o.roots[k] + offset
    ensures TreeLeaf(m, tm, eval, row, km) == TreeLeaf(o, to, eval, row, k) + offset
  {
    var r := o.GetRoot(k);
    DescentEmbedded(m, tm, o, to, offset, eval, row, r);
    ShiftLast(Descent(o, to, eval, row, r), offset);
    assert m.GetRoot(km) == r + offset;
  }

  /** The leaves of `o` keep their responses inside `rm`, ids shifted. */
  ghost predicate EmbedsResponses<R>(rm: map<nat, R>, o: Graph, ro: map<nat, R>, offset: nat)
    requires LeavesCovered(o, ro)
  {
    forall n {:trigger o.OutDegree(n)} :: 0 <= n < o.NumNodes() && o.OutDegree(n) == 0 ==>
      n + offset in rm && rm[n + offset] == ro[n]
  }

  /** This forest's leaves keep their responses in the merged responses. */
  lemma MergeEmbedsResponsesLeft<R>(g: Graph, rg: map<nat, R>, ro: map<nat, R>)
    requires LeavesCovered(g, rg)
    ensures EmbedsResponses(rg + ShiftKeys(ro, g.NumNodes()), g, rg, 0)
  {
    forall n {:trigger g.OutDegree(n)} | 0 <= n < g.NumNodes() && g.OutDegree(n) == 0
      ensures n + 0 in rg + ShiftKeys(ro, g.NumNodes()) && (rg + ShiftKeys(ro, g.NumNodes()))[n + 0] == rg[n]
    {
      MergedLookupLow(rg, ro, n, g.NumNodes());
    }
  }

  /** The other forest's leaves keep their responses, ids shifted. */
  lemma MergeEmbedsResponsesRight<R>(g: Graph, rg: map<nat, R>, other: Graph, ro: map<nat, R>)
    requires LeavesCovered(other, ro)
    ensures EmbedsResponses(rg + ShiftKeys(ro, g.NumNodes()), other, ro, g.NumNodes())
  {
    forall n {:trigger other.OutDegree(n)} | 0 <= n < other.NumNodes() && other.OutDegree(n) == 0
      ensures n + g.NumNodes() in rg + ShiftKeys(ro, g.NumNodes())
           && (rg + ShiftKeys(ro, g.NumNodes()))[n + g.NumNodes()] == ro[n]
    {
      MergedLookupHigh(rg, ro, n, g.NumNodes());
    }
  }

  /** A tree rooted at an embedded root, shifted, answers with the embedded
      tree's response. */
  lemma EmbeddedTreeResponse<S, R>(m: Graph, tm: map<nat, S>, rm: map<nat, R>,
                                   o: Graph, to: map<nat, S>, ro: map<nat, R>, offset: nat,
                                   eval: (S, seq<real>) -> Branch, row: seq<real>, k: nat, km: nat)
    requires Traversable(m, tm) && LeavesCovered(m, rm)
    requires Traversable(o, to) && LeavesCovered(o, ro)
    requires Embeds(m, tm, o, to, offset) && EmbedsResponses(rm, o, ro, offset)
    requires k < o.NumRoots() && km < m.NumRoots() && m.roots[km] == o.roots[k] + offset
    ensures rm[TreeLeaf(m, tm, eval, row, km)] == ro[TreeLeaf(o, to, eval, row, k)]
  {
    EmbeddedTreeLeaf(m, tm, o, to, offset, eval, row, k, km);
  }
}
