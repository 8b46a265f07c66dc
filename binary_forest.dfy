/** The directed binary forest the random forest is stored in, as an arena:
    nodes are the ids 0 .. NumNodes() - 1, `children[n]` lists node n's
    children by branch index (empty for a leaf), and `roots` lists the tree
    roots in tree-index order. */
module BinaryForest {

  datatype Graph = Graph(children: seq<seq<nat>>, roots: seq<nat>) {

    function NumNodes(): nat { |children| }

    function NumRoots(): nat { |roots| }

    function OutDegree(n: nat): nat
      requires n < NumNodes()
    {
      |children[n]|
    }

    function GetRoot(k: nat): nat
      requires k < NumRoots()
    {
      roots[k]
    }

    function GetChild(n: nat, b: nat): nat
      requires n < NumNodes() && b < OutDegree(n)
    {
      children[n][b]
    }

    /** Every node is a leaf or has exactly two children, every id names a
        node, and a child's id is larger than its parent's, so that every walk
        downwards ends (node ids are handed out as nodes are added, parent
        first). */
    predicate Valid()
    {
      && (forall n :: 0 <= n < |children| ==> |children[n]| == 0 || |children[n]| == 2)
      && (forall n, b :: 0 <= n < |children| && 0 <= b < |children[n]| ==> n < children[n][b] < |children|)
      && (forall k :: 0 <= k < |roots| ==> roots[k] < |children|)
    }

    /** Appends `other`: its node ids are shifted by this graph's node count,
        and its roots follow this graph's roots in their original order. */
    function Merge(other: Graph): (m: Graph)
      ensures m.NumNodes() == NumNodes() + other.NumNodes()
      ensures m.NumRoots() == NumRoots() + other.NumRoots()
    {
      Graph(AppendShifted(children, other.children, |children|), roots + Shift(other.roots, |children|))
    }
  }

  /** The graph with no nodes and no roots. */
  const EmptyGraph := Graph([], [])

  /** The ids `ids`, each moved up by `offset`. */
  function Shift(ids: seq<nat>, offset: nat): (r: seq<nat>)
    ensures |r| == |ids|
    ensures forall i :: 0 <= i < |ids| ==> r[i] == ids[i] + offset
  {
    seq(|ids|, i requires 0 <= i < |ids| => ids[i] + offset)
  }

  /** The child lists `cs` followed by the child lists `os`, every id in
      `os` moved up by `offset`. */
  function AppendShifted(cs: seq<seq<nat>>, os: seq<seq<nat>>, offset: nat): (r: seq<seq<nat>>)
    ensures |r| == |cs| + |os|
    decreases |os|
  {
    if os == [] then cs else AppendShifted(cs, os[..|os| - 1], offset) + [Shift(os[|os| - 1], offset)]
  }

  /** Entry `n` of `AppendShifted`: an entry of `cs`, or past them the
      shifted entry of `os`. */
  lemma {:induction false} AppendShiftedAt(cs: seq<seq<nat>>, os: seq<seq<nat>>, offset: nat, n: nat)
    requires n < |cs| + |os|
    ensures AppendShifted(cs, os, offset)[n] == if n < |cs| then cs[n] else Shift(os[n - |cs|], offset)
    decreases |os|
  {
    if os != [] && n < |cs| + |os| - 1 {
      AppendShiftedAt(cs, os[..|os| - 1], offset, n);
    }
  }

  /** Shifting distributes over putting an id in front. */
  lemma ShiftCons(x: nat, ids: seq<nat>, offset: nat)
    ensures Shift([x] + ids, offset) == [x + offset] + Shift(ids, offset)
  {
    var l := Shift([x] + ids, offset);
    var r := [x + offset] + Shift(ids, offset);
    assert |l| == |r|;
    forall i | 0 <= i < |l| ensures l[i] == r[i] {
      if i > 0 { assert ([x] + ids)[i] == ids[i - 1]; }
    }
  }

  /** Shifting a single id. */
  lemma ShiftSingle(x: nat, offset: nat)
    ensures Shift([x], offset) == [x + offset]
  {
  }

  /** The last id, shifted, is the last of the shifted ids. */
  lemma ShiftLast(ids: seq<nat>, offset: nat)
    requires |ids| > 0
    ensures |Shift(ids, offset)| == |ids|
    ensures Shift(ids, offset)[|ids| - 1] == ids[|ids| - 1] + offset
  {
  }

  /** Shifting by zero changes nothing. */
  lemma ShiftZero(ids: seq<nat>)
    ensures Shift(ids, 0) == ids
  {
  }

  /** Node `n` of a merge is node `n` of `g` or, past `g`'s nodes, the
      corresponding node of `other` with its children's ids shifted. */
  lemma MergeNode(g: Graph, other: Graph, n: nat)
    requires n < g.NumNodes() + other.NumNodes()
    ensures g.Merge(other).children[n]
         == if n < g.NumNodes() then g.children[n] else Shift(other.children[n - g.NumNodes()], g.NumNodes())
  {
    AppendShiftedAt(g.children, other.children, g.NumNodes(), n);
  }

  /** Tree `k` of a merge is tree `k` of `g` or, past `g`'s trees, the
      corresponding tree of `other` with its root's id shifted. */
  lemma MergeRoot(g: Graph, other: Graph, k: nat)
    requires k < g.NumRoots() + other.NumRoots()
    ensures g.Merge(other).roots[k]
         == if k < g.NumRoots() then g.roots[k] else other.roots[k - g.NumRoots()] + g.NumNodes()
  {
  }

  /** Merging two valid graphs gives a valid graph. */
  lemma MergeValid(g: Graph, other: Graph)
    requires g.Valid() && other.Valid()
    ensures g.Merge(other).Valid()
  {
    var m := g.Merge(other);
    var offset := g.NumNodes();
    forall n, b | 0 <= n < |m.children| && 0 <= b < |m.children[n]|
      ensures n < m.children[n][b] < |m.children|
    {
      MergeNode(g, other, n);
      if n >= offset {
        var c := other.children[n - offset];
        assert m.children[n][b] == c[b] + offset;
        assert n - offset < c[b] < |other.children|;
      }
    }
    forall n | 0 <= n < |m.children|
      ensures |m.children[n]| == 0 || |m.children[n]| == 2
    {
      MergeNode(g, other, n);
    }
    forall k | 0 <= k < |m.roots|
      ensures m.roots[k] < |m.children|
    {
      MergeRoot(g, other, k);
    }
  }
}
