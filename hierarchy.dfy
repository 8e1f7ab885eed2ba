/**
 * The shape of a d3 hierarchy: every node has an identity and an ordered list
 * of children. The numeric fields d3 and the layout attach to a node live in a
 * separate store (see `NodeAttrs`), keyed by the node's identity, because the
 * source writes them in place while the shape never changes.
 *
 * `descendants()` in d3 is breadth first: the node itself, then its children,
 * then its grandchildren, each level left to right. It is modelled as the
 * concatenation of the levels `Level(t, 0) + Level(t, 1) + ...`.
 */
module Hierarchy {
  import opened Wrappers

  type NodeId = nat

  datatype Tree = Tree(id: NodeId, children: seq<Tree>)

  /** d3 leaves have no `children` array. */
  predicate IsLeaf(t: Tree) {
    |t.children| == 0
  }

  /**
   * A node reached from a start node, with the ids of the nodes above it up to
   * and including the start node, nearest first. `node.path(start)` is the
   * node followed by `above`, and `node.depth - start.depth` is `|above|`.
   */
  datatype Visit = Visit(node: Tree, above: seq<NodeId>)

  /** Pushes the visits one level down: `p` becomes the topmost node above each. */
  function Lift(vs: seq<Visit>, p: NodeId): (r: seq<Visit>)
    ensures |r| == |vs|
    ensures forall i :: 0 <= i < |vs| ==> r[i] == Visit(vs[i].node, vs[i].above + [p])
  {
    seq(|vs|, i requires 0 <= i < |vs| => Visit(vs[i].node, vs[i].above + [p]))
  }

  /** The nodes exactly `k` levels below `t`, left to right. */
  function Level(t: Tree, k: nat): seq<Visit>
    decreases t
  {
    if k == 0 then [Visit(t, [])] else Lift(LevelOf(t.children, k - 1), t.id)
  }

  function LevelOf(ts: seq<Tree>, k: nat): seq<Visit>
    decreases ts
  {
    if ts == [] then [] else Level(ts[0], k) + LevelOf(ts[1..], k)
  }

  function Max(a: nat, b: nat): nat {
    if a < b then b else a
  }

  /** d3's `height`: 0 for a leaf, one more than the highest child otherwise. */
  function Height(t: Tree): nat
    decreases t
  {
    if t.children == [] then 0 else 1 + MaxHeight(t.children)
  }

  function MaxHeight(ts: seq<Tree>): nat
    decreases ts
  {
    if ts == [] then 0 else Max(Height(ts[0]), MaxHeight(ts[1..]))
  }

  /** Levels 0 to `k` of `t`, in breadth-first order. */
  function Levels(t: Tree, k: nat): seq<Visit> {
    if k == 0 then Level(t, 0) else Levels(t, k - 1) + Level(t, k)
  }

  /** d3's `node.descendants()`: breadth first, starting with the node itself. */
  function Descendants(t: Tree): seq<Visit> {
    Levels(t, Height(t))
  }

  /** The visits whose node is a leaf, in order. */
  function FilterLeaves(vs: seq<Visit>): seq<Visit> {
    if vs == [] then []
    else if IsLeaf(vs[0].node) then [vs[0]] + FilterLeaves(vs[1..])
    else FilterLeaves(vs[1..])
  }

  /** The visits exactly `k` levels below the start node, in order. */
  function FilterDepth(vs: seq<Visit>, k: nat): seq<Visit> {
    if vs == [] then []
    else if |vs[0].above| == k then [vs[0]] + FilterDepth(vs[1..], k)
    else FilterDepth(vs[1..], k)
  }

  /** The leaf descendants of `t`, in the order `descendants()` lists them. */
  function Leaves(t: Tree): seq<Visit> {
    FilterLeaves(Descendants(t))
  }

  function Ids(vs: seq<Visit>): (r: seq<NodeId>)
    ensures |r| == |vs| && forall i :: 0 <= i < |vs| ==> r[i] == vs[i].node.id
  {
    seq(|vs|, i requires 0 <= i < |vs| => vs[i].node.id)
  }

  /** The ids of the nodes `t.descendants()` lists, in that order. */
  function SubtreeIds(t: Tree): seq<NodeId> {
    Ids(Descendants(t))
  }

  /** Every node id of the tree, with multiplicity. */
  function AllIds(t: Tree): multiset<NodeId>
    decreases t
  {
    multiset{t.id} + AllIdsOf(t.children)
  }

  function AllIdsOf(ts: seq<Tree>): multiset<NodeId>
    decreases ts
  {
    if ts == [] then multiset{} else AllIds(ts[0]) + AllIdsOf(ts[1..])
  }

  /** d3 nodes are distinct objects: no id occurs twice. */
  ghost predicate WellFormed(t: Tree) {
    forall id :: AllIds(t)[id] <= 1
  }

  /** The leaf ids of the tree, with multiplicity. */
  function LeafIds(t: Tree): multiset<NodeId>
    decreases t
  {
    if IsLeaf(t) then multiset{t.id} else LeafIdsOf(t.children)
  }

  function LeafIdsOf(ts: seq<Tree>): multiset<NodeId>
    decreases ts
  {
    if ts == [] then multiset{} else LeafIds(ts[0]) + LeafIdsOf(ts[1..])
  }

  /** The ids of leaves exactly `k` levels below `t`. */
  function LeafIdsAt(t: Tree, k: nat): multiset<NodeId>
    decreases t
  {
    if k == 0 then (if IsLeaf(t) then multiset{t.id} else multiset{})
    else LeafIdsAtOf(t.children, k - 1)
  }

  function LeafIdsAtOf(ts: seq<Tree>, k: nat): multiset<NodeId>
    decreases ts
  {
    if ts == [] then multiset{} else LeafIdsAt(ts[0], k) + LeafIdsAtOf(ts[1..], k)
  }

  /** The ids of leaves at least `k` levels below `t`. */
  function DeepLeafIds(t: Tree, k: nat): multiset<NodeId>
    decreases t
  {
    if k == 0 then LeafIds(t) else DeepLeafIdsOf(t.children, k - 1)
  }

  function DeepLeafIdsOf(ts: seq<Tree>, k: nat): multiset<NodeId>
    decreases ts
  {
    if ts == [] then multiset{} else DeepLeafIds(ts[0], k) + DeepLeafIdsOf(ts[1..], k)
  }

  /** The leaf ids below each visited node, summed over the visits. */
  function SumLeafIds(vs: seq<Visit>): multiset<NodeId> {
    if vs == [] then multiset{} else LeafIds(vs[0].node) + SumLeafIds(vs[1..])
  }

  type Color = string

  /**
   * The fields of a d3 node that the source reads or writes: `value` and
   * `data.uncertainty` come with the data, `r`, `x` and `y` from d3 and the
   * layout, the paddings from `getLayerClusters`, `color` from the colouring.
   * A number the node does not carry reads as 0, which every falsy test in the
   * source treats the same way.
   */
  datatype NodeAttrs = NodeAttrs(
    value: real,
    dataUncertainty: real,
    r: real,
    uncertainty: real,
    x: real,
    y: real,
    contourPadding: real,
    planckPadding: real,
    color: Option<Color>)

  const Blank := NodeAttrs(0.0, 0.0, 0.0, 0.0, 0.0, 0.0, 0.0, 0.0, None)

  /** The fields of node `id`. */
  function Get(attrs: map<NodeId, NodeAttrs>, id: NodeId): NodeAttrs {
    if id in attrs then attrs[id] else Blank
  }

  /**
   * A d3 hierarchy root: the fixed shape of the tree and the fields of its
   * nodes, which the layout, the contour driver and the colouring write in place.
   */
  class HierarchyRoot {
    const tree: Tree
    var attrs: map<NodeId, NodeAttrs>

    constructor (tree: Tree, attrs: map<NodeId, NodeAttrs>)
      ensures this.tree == tree && this.attrs == attrs
    {
      this.tree := tree;
      this.attrs := attrs;
    }
  }

  /** The current fields of the nodes `ids`. */
  function NodesOf(attrs: map<NodeId, NodeAttrs>, ids: seq<NodeId>): (r: seq<NodeAttrs>)
    ensures |r| == |ids| && forall i :: 0 <= i < |ids| ==> r[i] == Get(attrs, ids[i])
  {
    seq(|ids|, i requires 0 <= i < |ids| => Get(attrs, ids[i]))
  }

  predicate Distinct(xs: seq<NodeId>) {
    forall i, j :: 0 <= i < j < |xs| ==> xs[i] != xs[j]
  }

  // ---------------------------------------------------------------------
  // Levels and depth
  // ---------------------------------------------------------------------

  /** Every node of `Level(t, k)` is `k` levels below `t`, and `t` is the topmost node above it. */
  lemma {:induction false} LevelDepth(t: Tree, k: nat)
    ensures forall v :: v in Level(t, k) ==> |v.above| == k
    ensures 0 < k ==> forall v :: v in Level(t, k) ==> v.above[|v.above| - 1] == t.id
    decreases t
  {
    if k > 0 {
      LevelOfDepth(t.children, k - 1);
    }
  }

  lemma {:induction false} LevelOfDepth(ts: seq<Tree>, k: nat)
    ensures forall v :: v in LevelOf(ts, k) ==> |v.above| == k
    decreases ts
  {
    if ts != [] {
      LevelDepth(ts[0], k);
      LevelOfDepth(ts[1..], k);
    }
  }

  /** There is nothing below the height of a tree. */
  lemma {:induction false} LevelBeyondHeight(t: Tree, k: nat)
    requires Height(t) < k
    ensures Level(t, k) == []
    decreases t
  {
    if t.children != [] {
      LevelOfBeyondHeight(t.children, k - 1);
    }
  }

  lemma {:induction false} LevelOfBeyondHeight(ts: seq<Tree>, k: nat)
    requires MaxHeight(ts) < k
    ensures LevelOf(ts, k) == []
    decreases ts
  {
    if ts != [] {
      LevelBeyondHeight(ts[0], k);
      LevelOfBeyondHeight(ts[1..], k);
    }
  }

  lemma FilterDepthAppend(a: seq<Visit>, b: seq<Visit>, k: nat)
    ensures FilterDepth(a + b, k) == FilterDepth(a, k) + FilterDepth(b, k)
  {
    if a == [] {
      assert a + b == b;
    } else {
      assert (a + b)[0] == a[0] && (a + b)[1..] == a[1..] + b;
      FilterDepthAppend(a[1..], b, k);
    }
  }

  lemma FilterDepthAll(vs: seq<Visit>, k: nat, j: nat)
    requires forall v :: v in vs ==> |v.above| == j
    ensures FilterDepth(vs, k) == if j == k then vs else []
  {
    if vs != [] {
      assert vs[0] in vs;
      FilterDepthAll(vs[1..], k, j);
      if j == k {
        assert vs == [vs[0]] + vs[1..];
      }
    }
  }

  lemma {:induction false} FilterDepthOfLevels(t: Tree, n: nat, k: nat)
    ensures FilterDepth(Levels(t, n), k) == if k <= n then Level(t, k) else []
  {
    LevelDepth(t, n);
    FilterDepthAll(Level(t, n), k, n);
    if n > 0 {
      FilterDepthAppend(Levels(t, n - 1), Level(t, n), k);
      FilterDepthOfLevels(t, n - 1, k);
    }
  }

  /**
   * The layer nodes `getLayerClusters` starts from: filtering `descendants()`
   * by depth yields exactly the level, left to right.
   */
  lemma LayerNodesAreLevel(t: Tree, k: nat)
    ensures FilterDepth(Descendants(t), k) == Level(t, k)
  {
    FilterDepthOfLevels(t, Height(t), k);
    if Height(t) < k {
      LevelBeyondHeight(t, k);
    }
  }

  // ---------------------------------------------------------------------
  // Leaves as multisets
  // ---------------------------------------------------------------------

  lemma FilterLeavesAppend(a: seq<Visit>, b: seq<Visit>)
    ensures FilterLeaves(a + b) == FilterLeaves(a) + FilterLeaves(b)
  {
    if a == [] {
      assert a + b == b;
    } else {
      assert (a + b)[0] == a[0] && (a + b)[1..] == a[1..] + b;
      FilterLeavesAppend(a[1..], b);
    }
  }

  lemma IdsAppend(a: seq<Visit>, b: seq<Visit>)
    ensures Ids(a + b) == Ids(a) + Ids(b)
  {
  }

  lemma {:induction false} LiftKeepsLeafIds(vs: seq<Visit>, p: NodeId)
    ensures Ids(FilterLeaves(Lift(vs, p))) == Ids(FilterLeaves(vs))
    ensures SumLeafIds(Lift(vs, p)) == SumLeafIds(vs)
  {
    if vs != [] {
      assert Lift(vs, p)[1..] == Lift(vs[1..], p);
      LiftKeepsLeafIds(vs[1..], p);
      assert Ids(FilterLeaves(Lift(vs, p))) == Ids(FilterLeaves([Lift(vs, p)[0]] + Lift(vs, p)[1..]));
    }
  }

  /** The leaves found on level `k` are the leaves exactly `k` levels down. */
  lemma {:induction false} LeafIdsOfLevel(t: Tree, k: nat)
    ensures multiset(Ids(FilterLeaves(Level(t, k)))) == LeafIdsAt(t, k)
    decreases t
  {
    if k > 0 {
      LiftKeepsLeafIds(LevelOf(t.children, k - 1), t.id);
      LeafIdsOfLevelOf(t.children, k - 1);
    }
  }

  lemma {:induction false} LeafIdsOfLevelOf(ts: seq<Tree>, k: nat)
    ensures multiset(Ids(FilterLeaves(LevelOf(ts, k)))) == LeafIdsAtOf(ts, k)
    decreases ts
  {
    if ts != [] {
      FilterLeavesAppend(Level(ts[0], k), LevelOf(ts[1..], k));
      IdsAppend(FilterLeaves(Level(ts[0], k)), FilterLeaves(LevelOf(ts[1..], k)));
      LeafIdsOfLevel(ts[0], k);
      LeafIdsOfLevelOf(ts[1..], k);
    }
  }

  lemma {:induction false} DeepLeafIdsOfZero(ts: seq<Tree>)
    ensures DeepLeafIdsOf(ts, 0) == LeafIdsOf(ts)
  {
    if ts != [] {
      DeepLeafIdsOfZero(ts[1..]);
    }
  }

  /** The leaves at least `k` down are those exactly `k` down and those at least `k + 1` down. */
  lemma {:induction false} DeepLeafIdsSplit(t: Tree, k: nat)
    ensures DeepLeafIds(t, k) == LeafIdsAt(t, k) + DeepLeafIds(t, k + 1)
    decreases t
  {
    if k == 0 {
      DeepLeafIdsOfZero(t.children);
      if IsLeaf(t) {
        assert t.children == [];
      }
    } else {
      DeepLeafIdsOfSplit(t.children, k - 1);
    }
  }

  lemma {:induction false} DeepLeafIdsOfSplit(ts: seq<Tree>, k: nat)
    ensures DeepLeafIdsOf(ts, k) == LeafIdsAtOf(ts, k) + DeepLeafIdsOf(ts, k + 1)
    decreases ts
  {
    if ts != [] {
      DeepLeafIdsSplit(ts[0], k);
      DeepLeafIdsOfSplit(ts[1..], k);
    }
  }

  lemma {:induction false} DeepLeafIdsBeyondHeight(t: Tree, k: nat)
    requires Height(t) < k
    ensures DeepLeafIds(t, k) == multiset{}
    decreases t
  {
    if t.children != [] {
      DeepLeafIdsOfBeyondHeight(t.children, k - 1);
    }
  }

  lemma {:induction false} DeepLeafIdsOfBeyondHeight(ts: seq<Tree>, k: nat)
    requires MaxHeight(ts) < k
    ensures DeepLeafIdsOf(ts, k) == multiset{}
    decreases ts
  {
    if ts != [] {
      DeepLeafIdsBeyondHeight(ts[0], k);
      DeepLeafIdsOfBeyondHeight(ts[1..], k);
    }
  }

  lemma {:induction false} LeavesOfLevels(t: Tree, n: nat)
    ensures multiset(Ids(FilterLeaves(Levels(t, n)))) + DeepLeafIds(t, n + 1) == LeafIds(t)
  {
    DeepLeafIdsSplit(t, n);
    LeafIdsOfLevel(t, n);
    if n > 0 {
      FilterLeavesAppend(Levels(t, n - 1), Level(t, n));
      IdsAppend(FilterLeaves(Levels(t, n - 1)), FilterLeaves(Level(t, n)));
      LeavesOfLevels(t, n - 1);
    }
  }

  /** `descendants()` filtered to leaves lists every leaf of the tree exactly once. */
  lemma LeavesAreLeafIds(t: Tree)
    ensures multiset(Ids(Leaves(t))) == LeafIds(t)
  {
    LeavesOfLevels(t, Height(t));
    DeepLeafIdsBeyondHeight(t, Height(t) + 1);
  }

  /** The subtrees on level `k` hold, between them, exactly the leaves at least `k` down. */
  lemma {:induction false} LevelLeafPartition(t: Tree, k: nat)
    ensures SumLeafIds(Level(t, k)) == DeepLeafIds(t, k)
    decreases t
  {
    if k > 0 {
      LiftKeepsLeafIds(LevelOf(t.children, k - 1), t.id);
      LevelOfLeafPartition(t.children, k - 1);
    }
  }

  lemma SumLeafIdsAppend(a: seq<Visit>, b: seq<Visit>)
    ensures SumLeafIds(a + b) == SumLeafIds(a) + SumLeafIds(b)
  {
    if a == [] {
      assert a + b == b;
    } else {
      assert (a + b)[0] == a[0] && (a + b)[1..] == a[1..] + b;
      SumLeafIdsAppend(a[1..], b);
    }
  }

  lemma {:induction false} LevelOfLeafPartition(ts: seq<Tree>, k: nat)
    ensures SumLeafIds(LevelOf(ts, k)) == DeepLeafIdsOf(ts, k)
    decreases ts
  {
    if ts != [] {
      SumLeafIdsAppend(Level(ts[0], k), LevelOf(ts[1..], k));
      LevelLeafPartition(ts[0], k);
      LevelOfLeafPartition(ts[1..], k);
    }
  }

  /** Leaves below level `k` are among the tree's nodes. */
  lemma {:induction false} DeepLeafIdsWithin(t: Tree, k: nat)
    ensures DeepLeafIds(t, k) <= AllIds(t)
    decreases t
  {
    if k == 0 {
      LeafIdsWithin(t);
    } else {
      DeepLeafIdsOfWithin(t.children, k - 1);
    }
  }

  lemma {:induction false} DeepLeafIdsOfWithin(ts: seq<Tree>, k: nat)
    ensures DeepLeafIdsOf(ts, k) <= AllIdsOf(ts)
    decreases ts
  {
    if ts != [] {
      DeepLeafIdsWithin(ts[0], k);
      DeepLeafIdsOfWithin(ts[1..], k);
    }
  }

  lemma {:induction false} LeafIdsWithin(t: Tree)
    ensures LeafIds(t) <= AllIds(t)
    decreases t
  {
    LeafIdsOfWithin(t.children);
  }

  lemma {:induction false} LeafIdsOfWithin(ts: seq<Tree>)
    ensures LeafIdsOf(ts) <= AllIdsOf(ts)
    decreases ts
  {
    if ts != [] {
      LeafIdsWithin(ts[0]);
      LeafIdsOfWithin(ts[1..]);
    }
  }

  /** A sequence in which no value occurs twice has no repeated entry. */
  lemma DistinctFromCounts(xs: seq<NodeId>)
    requires forall x :: multiset(xs)[x] <= 1
    ensures Distinct(xs)
  {
    forall i, j | 0 <= i < j < |xs|
      ensures xs[i] != xs[j]
    {
      RepeatCounted(xs, i, j);
    }
  }

  lemma RepeatCounted(xs: seq<NodeId>, i: nat, j: nat)
    requires i < j < |xs|
    ensures xs[i] == xs[j] ==> multiset(xs)[xs[j]] >= 2
  {
    assert xs == xs[..j] + [xs[j]] + xs[j + 1..];
    assert xs[i] in xs[..j];
  }
}
