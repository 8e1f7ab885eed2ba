/**
 * `getLayerClusters`: one cluster per node at a given depth, holding that
 * node's leaf descendants, and for each such leaf the padding the contour is
 * drawn with and the padding the physics layout spaces it with.
 *
 * The repository carries two versions: `src/` adds a fixed 5 to the physics
 * padding, the bundled build adds an inter-cluster spacing of half the
 * padding, or nothing for a cluster of one circle. `Variant` selects one.
 */
module LayerClusters {
  import opened Wrappers
  import opened Hierarchy

  /**
   * `{nodes, parent}`: the cluster's leaf ids and its parent, the layer node.
   * `parentOfParent` is the layer node's own parent (`cluster.parent.parent`),
   * absent for the root.
   */
  datatype Cluster = Cluster(nodes: seq<NodeId>, parent: NodeId, parentOfParent: Option<NodeId>)

  datatype Variant = Source | Bundled

  /** One padding write of the inner loop: the leaf and its two new paddings. */
  datatype Assignment = Assignment(leaf: NodeId, contourPadding: real, planckPadding: real)

  /** The nodes at the layer depth, in `descendants()` order. */
  function LayerNodes(root: Tree, layerDepth: nat): seq<Visit> {
    FilterDepth(Descendants(root), layerDepth)
  }

  function ParentOf(w: Visit): Option<NodeId> {
    if w.above == [] then None else Some(w.above[0])
  }

  /**
   * The cluster of a layer node. Its `parent` is the first of
   * `node.ancestors()` at the layer depth, which is the node itself.
   */
  function ClusterOf(w: Visit): Cluster {
    Cluster(Ids(Leaves(w.node)), w.node.id, ParentOf(w))
  }

  function Clusters(root: Tree, layerDepth: nat): seq<Cluster> {
    var ws := LayerNodes(root, layerDepth);
    seq(|ws|, i requires 0 <= i < |ws| => ClusterOf(ws[i]))
  }

  /** All cluster nodes, cluster after cluster. */
  function ClusterNodes(cs: seq<Cluster>): seq<NodeId> {
    if cs == [] then [] else ClusterNodes(cs[..|cs| - 1]) + cs[|cs| - 1].nodes
  }

  /** The nodes strictly between a leaf and its layer node: its path to the layer node without either end. */
  function Between(v: Visit): seq<NodeId> {
    if v.above == [] then [] else v.above[..|v.above| - 1]
  }

  /** The sum of the uncertainties of the nodes `ids`, 0 for none. */
  function UncertaintySum(attrs: map<NodeId, NodeAttrs>, ids: seq<NodeId>): real {
    if ids == [] then 0.0
    else UncertaintySum(attrs, ids[..|ids| - 1]) + Get(attrs, ids[|ids| - 1]).uncertainty
  }

  function ContourPadding(depthDiff: nat, padding: real, uncertaintySum: real, parentUncertainty: real): real {
    depthDiff as real * padding + uncertaintySum + parentUncertainty / 2.0
  }

  /** `+ 5` in `src/`; `interClusterSpacing` in the bundled build. */
  function InterClusterSpacing(variant: Variant, padding: real, clusterSize: nat): real {
    match variant
    case Source => 5.0
    case Bundled => if clusterSize == 1 then 0.0 else padding / 2.0
  }

  function PlanckPadding(variant: Variant, depthDiff: nat, padding: real, uncertaintySum: real,
                         parentUncertainty: real, leafIsParent: bool, clusterSize: nat): real
  {
    depthDiff as real * padding + uncertaintySum + (if leafIsParent then 0.0 else parentUncertainty)
      + InterClusterSpacing(variant, padding, clusterSize)
  }

  /** The paddings of leaf `v` in the cluster of layer node `w`, of `clusterSize` leaves. */
  function AssignmentFor(attrs: map<NodeId, NodeAttrs>, w: Visit, v: Visit, padding: real,
                         variant: Variant, clusterSize: nat): Assignment
  {
    var uncertaintySum := UncertaintySum(attrs, Between(v));
    var parentUncertainty := Get(attrs, w.node.id).uncertainty;
    Assignment(v.node.id,
      ContourPadding(|v.above|, padding, uncertaintySum, parentUncertainty),
      PlanckPadding(variant, |v.above|, padding, uncertaintySum, parentUncertainty, v.above == [], clusterSize))
  }

  function ClusterAssignments(attrs: map<NodeId, NodeAttrs>, w: Visit, padding: real, variant: Variant): seq<Assignment> {
    var leaves := Leaves(w.node);
    seq(|leaves|, j requires 0 <= j < |leaves| => AssignmentFor(attrs, w, leaves[j], padding, variant, |leaves|))
  }

  /** The writes of each layer node's cluster, cluster by cluster. */
  function LayerWrites(attrs: map<NodeId, NodeAttrs>, ws: seq<Visit>, padding: real, variant: Variant): (r: seq<seq<Assignment>>)
    ensures |r| == |ws|
  {
    seq(|ws|, k requires 0 <= k < |ws| => ClusterAssignments(attrs, ws[k], padding, variant))
  }

  /** The sequences of `xss`, one after the other. */
  function Concat<T>(xss: seq<seq<T>>): seq<T> {
    if xss == [] then [] else Concat(xss[..|xss| - 1]) + xss[|xss| - 1]
  }

  /** Every write of `getLayerClusters`, in the order the loops make them. */
  function LayerAssignments(attrs: map<NodeId, NodeAttrs>, root: Tree, layerDepth: nat, padding: real, variant: Variant): seq<Assignment> {
    Concat(LayerWrites(attrs, LayerNodes(root, layerDepth), padding, variant))
  }

  function Apply(attrs: map<NodeId, NodeAttrs>, a: Assignment): map<NodeId, NodeAttrs> {
    attrs[a.leaf := Get(attrs, a.leaf).(contourPadding := a.contourPadding, planckPadding := a.planckPadding)]
  }

  function ApplyAll(attrs: map<NodeId, NodeAttrs>, xs: seq<Assignment>): map<NodeId, NodeAttrs> {
    if xs == [] then attrs else Apply(ApplyAll(attrs, xs[..|xs| - 1]), xs[|xs| - 1])
  }

  function Targets(xs: seq<Assignment>): (r: seq<NodeId>)
    ensures |r| == |xs| && forall k :: 0 <= k < |xs| ==> r[k] == xs[k].leaf
  {
    seq(|xs|, k requires 0 <= k < |xs| => xs[k].leaf)
  }

  /** The node fields after `getLayerClusters` has run on `attrs`. */
  function PaddedAttrs(attrs: map<NodeId, NodeAttrs>, root: Tree, layerDepth: nat, padding: real, variant: Variant): map<NodeId, NodeAttrs> {
    ApplyAll(attrs, LayerAssignments(attrs, root, layerDepth, padding, variant))
  }

  /** A node's fields other than the two paddings. */
  function Unpadded(a: NodeAttrs): NodeAttrs {
    a.(contourPadding := 0.0, planckPadding := 0.0)
  }

  /** Two stores that agree on every node's `uncertainty`. */
  ghost predicate SameUncertainties(a: map<NodeId, NodeAttrs>, b: map<NodeId, NodeAttrs>) {
    forall id :: Get(a, id).uncertainty == Get(b, id).uncertainty
  }

  method GetLayerClusters(h: HierarchyRoot, layerDepth: nat, padding: real, variant: Variant) returns (clusters: seq<Cluster>)
    modifies h
    ensures clusters == Clusters(h.tree, layerDepth)
    ensures h.attrs == PaddedAttrs(old(h.attrs), h.tree, layerDepth, padding, variant)
  {
    ghost var attrs0 := h.attrs;
    var layerNodes := LayerNodes(h.tree, layerDepth);
    ghost var writes := LayerWrites(attrs0, layerNodes, padding, variant);
    ghost var all := Clusters(h.tree, layerDepth);
    ClustersShape(h.tree, layerDepth);
    clusters := [];
    var i := 0;
    while i < |layerNodes|
      invariant i <= |layerNodes|
      invariant clusters == all[..i]
      invariant h.attrs == ApplyAll(attrs0, Concat(writes[..i]))
      invariant SameUncertainties(h.attrs, attrs0)
    {
      ghost var before := h.attrs;
      var cluster := ClusterLayerNode(h, layerNodes[i], padding, variant);
      LayerStep(attrs0, before, h.attrs, layerNodes, writes, i, padding, variant);
      PrefixSnoc(all, i);
      clusters := clusters + [cluster];
      i := i + 1;
    }
    assert all[..i] == all && writes[..i] == writes;
  }

  lemma PrefixSnoc<T>(s: seq<T>, i: nat)
    requires i < |s|
    ensures s[..i + 1] == s[..i] + [s[i]]
  {
  }

  /** The clusters of a layer, indexed like the layer nodes. */
  lemma ClustersShape(root: Tree, layerDepth: nat)
    ensures |Clusters(root, layerDepth)| == |LayerNodes(root, layerDepth)|
    ensures forall k :: 0 <= k < |LayerNodes(root, layerDepth)| ==>
      Clusters(root, layerDepth)[k] == ClusterOf(LayerNodes(root, layerDepth)[k])
  {
  }

  /** One step of the outer loop appends the next cluster's writes. */
  lemma LayerStep(attrs0: map<NodeId, NodeAttrs>, before: map<NodeId, NodeAttrs>, after: map<NodeId, NodeAttrs>,
                  ws: seq<Visit>, writes: seq<seq<Assignment>>, i: nat, padding: real, variant: Variant)
    requires writes == LayerWrites(attrs0, ws, padding, variant) && i < |ws|
    requires before == ApplyAll(attrs0, Concat(writes[..i])) && SameUncertainties(before, attrs0)
    requires after == ApplyAll(before, ClusterAssignments(before, ws[i], padding, variant))
    requires SameUncertainties(after, before)
    ensures after == ApplyAll(attrs0, Concat(writes[..i + 1])) && SameUncertainties(after, attrs0)
  {
    ClusterAssignmentsFrame(before, attrs0, ws[i], padding, variant);
    assert writes[..i + 1][..i] == writes[..i];
    ApplyAllAppend(attrs0, Concat(writes[..i]), writes[i]);
  }

  /** The body of the outer `forEach`: pads the leaves below one layer node and returns its cluster. */
  method ClusterLayerNode(h: HierarchyRoot, node: Visit, padding: real, variant: Variant) returns (cluster: Cluster)
    modifies h
    ensures cluster == ClusterOf(node)
    ensures h.attrs == ApplyAll(old(h.attrs), ClusterAssignments(old(h.attrs), node, padding, variant))
    ensures SameUncertainties(h.attrs, old(h.attrs))
  {
    ghost var attrs0 := h.attrs;
    var clusterNodes := Leaves(node.node);
    var clusterParent := node;
    ghost var todo := ClusterAssignments(attrs0, node, padding, variant);
    var j := 0;
    while j < |clusterNodes|
      invariant j <= |clusterNodes|
      invariant h.attrs == ApplyAll(attrs0, todo[..j])
      invariant SameUncertainties(h.attrs, attrs0)
    {
      var leaf := clusterNodes[j];
      var path := Between(leaf);
      var uncertaintySum := UncertaintySum(h.attrs, path);
      var parentUncertainty := Get(h.attrs, clusterParent.node.id).uncertainty;
      var contourPadding := ContourPadding(|leaf.above|, padding, uncertaintySum, parentUncertainty);
      var planckPadding := PlanckPadding(variant, |leaf.above|, padding, uncertaintySum,
                                         parentUncertainty, leaf.above == [], |clusterNodes|);
      ghost var before := h.attrs;
      h.attrs := h.attrs[leaf.node.id := Get(h.attrs, leaf.node.id).(contourPadding := contourPadding, planckPadding := planckPadding)];
      WriteStep(attrs0, before, h.attrs, node, padding, variant, j);
      j := j + 1;
    }
    assert todo[..j] == todo;
    cluster := Cluster(Ids(clusterNodes), clusterParent.node.id, ParentOf(node));
  }

  /** One step of the inner loop applies the next assignment of the cluster, and leaves uncertainties alone. */
  lemma WriteStep(attrs0: map<NodeId, NodeAttrs>, before: map<NodeId, NodeAttrs>, after: map<NodeId, NodeAttrs>,
                  w: Visit, padding: real, variant: Variant, j: nat)
    requires j < |Leaves(w.node)|
    requires before == ApplyAll(attrs0, ClusterAssignments(attrs0, w, padding, variant)[..j])
    requires SameUncertainties(before, attrs0)
    requires var v := Leaves(w.node)[j];
      var uncertaintySum := UncertaintySum(before, Between(v));
      var parentUncertainty := Get(before, w.node.id).uncertainty;
      after == before[v.node.id := Get(before, v.node.id).(
        contourPadding := ContourPadding(|v.above|, padding, uncertaintySum, parentUncertainty),
        planckPadding := PlanckPadding(variant, |v.above|, padding, uncertaintySum, parentUncertainty,
                                       v.above == [], |Leaves(w.node)|))]
    ensures after == ApplyAll(attrs0, ClusterAssignments(attrs0, w, padding, variant)[..j + 1])
    ensures SameUncertainties(after, attrs0)
  {
    var todo := ClusterAssignments(attrs0, w, padding, variant);
    WriteIsNextAssignment(attrs0, before, w, padding, variant, j);
    ApplyAllSnoc(attrs0, todo[..j], todo[j]);
    assert todo[..j + 1] == todo[..j] + [todo[j]];
  }

  /** The write of the inner loop at step `j` is the `j`-th assignment of the cluster. */
  lemma WriteIsNextAssignment(attrs0: map<NodeId, NodeAttrs>, attrs: map<NodeId, NodeAttrs>, w: Visit,
                              padding: real, variant: Variant, j: nat)
    requires j < |Leaves(w.node)|
    requires SameUncertainties(attrs, attrs0)
    ensures var v := Leaves(w.node)[j];
      var uncertaintySum := UncertaintySum(attrs, Between(v));
      var parentUncertainty := Get(attrs, w.node.id).uncertainty;
      ClusterAssignments(attrs0, w, padding, variant)[j]
        == Assignment(v.node.id,
             ContourPadding(|v.above|, padding, uncertaintySum, parentUncertainty),
             PlanckPadding(variant, |v.above|, padding, uncertaintySum, parentUncertainty, v.above == [], |Leaves(w.node)|))
  {
    UncertaintySumFrame(attrs, attrs0, Between(Leaves(w.node)[j]));
  }

  lemma ApplyAllSnoc(attrs: map<NodeId, NodeAttrs>, xs: seq<Assignment>, x: Assignment)
    ensures ApplyAll(attrs, xs + [x]) == Apply(ApplyAll(attrs, xs), x)
  {
    assert (xs + [x])[..|xs|] == xs;
  }

  lemma {:induction false} ApplyAllAppend(attrs: map<NodeId, NodeAttrs>, xs: seq<Assignment>, ys: seq<Assignment>)
    ensures ApplyAll(attrs, xs + ys) == ApplyAll(ApplyAll(attrs, xs), ys)
    decreases |ys|
  {
    if ys == [] {
      assert xs + ys == xs;
    } else {
      var init := ys[..|ys| - 1];
      assert (xs + ys)[..|xs + ys| - 1] == xs + init;
      ApplyAllAppend(attrs, xs, init);
    }
  }

  /** The assignments read only `uncertainty` fields, so any store with the same uncertainties gives the same ones. */
  lemma ClusterAssignmentsFrame(a: map<NodeId, NodeAttrs>, b: map<NodeId, NodeAttrs>, w: Visit, padding: real, variant: Variant)
    requires SameUncertainties(a, b)
    ensures ClusterAssignments(a, w, padding, variant) == ClusterAssignments(b, w, padding, variant)
  {
    var leaves := Leaves(w.node);
    forall j | 0 <= j < |leaves|
      ensures ClusterAssignments(a, w, padding, variant)[j] == ClusterAssignments(b, w, padding, variant)[j]
    {
      UncertaintySumFrame(a, b, Between(leaves[j]));
    }
  }

  /** The uncertainty sum reads only the `uncertainty` fields. */
  lemma UncertaintySumFrame(a: map<NodeId, NodeAttrs>, b: map<NodeId, NodeAttrs>, ids: seq<NodeId>)
    requires SameUncertainties(a, b)
    ensures UncertaintySum(a, ids) == UncertaintySum(b, ids)
  {
  }

  // ---------------------------------------------------------------------
  // Facts about the specification
  // ---------------------------------------------------------------------

  /**
   * One cluster per node at the layer depth, in `descendants()` order: the
   * cluster's parent is that node and its nodes are the node's leaf descendants.
   */
  lemma ClustersFollowLayer(root: Tree, layerDepth: nat)
    ensures |Clusters(root, layerDepth)| == |Level(root, layerDepth)|
    ensures forall i :: 0 <= i < |Level(root, layerDepth)| ==>
      && Clusters(root, layerDepth)[i].parent == Level(root, layerDepth)[i].node.id
      && Clusters(root, layerDepth)[i].nodes == Ids(Leaves(Level(root, layerDepth)[i].node))
  {
    LayerNodesAreLevel(root, layerDepth);
  }

  lemma {:induction false} ClusterNodesCount(root: Tree, layerDepth: nat, n: nat)
    requires n <= |LayerNodes(root, layerDepth)|
    ensures multiset(ClusterNodes(Clusters(root, layerDepth)[..n])) == SumLeafIds(LayerNodes(root, layerDepth)[..n])
  {
    var cs, ws := Clusters(root, layerDepth), LayerNodes(root, layerDepth);
    if n == 0 {
      assert cs[..0] == [] && ws[..0] == [];
    } else {
      ClusterNodesCount(root, layerDepth, n - 1);
      assert cs[..n][..n - 1] == cs[..n - 1];
      assert ws[..n] == ws[..n - 1] + [ws[n - 1]];
      SumLeafIdsAppend(ws[..n - 1], [ws[n - 1]]);
      LeavesAreLeafIds(ws[n - 1].node);
    }
  }

  /**
   * The clusters of one layer partition the leaves at or below that layer:
   * every such leaf is in exactly as many clusters as the tree has copies of it,
   * so in a tree of distinct nodes no leaf is listed twice.
   */
  lemma ClustersPartitionLeaves(root: Tree, layerDepth: nat)
    ensures multiset(ClusterNodes(Clusters(root, layerDepth))) == DeepLeafIds(root, layerDepth)
    ensures WellFormed(root) ==> Distinct(ClusterNodes(Clusters(root, layerDepth)))
  {
    var cs, ws := Clusters(root, layerDepth), LayerNodes(root, layerDepth);
    ClusterNodesCount(root, layerDepth, |ws|);
    assert cs[..|ws|] == cs && ws[..|ws|] == ws;
    LayerNodesAreLevel(root, layerDepth);
    LevelLeafPartition(root, layerDepth);
    if WellFormed(root) {
      DeepLeafIdsWithin(root, layerDepth);
      DistinctFromCounts(ClusterNodes(cs));
    }
  }

  lemma {:induction false} TargetsUpTo(root: Tree, layerDepth: nat, attrs: map<NodeId, NodeAttrs>, padding: real, variant: Variant, n: nat)
    requires n <= |LayerNodes(root, layerDepth)|
    ensures Targets(Concat(LayerWrites(attrs, LayerNodes(root, layerDepth), padding, variant)[..n]))
      == ClusterNodes(Clusters(root, layerDepth)[..n])
  {
    var cs, ws := Clusters(root, layerDepth), LayerNodes(root, layerDepth);
    var xss := LayerWrites(attrs, ws, padding, variant);
    if n == 0 {
      assert cs[..0] == [] && xss[..0] == [];
    } else {
      TargetsUpTo(root, layerDepth, attrs, padding, variant, n - 1);
      ConcatOfPrefix(xss, n);
      ClusterNodesOfPrefix(cs, n);
      TargetsAppend(Concat(xss[..n - 1]), xss[n - 1]);
      ClusterTargets(attrs, ws[n - 1], padding, variant);
      assert Targets(Concat(xss[..n - 1]) + xss[n - 1]) == ClusterNodes(cs[..n - 1]) + cs[n - 1].nodes;
    }
  }

  lemma ConcatOfPrefix<T>(xss: seq<seq<T>>, n: nat)
    requires 0 < n <= |xss|
    ensures Concat(xss[..n]) == Concat(xss[..n - 1]) + xss[n - 1]
  {
    assert xss[..n][..n - 1] == xss[..n - 1];
  }

  /** A cluster's writes go to its nodes, in order. */
  lemma ClusterTargets(attrs: map<NodeId, NodeAttrs>, w: Visit, padding: real, variant: Variant)
    ensures Targets(ClusterAssignments(attrs, w, padding, variant)) == ClusterOf(w).nodes
  {
  }

  lemma ClusterNodesOfPrefix(cs: seq<Cluster>, n: nat)
    requires 0 < n <= |cs|
    ensures ClusterNodes(cs[..n]) == ClusterNodes(cs[..n - 1]) + cs[n - 1].nodes
  {
    assert cs[..n][..n - 1] == cs[..n - 1];
  }

  lemma TargetsAppend(xs: seq<Assignment>, ys: seq<Assignment>)
    ensures Targets(xs + ys) == Targets(xs) + Targets(ys)
  {
  }

  /** The leaves written by `getLayerClusters` are exactly the cluster nodes, in order. */
  lemma LayerTargets(root: Tree, layerDepth: nat, attrs: map<NodeId, NodeAttrs>, padding: real, variant: Variant)
    ensures Targets(LayerAssignments(attrs, root, layerDepth, padding, variant)) == ClusterNodes(Clusters(root, layerDepth))
  {
    var cs, ws := Clusters(root, layerDepth), LayerNodes(root, layerDepth);
    var xss := LayerWrites(attrs, ws, padding, variant);
    TargetsUpTo(root, layerDepth, attrs, padding, variant, |ws|);
    assert cs[..|cs|] == cs && xss[..|xss|] == xss;
  }

  /** When no leaf is written twice, each leaf ends with the paddings of its own write. */
  lemma {:induction false} ApplyAllHit(attrs: map<NodeId, NodeAttrs>, xs: seq<Assignment>, k: nat)
    requires Distinct(Targets(xs)) && k < |xs|
    ensures Get(ApplyAll(attrs, xs), xs[k].leaf).contourPadding == xs[k].contourPadding
    ensures Get(ApplyAll(attrs, xs), xs[k].leaf).planckPadding == xs[k].planckPadding
    decreases |xs|
  {
    var init := xs[..|xs| - 1];
    if k < |xs| - 1 {
      assert Targets(xs)[k] != Targets(xs)[|xs| - 1];
      assert Targets(init) == Targets(xs)[..|xs| - 1];
      ApplyAllHit(attrs, init, k);
    }
  }

  /** Writes change only the two paddings, and only of the written leaves. */
  lemma {:induction false} ApplyAllFrame(attrs: map<NodeId, NodeAttrs>, xs: seq<Assignment>, id: NodeId)
    ensures Unpadded(Get(ApplyAll(attrs, xs), id)) == Unpadded(Get(attrs, id))
    ensures id !in Targets(xs) ==> Get(ApplyAll(attrs, xs), id) == Get(attrs, id)
    decreases |xs|
  {
    if xs != [] {
      assert Targets(xs[..|xs| - 1]) == Targets(xs)[..|xs| - 1];
      ApplyAllFrame(attrs, xs[..|xs| - 1], id);
    }
  }

  /** Where the `j`-th element of the `i`-th sequence lands in the concatenation. */
  lemma {:induction false} ConcatIndex<T>(xss: seq<seq<T>>, i: nat, j: nat) returns (k: nat)
    requires i < |xss| && j < |xss[i]|
    ensures k < |Concat(xss)| && Concat(xss)[k] == xss[i][j]
    decreases |xss|
  {
    var init := xss[..|xss| - 1];
    if i == |xss| - 1 {
      k := |Concat(init)| + j;
      IndexRight(Concat(init), xss[i], j);
    } else {
      k := ConcatIndex(init, i, j);
      IndexLeft(Concat(init), xss[|xss| - 1], k);
    }
  }

  lemma IndexLeft<T>(a: seq<T>, b: seq<T>, k: nat)
    requires k < |a|
    ensures k < |a + b| && (a + b)[k] == a[k]
  {
  }

  lemma IndexRight<T>(a: seq<T>, b: seq<T>, j: nat)
    requires j < |b|
    ensures |a| + j < |a + b| && (a + b)[|a| + j] == b[j]
  {
  }

  /**
   * After `getLayerClusters`, in a tree of distinct nodes, every leaf of every
   * cluster carries the paddings of the formulas: the depth below the layer
   * node times the padding, plus the uncertainties strictly between, plus half
   * the layer node's uncertainty (contour) or all of it unless the leaf is the
   * layer node itself, plus the inter-cluster spacing (physics).
   */
  lemma LeafPaddings(attrs: map<NodeId, NodeAttrs>, root: Tree, layerDepth: nat, padding: real, variant: Variant, i: nat, j: nat)
    requires WellFormed(root)
    requires i < |Level(root, layerDepth)| && j < |Leaves(Level(root, layerDepth)[i].node)|
    ensures var w := Level(root, layerDepth)[i];
      var v := Leaves(w.node)[j];
      var after := Get(PaddedAttrs(attrs, root, layerDepth, padding, variant), v.node.id);
      var uncertaintySum := UncertaintySum(attrs, Between(v));
      var parentUncertainty := Get(attrs, w.node.id).uncertainty;
      && after.contourPadding == |v.above| as real * padding + uncertaintySum + parentUncertainty / 2.0
      && after.planckPadding == |v.above| as real * padding + uncertaintySum
           + (if v.above == [] then 0.0 else parentUncertainty)
           + InterClusterSpacing(variant, padding, |Leaves(w.node)|)
  {
    LayerNodesAreLevel(root, layerDepth);
    var ws := LayerNodes(root, layerDepth);
    var k := LayerWriteIndex(attrs, ws, padding, variant, i, j);
    LayerTargetsDistinct(attrs, root, layerDepth, padding, variant);
    ApplyAllHit(attrs, LayerAssignments(attrs, root, layerDepth, padding, variant), k);
  }

  /** The `j`-th write of the `i`-th cluster is somewhere in the whole sequence of writes. */
  lemma LayerWriteIndex(attrs: map<NodeId, NodeAttrs>, ws: seq<Visit>, padding: real, variant: Variant, i: nat, j: nat)
    returns (k: nat)
    requires i < |ws| && j < |Leaves(ws[i].node)|
    ensures var xs := Concat(LayerWrites(attrs, ws, padding, variant));
      k < |xs| && xs[k] == ClusterAssignments(attrs, ws[i], padding, variant)[j]
  {
    k := ConcatIndex(LayerWrites(attrs, ws, padding, variant), i, j);
  }

  /** In a tree of distinct nodes, `getLayerClusters` writes each leaf at most once. */
  lemma LayerTargetsDistinct(attrs: map<NodeId, NodeAttrs>, root: Tree, layerDepth: nat, padding: real, variant: Variant)
    requires WellFormed(root)
    ensures Distinct(Targets(LayerAssignments(attrs, root, layerDepth, padding, variant)))
  {
    LayerTargets(root, layerDepth, attrs, padding, variant);
    ClustersPartitionLeaves(root, layerDepth);
  }

  /**
   * `getLayerClusters` writes nothing but the two paddings, and nothing at all
   * on nodes that are not cluster leaves.
   */
  lemma OnlyPaddingsChange(attrs: map<NodeId, NodeAttrs>, root: Tree, layerDepth: nat, padding: real, variant: Variant, id: NodeId)
    ensures Unpadded(Get(PaddedAttrs(attrs, root, layerDepth, padding, variant), id)) == Unpadded(Get(attrs, id))
    ensures id !in ClusterNodes(Clusters(root, layerDepth)) ==>
      Get(PaddedAttrs(attrs, root, layerDepth, padding, variant), id) == Get(attrs, id)
  {
    LayerTargets(root, layerDepth, attrs, padding, variant);
    ApplyAllFrame(attrs, LayerAssignments(attrs, root, layerDepth, padding, variant), id);
  }

  /** Two write sequences that hit the same leaves with the same contour paddings. */
  predicate SameContourWrites(xs: seq<Assignment>, ys: seq<Assignment>) {
    && |xs| == |ys|
    && forall k :: 0 <= k < |xs| ==> xs[k].leaf == ys[k].leaf && xs[k].contourPadding == ys[k].contourPadding
  }

  lemma {:induction false} ApplyAllSameContour(attrs: map<NodeId, NodeAttrs>, xs: seq<Assignment>, ys: seq<Assignment>, id: NodeId)
    requires SameContourWrites(xs, ys)
    ensures Get(ApplyAll(attrs, xs), id).contourPadding == Get(ApplyAll(attrs, ys), id).contourPadding
    decreases |xs|
  {
    if xs != [] {
      ApplyAllSameContour(attrs, xs[..|xs| - 1], ys[..|ys| - 1], id);
    }
  }

  lemma {:induction false} ConcatSameContour(xss: seq<seq<Assignment>>, yss: seq<seq<Assignment>>)
    requires |xss| == |yss| && forall i :: 0 <= i < |xss| ==> SameContourWrites(xss[i], yss[i])
    ensures SameContourWrites(Concat(xss), Concat(yss))
    decreases |xss|
  {
    if xss != [] {
      var n := |xss|;
      ConcatSameContour(xss[..n - 1], yss[..n - 1]);
      SameContourAppend(Concat(xss[..n - 1]), xss[n - 1], Concat(yss[..n - 1]), yss[n - 1]);
    }
  }

  lemma SameContourAppend(xs: seq<Assignment>, xs': seq<Assignment>, ys: seq<Assignment>, ys': seq<Assignment>)
    requires SameContourWrites(xs, ys) && SameContourWrites(xs', ys')
    ensures SameContourWrites(xs + xs', ys + ys')
  {
  }

  /** The two versions of `getLayerClusters` agree on every contour padding. */
  lemma VariantsAgreeOnContour(attrs: map<NodeId, NodeAttrs>, root: Tree, layerDepth: nat, padding: real, id: NodeId)
    ensures Get(PaddedAttrs(attrs, root, layerDepth, padding, Source), id).contourPadding
         == Get(PaddedAttrs(attrs, root, layerDepth, padding, Bundled), id).contourPadding
  {
    var ws := LayerNodes(root, layerDepth);
    ConcatSameContour(LayerWrites(attrs, ws, padding, Source), LayerWrites(attrs, ws, padding, Bundled));
    ApplyAllSameContour(attrs, LayerAssignments(attrs, root, layerDepth, padding, Source),
                        LayerAssignments(attrs, root, layerDepth, padding, Bundled), id);
  }

  /**
   * In the bundled build a layer node that is itself a leaf forms a cluster of
   * one circle, and that circle gets no physics padding at all; `src/` gives it 5.
   */
  lemma LoneLeafPlanckPadding(attrs: map<NodeId, NodeAttrs>, root: Tree, layerDepth: nat, padding: real, i: nat)
    requires WellFormed(root)
    requires i < |Level(root, layerDepth)| && IsLeaf(Level(root, layerDepth)[i].node)
    ensures var id := Level(root, layerDepth)[i].node.id;
      && Get(PaddedAttrs(attrs, root, layerDepth, padding, Bundled), id).planckPadding == 0.0
      && Get(PaddedAttrs(attrs, root, layerDepth, padding, Source), id).planckPadding == 5.0
  {
    var w := Level(root, layerDepth)[i];
    LeafLeaves(w.node);
    LeafPaddings(attrs, root, layerDepth, padding, Bundled, i, 0);
    LeafPaddings(attrs, root, layerDepth, padding, Source, i, 0);
  }

  /** A leaf's only leaf descendant is itself. */
  lemma LeafLeaves(t: Tree)
    requires IsLeaf(t)
    ensures Leaves(t) == [Visit(t, [])]
  {
    assert Height(t) == 0;
    assert Descendants(t) == [Visit(t, [])];
    assert FilterLeaves([Visit(t, [])]) == [Visit(t, [])] + FilterLeaves([]);
  }

  /**
   * With a non-negative padding, both paddings grow with the depth below the
   * layer node and with the uncertainty sum.
   */
  lemma PaddingsMonotone(variant: Variant, padding: real, d1: nat, d2: nat, s1: real, s2: real,
                         parentUncertainty: real, leafIsParent: bool, clusterSize: nat)
    requires 0.0 <= padding && d1 <= d2 && s1 <= s2
    ensures ContourPadding(d1, padding, s1, parentUncertainty) <= ContourPadding(d2, padding, s2, parentUncertainty)
    ensures PlanckPadding(variant, d1, padding, s1, parentUncertainty, leafIsParent, clusterSize)
         <= PlanckPadding(variant, d2, padding, s2, parentUncertainty, leafIsParent, clusterSize)
  {
    assert (d2 as real - d1 as real) * padding >= 0.0;
  }

  /** With non-negative uncertainties, the sum is non-negative, and it is empty for a leaf directly below (or at) the layer node. */
  lemma UncertaintySumFacts(attrs: map<NodeId, NodeAttrs>, v: Visit)
    ensures |v.above| <= 1 ==> UncertaintySum(attrs, Between(v)) == 0.0
    ensures (forall id :: 0.0 <= Get(attrs, id).uncertainty) ==> 0.0 <= UncertaintySum(attrs, Between(v))
  {
    if forall id :: 0.0 <= Get(attrs, id).uncertainty {
      UncertaintySumNonNegative(attrs, Between(v));
    }
  }

  lemma {:induction false} UncertaintySumNonNegative(attrs: map<NodeId, NodeAttrs>, ids: seq<NodeId>)
    requires forall id :: 0.0 <= Get(attrs, id).uncertainty
    ensures 0.0 <= UncertaintySum(attrs, ids)
    decreases |ids|
  {
    if ids != [] {
      UncertaintySumNonNegative(attrs, ids[..|ids| - 1]);
    }
  }
}
