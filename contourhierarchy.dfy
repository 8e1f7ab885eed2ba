/**
 * `contourHierarchy` (src/implementation/contourhierarchy.js): for every
 * layer, from the deepest up to the root's, the padding pass of
 * `getLayerClusters`, then the contour of every cluster of the layer, each
 * segment stroked with the uncertainty of the cluster's layer node.
 */
module ContourHierarchy {
  import opened Geometry
  import opened Hierarchy
  import opened LayerClusters
  import opened Contour

  /** A contour path together with the `strokeWidth` the loop sets on it. */
  datatype Segment = Segment(path: Path, strokeWidth: real)

  function Stroked(paths: seq<Path>, width: real): (r: seq<Segment>)
    ensures |r| == |paths| && forall i :: 0 <= i < |paths| ==> r[i] == Segment(paths[i], width)
  {
    seq(|paths|, i requires 0 <= i < |paths| => Segment(paths[i], width))
  }

  /** The stroked contour of one cluster, drawn round its nodes' current fields. */
  ghost function ClusterContour(m: MathLib, attrs: map<NodeId, NodeAttrs>, c: Cluster, curvature: real, fuel: nat): seq<Segment> {
    Stroked(ContourPaths(m, NodesOf(attrs, c.nodes), curvature, fuel), Get(attrs, c.parent).uncertainty)
  }

  /** The contours of the clusters `cs`, one after the other. */
  ghost function ClustersContour(m: MathLib, attrs: map<NodeId, NodeAttrs>, cs: seq<Cluster>, curvature: real, fuel: nat): seq<Segment> {
    if cs == [] then []
    else ClustersContour(m, attrs, cs[..|cs| - 1], curvature, fuel) + ClusterContour(m, attrs, cs[|cs| - 1], curvature, fuel)
  }

  /** The segments of one layer: its padding pass, then the contour of each of its clusters. */
  ghost function LayerContour(m: MathLib, attrs: map<NodeId, NodeAttrs>, root: Tree, layerDepth: nat, padding: real,
                              curvature: real, fuel: nat, variant: Variant): seq<Segment> {
    ClustersContour(m, PaddedAttrs(attrs, root, layerDepth, padding, variant), Clusters(root, layerDepth), curvature, fuel)
  }

  /**
   * The loop over the layers from `layerDepth` down to 0, once it holds the
   * segments `contours` and the node fields `attrs`: the segments and the
   * fields it ends with.
   */
  ghost function HierarchyPass(m: MathLib, attrs: map<NodeId, NodeAttrs>, root: Tree, layerDepth: int, padding: real,
                               curvature: real, fuel: nat, variant: Variant, contours: seq<Segment>)
    : (seq<Segment>, map<NodeId, NodeAttrs>)
    decreases layerDepth + 1
  {
    if layerDepth < 0 then (contours, attrs)
    else
      HierarchyPass(m, PaddedAttrs(attrs, root, layerDepth, padding, variant), root, layerDepth - 1, padding, curvature,
                    fuel, variant, contours + LayerContour(m, attrs, root, layerDepth, padding, curvature, fuel, variant))
  }

  /** The inner `forEach` over the segments of one contour. */
  method StrokeSegments(paths: seq<Path>, width: real) returns (segments: seq<Segment>)
    ensures segments == Stroked(paths, width)
  {
    segments := [];
    for i := 0 to |paths|
      invariant |segments| == i && forall k :: 0 <= k < i ==> segments[k] == Segment(paths[k], width)
    {
      segments := segments + [Segment(paths[i], width)];
    }
  }

  /** The `forEach` over the clusters of one layer. */
  method LayerContours(m: MathLib, attrs: map<NodeId, NodeAttrs>, layerClusters: seq<Cluster>, curvature: real, fuel: nat)
    returns (contours: seq<Segment>)
    ensures contours == ClustersContour(m, attrs, layerClusters, curvature, fuel)
  {
    contours := [];
    for i := 0 to |layerClusters|
      invariant contours == ClustersContour(m, attrs, layerClusters[..i], curvature, fuel)
    {
      var cluster := layerClusters[i];
      var generatedContour := Contour.Contour(m, NodesOf(attrs, cluster.nodes), curvature, fuel);
      var stroked := StrokeSegments(generatedContour, Get(attrs, cluster.parent).uncertainty);
      assert layerClusters[..i + 1][..i] == layerClusters[..i];
      contours := contours + stroked;
    }
    assert layerClusters[..|layerClusters|] == layerClusters;
  }

  /** One turn of the loop over the layers. */
  method ContourLayerPass(m: MathLib, h: HierarchyRoot, layerDepth: nat, padding: real, curvature: real, fuel: nat,
                          variant: Variant) returns (layerContours: seq<Segment>)
    modifies h
    ensures h.attrs == PaddedAttrs(old(h.attrs), h.tree, layerDepth, padding, variant)
    ensures layerContours == LayerContour(m, old(h.attrs), h.tree, layerDepth, padding, curvature, fuel, variant)
  {
    var layerClusters := GetLayerClusters(h, layerDepth, padding, variant);
    layerContours := LayerContours(m, h.attrs, layerClusters, curvature, fuel);
  }

  /** The default export of `contourhierarchy.js`, with each ring search cut off after `fuel` hops. */
  method ContourHierarchy(m: MathLib, h: HierarchyRoot, padding: real, curvature: real, fuel: nat, variant: Variant)
    returns (contours: seq<Segment>)
    modifies h
    ensures (contours, h.attrs) == HierarchyPass(m, old(h.attrs), h.tree, Height(h.tree) - 1, padding, curvature, fuel, variant, [])
  {
    var tree := h.tree;
    ghost var target := HierarchyPass(m, h.attrs, tree, Height(tree) - 1, padding, curvature, fuel, variant, []);
    contours := [];
    var layerDepth: int := Height(tree) - 1;
    while layerDepth >= 0
      invariant -1 <= layerDepth
      invariant HierarchyPass(m, h.attrs, tree, layerDepth, padding, curvature, fuel, variant, contours) == target
      decreases layerDepth + 1
    {
      var layerContours := ContourLayerPass(m, h, layerDepth, padding, curvature, fuel, variant);
      contours := contours + layerContours;
      layerDepth := layerDepth - 1;
    }
  }

  /** The loop only appends: the segments it already holds stay in front. */
  lemma {:induction false} PassKeepsPrefix(m: MathLib, attrs: map<NodeId, NodeAttrs>, root: Tree, layerDepth: int, padding: real,
                                           curvature: real, fuel: nat, variant: Variant, contours: seq<Segment>)
    ensures var r := HierarchyPass(m, attrs, root, layerDepth, padding, curvature, fuel, variant, contours).0;
      |contours| <= |r| && r[..|contours|] == contours
    decreases layerDepth + 1
  {
    if layerDepth >= 0 {
      var next := contours + LayerContour(m, attrs, root, layerDepth, padding, curvature, fuel, variant);
      PassKeepsPrefix(m, PaddedAttrs(attrs, root, layerDepth, padding, variant), root, layerDepth - 1, padding, curvature,
                      fuel, variant, next);
      assert next[..|contours|] == contours;
    }
  }

  /** The number of hops of the outer rings of the clusters `cs`. */
  ghost function ClustersHops(m: MathLib, attrs: map<NodeId, NodeAttrs>, cs: seq<Cluster>, curvature: real, fuel: nat): nat {
    if cs == [] then 0
    else ClustersHops(m, attrs, cs[..|cs| - 1], curvature, fuel)
           + |OuterRing(m, Inflated(NodesOf(attrs, cs[|cs| - 1].nodes)), curvature, fuel)|
  }

  /** A layer's clusters contribute two segments per hop of their outer rings: a circle arc and a tangent arc. */
  lemma {:induction false} ClustersContourLength(m: MathLib, attrs: map<NodeId, NodeAttrs>, cs: seq<Cluster>, curvature: real, fuel: nat)
    ensures |ClustersContour(m, attrs, cs, curvature, fuel)| == 2 * ClustersHops(m, attrs, cs, curvature, fuel)
  {
    if cs != [] {
      ClustersContourLength(m, attrs, cs[..|cs| - 1], curvature, fuel);
      ContourLength(m, NodesOf(attrs, cs[|cs| - 1].nodes), curvature, fuel);
    }
  }

  /** Every layer contributes an even number of segments. */
  lemma LayerEven(m: MathLib, attrs: map<NodeId, NodeAttrs>, root: Tree, layerDepth: nat, padding: real,
                  curvature: real, fuel: nat, variant: Variant)
    ensures |LayerContour(m, attrs, root, layerDepth, padding, curvature, fuel, variant)| % 2 == 0
  {
    var padded := PaddedAttrs(attrs, root, layerDepth, padding, variant);
    ClustersContourLength(m, padded, Clusters(root, layerDepth), curvature, fuel);
    var hops := ClustersHops(m, padded, Clusters(root, layerDepth), curvature, fuel);
    assert (2 * hops) % 2 == 0 by {
      assert (hops + hops) % 2 == 0;
    }
  }

  /** The loop adds segments in pairs. */
  lemma {:induction false} PassEven(m: MathLib, attrs: map<NodeId, NodeAttrs>, root: Tree, layerDepth: int, padding: real,
                                    curvature: real, fuel: nat, variant: Variant, contours: seq<Segment>)
    requires |contours| % 2 == 0
    ensures |HierarchyPass(m, attrs, root, layerDepth, padding, curvature, fuel, variant, contours).0| % 2 == 0
    decreases layerDepth + 1
  {
    if layerDepth >= 0 {
      var layer := LayerContour(m, attrs, root, layerDepth, padding, curvature, fuel, variant);
      LayerEven(m, attrs, root, layerDepth, padding, curvature, fuel, variant);
      assert (|contours| + |layer|) % 2 == 0;
      PassEven(m, PaddedAttrs(attrs, root, layerDepth, padding, variant), root, layerDepth - 1, padding, curvature, fuel,
               variant, contours + layer);
    }
  }

  /** Every segment of a layer is stroked with the uncertainty of one of the layer's cluster parents. */
  lemma {:induction false} ClustersContourStrokes(m: MathLib, attrs: map<NodeId, NodeAttrs>, cs: seq<Cluster>, curvature: real,
                                                  fuel: nat, k: nat)
    requires k < |ClustersContour(m, attrs, cs, curvature, fuel)|
    ensures exists c :: c in cs && ClustersContour(m, attrs, cs, curvature, fuel)[k].strokeWidth == Get(attrs, c.parent).uncertainty
  {
    var init := cs[..|cs| - 1];
    var last := cs[|cs| - 1];
    var before := ClustersContour(m, attrs, init, curvature, fuel);
    if k < |before| {
      ClustersContourStrokes(m, attrs, init, curvature, fuel, k);
      var c :| c in init && before[k].strokeWidth == Get(attrs, c.parent).uncertainty;
      assert c in cs;
    } else {
      assert last in cs;
    }
  }

  /** A padding pass leaves every node's uncertainty as it was. */
  lemma PaddingKeepsUncertainty(attrs: map<NodeId, NodeAttrs>, root: Tree, layerDepth: nat, padding: real, variant: Variant, id: NodeId)
    ensures Get(PaddedAttrs(attrs, root, layerDepth, padding, variant), id).uncertainty == Get(attrs, id).uncertainty
  {
    OnlyPaddingsChange(attrs, root, layerDepth, padding, variant, id);
  }

  /** Every segment of one layer is stroked with the uncertainty, as it was before the layer's padding pass, of a cluster parent. */
  lemma LayerStrokes(m: MathLib, attrs: map<NodeId, NodeAttrs>, root: Tree, layerDepth: nat, padding: real,
                     curvature: real, fuel: nat, variant: Variant, k: nat)
    requires k < |LayerContour(m, attrs, root, layerDepth, padding, curvature, fuel, variant)|
    ensures exists c :: (c in Clusters(root, layerDepth)
      && LayerContour(m, attrs, root, layerDepth, padding, curvature, fuel, variant)[k].strokeWidth == Get(attrs, c.parent).uncertainty)
  {
    var padded := PaddedAttrs(attrs, root, layerDepth, padding, variant);
    ClustersContourStrokes(m, padded, Clusters(root, layerDepth), curvature, fuel, k);
    var c :| c in Clusters(root, layerDepth)
      && ClustersContour(m, padded, Clusters(root, layerDepth), curvature, fuel)[k].strokeWidth == Get(padded, c.parent).uncertainty;
    PaddingKeepsUncertainty(attrs, root, layerDepth, padding, variant, c.parent);
  }

  /**
   * Every segment the loop adds is stroked with the uncertainty, as it was
   * before the loop, of the layer node of its cluster: the padding passes
   * never change a stroke width.
   */
  lemma {:induction false} PassStrokes(m: MathLib, attrs: map<NodeId, NodeAttrs>, root: Tree, layerDepth: int, padding: real,
                                       curvature: real, fuel: nat, variant: Variant, contours: seq<Segment>, k: nat)
    requires |contours| <= k < |HierarchyPass(m, attrs, root, layerDepth, padding, curvature, fuel, variant, contours).0|
    ensures exists d: nat, c :: (d <= layerDepth && c in Clusters(root, d)
      && HierarchyPass(m, attrs, root, layerDepth, padding, curvature, fuel, variant, contours).0[k].strokeWidth
         == Get(attrs, c.parent).uncertainty)
    decreases layerDepth + 1
  {
    var padded := PaddedAttrs(attrs, root, layerDepth, padding, variant);
    var layer := LayerContour(m, attrs, root, layerDepth, padding, curvature, fuel, variant);
    var next := contours + layer;
    var r := HierarchyPass(m, padded, root, layerDepth - 1, padding, curvature, fuel, variant, next).0;
    if k < |next| {
      PassKeepsPrefix(m, padded, root, layerDepth - 1, padding, curvature, fuel, variant, next);
      assert r[k] == r[..|next|][k] == layer[k - |contours|];
      LayerStrokes(m, attrs, root, layerDepth, padding, curvature, fuel, variant, k - |contours|);
    } else {
      PassStrokes(m, padded, root, layerDepth - 1, padding, curvature, fuel, variant, next, k);
      var d: nat, c :| d <= layerDepth - 1 && c in Clusters(root, d) && r[k].strokeWidth == Get(padded, c.parent).uncertainty;
      PaddingKeepsUncertainty(attrs, root, layerDepth, padding, variant, c.parent);
    }
  }

  /** `contourHierarchy` returns an even number of segments, each stroked with a layer node's uncertainty. */
  lemma HierarchyContours(m: MathLib, attrs: map<NodeId, NodeAttrs>, root: Tree, padding: real, curvature: real, fuel: nat,
                          variant: Variant, k: nat)
    ensures var r := HierarchyPass(m, attrs, root, Height(root) - 1, padding, curvature, fuel, variant, []).0;
      && |r| % 2 == 0
      && (IsLeaf(root) ==> r == [])
      && (k < |r| ==> exists d: nat, c :: d < Height(root) && c in Clusters(root, d) && r[k].strokeWidth == Get(attrs, c.parent).uncertainty)
  {
    var r := HierarchyPass(m, attrs, root, Height(root) - 1, padding, curvature, fuel, variant, []).0;
    PassEven(m, attrs, root, Height(root) - 1, padding, curvature, fuel, variant, []);
    if k < |r| {
      PassStrokes(m, attrs, root, Height(root) - 1, padding, curvature, fuel, variant, [], k);
    }
  }
}
