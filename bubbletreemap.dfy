/**
 * The chainable configuration object of `bubbletreemap.js`: the settings
 * (padding, curvature, colormap, width, height and the hierarchy root), a
 * getter and a setter for each, and the three operations that run the
 * colouring, the layout and the contour tracing with the current settings.
 *
 * In the source one function serves as getter and setter, depending on
 * whether it is given an argument; here each is its own member. Setters and
 * the two `do` operations return the object itself, so calls chain.
 */
module BubbleTreemap {
  import opened Wrappers
  import opened Geometry
  import Hierarchy
  import LayerClusters
  import Layout
  import ContourHierarchy
  import ColorHierarchy

  type NodeId = Hierarchy.NodeId
  type NodeAttrs = Hierarchy.NodeAttrs

  /**
   * The `hierarchyRoot` setter on one node: a falsy radius becomes the
   * node's value and a falsy uncertainty becomes its data's uncertainty.
   */
  function WithDefaults(n: NodeAttrs): NodeAttrs {
    n.(r := if n.r == 0.0 then n.value else n.r,
       uncertainty := if n.uncertainty == 0.0 then n.dataUncertainty else n.uncertainty)
  }

  /**
   * A set radius or uncertainty is kept and only an unset one is filled in;
   * no other field changes, and filling in twice is filling in once.
   */
  lemma DefaultsFillOnlyUnset(n: NodeAttrs)
    ensures n.r != 0.0 ==> WithDefaults(n).r == n.r
    ensures n.r == 0.0 ==> WithDefaults(n).r == n.value
    ensures n.uncertainty != 0.0 ==> WithDefaults(n).uncertainty == n.uncertainty
    ensures n.uncertainty == 0.0 ==> WithDefaults(n).uncertainty == n.dataUncertainty
    ensures WithDefaults(n).(r := n.r, uncertainty := n.uncertainty) == n
    ensures WithDefaults(WithDefaults(n)) == WithDefaults(n)
  {
  }

  /** The fields after the defaults are filled in on every node of `ids`. */
  function Defaulted(attrs: map<NodeId, NodeAttrs>, ids: seq<NodeId>): map<NodeId, NodeAttrs> {
    map id | id in attrs.Keys + (set i | i in ids) :: if id in ids then WithDefaults(Hierarchy.Get(attrs, id)) else attrs[id]
  }

  /**
   * Filling in defaults on one node more, in the order the loop goes: a
   * node listed twice is filled in twice, which changes nothing further.
   */
  lemma DefaultedStep(attrs: map<NodeId, NodeAttrs>, ids: seq<NodeId>, k: nat)
    requires k < |ids|
    ensures var before := Defaulted(attrs, ids[..k]);
      Defaulted(attrs, ids[..k + 1]) == before[ids[k] := WithDefaults(Hierarchy.Get(before, ids[k]))]
  {
    var before := Defaulted(attrs, ids[..k]);
    assert forall i :: i in ids[..k + 1] <==> i in ids[..k] || i == ids[k] by {
      assert ids[..k + 1] == ids[..k] + [ids[k]];
    }
    DefaultsFillOnlyUnset(Hierarchy.Get(attrs, ids[k]));
  }

  /** Setting the same root again leaves its fields as they are. */
  lemma DefaultedIdempotent(attrs: map<NodeId, NodeAttrs>, ids: seq<NodeId>)
    ensures Defaulted(Defaulted(attrs, ids), ids) == Defaulted(attrs, ids)
  {
    var once := Defaulted(attrs, ids);
    forall id | id in ids
      ensures Defaulted(once, ids)[id] == once[id]
    {
      DefaultsFillOnlyUnset(Hierarchy.Get(attrs, id));
    }
  }

  /** The `forEach` of the `hierarchyRoot` setter over the nodes `ids`. */
  method FillDefaults(h: Hierarchy.HierarchyRoot, ids: seq<NodeId>)
    modifies h
    ensures h.attrs == Defaulted(old(h.attrs), ids)
  {
    ghost var attrs0 := h.attrs;
    for k := 0 to |ids|
      invariant h.attrs == Defaulted(attrs0, ids[..k])
    {
      DefaultedStep(attrs0, ids, k);
      var node := Hierarchy.Get(h.attrs, ids[k]);
      if node.r == 0.0 {
        node := node.(r := node.value);
      }
      if node.uncertainty == 0.0 {
        node := node.(uncertainty := node.dataUncertainty);
      }
      h.attrs := h.attrs[ids[k] := node];
    }
    assert ids[..|ids|] == ids;
  }

  class Treemap {
    var padding: real
    var curvature: real
    var colormap: seq<Hierarchy.Color>
    var width: real
    var height: real
    /** The hierarchy the operations work on; `null` stands for the initial empty array. */
    var hierarchyRoot: Hierarchy.HierarchyRoot?

    /** A fresh configuration object with the defaults of the source. */
    constructor ()
      ensures padding == 10.0 && curvature == 10.0 && colormap == [] && width == 800.0 && height == 800.0
      ensures hierarchyRoot == null
    {
      padding := 10.0;
      curvature := 10.0;
      colormap := [];
      width := 800.0;
      height := 800.0;
      hierarchyRoot := null;
    }

    function Padding(): real reads this { padding }
    function Curvature(): real reads this { curvature }
    function Colormap(): seq<Hierarchy.Color> reads this { colormap }
    function Width(): real reads this { width }
    function Height(): real reads this { height }
    function Root(): Hierarchy.HierarchyRoot? reads this { hierarchyRoot }

    method SetPadding(p: real) returns (self: Treemap)
      modifies this
      ensures self == this && Padding() == p
      ensures curvature == old(curvature) && colormap == old(colormap) && width == old(width) && height == old(height)
      ensures hierarchyRoot == old(hierarchyRoot)
    {
      padding := p;
      return this;
    }

    method SetCurvature(c: real) returns (self: Treemap)
      modifies this
      ensures self == this && Curvature() == c
      ensures padding == old(padding) && colormap == old(colormap) && width == old(width) && height == old(height)
      ensures hierarchyRoot == old(hierarchyRoot)
    {
      curvature := c;
      return this;
    }

    method SetColormap(cm: seq<Hierarchy.Color>) returns (self: Treemap)
      modifies this
      ensures self == this && Colormap() == cm
      ensures padding == old(padding) && curvature == old(curvature) && width == old(width) && height == old(height)
      ensures hierarchyRoot == old(hierarchyRoot)
    {
      colormap := cm;
      return this;
    }

    method SetWidth(w: real) returns (self: Treemap)
      modifies this
      ensures self == this && Width() == w
      ensures padding == old(padding) && curvature == old(curvature) && colormap == old(colormap) && height == old(height)
      ensures hierarchyRoot == old(hierarchyRoot)
    {
      width := w;
      return this;
    }

    method SetHeight(hgt: real) returns (self: Treemap)
      modifies this
      ensures self == this && Height() == hgt
      ensures padding == old(padding) && curvature == old(curvature) && colormap == old(colormap) && width == old(width)
      ensures hierarchyRoot == old(hierarchyRoot)
    {
      height := hgt;
      return this;
    }

    /**
     * The `hierarchyRoot` setter: fills in the defaults on every node the
     * root's `descendants()` lists, then keeps the root.
     */
    method SetHierarchyRoot(root: Hierarchy.HierarchyRoot) returns (self: Treemap)
      modifies this, root
      ensures self == this && Root() == root
      ensures root.attrs == Defaulted(old(root.attrs), Hierarchy.SubtreeIds(root.tree))
      ensures padding == old(padding) && curvature == old(curvature) && colormap == old(colormap) && width == old(width) && height == old(height)
    {
      FillDefaults(root, Hierarchy.SubtreeIds(root.tree));
      hierarchyRoot := root;
      return this;
    }

    /**
     * `doColoring`: colours the root's subtrees with the current colormap.
     * The source fails with a TypeError when no root is set or the root has
     * no children; then `ok` is false and nothing is written.
     */
    method DoColoring() returns (self: Treemap, ok: bool)
      modifies hierarchyRoot
      ensures self == this
      ensures ok <==> hierarchyRoot != null && !Hierarchy.IsLeaf(hierarchyRoot.tree)
      ensures hierarchyRoot != null ==>
        hierarchyRoot.attrs == (if ok then ColorHierarchy.Colored(old(hierarchyRoot.attrs), hierarchyRoot.tree.children, colormap)
                                else old(hierarchyRoot.attrs))
    {
      ok := false;
      if hierarchyRoot != null {
        ok := ColorHierarchy.ColorHierarchy(hierarchyRoot, colormap);
      }
      return this, ok;
    }

    /**
     * `doLayout`: the layout with the current padding, width and height; the
     * packer and the simulation are parameters. The source fails when no
     * root is set (the packer is handed an array); then `ok` is false.
     */
    method DoLayout(m: MathLib, variant: LayerClusters.Variant, pack: Layout.Packer, engine: Layout.Engine)
      returns (self: Treemap, ok: bool)
      modifies hierarchyRoot
      ensures self == this
      ensures ok <==> hierarchyRoot != null
      ensures ok ==>
        hierarchyRoot.attrs
        == Layout.LayoutResult(m, old(hierarchyRoot.attrs), hierarchyRoot.tree, padding, width, height, variant, pack, engine)
    {
      ok := hierarchyRoot != null;
      if ok {
        Layout.LayoutPlanck(m, hierarchyRoot, padding, width, height, variant, pack, engine);
      }
      return this, ok;
    }

    /**
     * `getContour`: the contours with the current padding and curvature.
     * Without a root the source's depth loop starts at `NaN` and never runs,
     * so the result is empty.
     */
    method GetContour(m: MathLib, fuel: nat, variant: LayerClusters.Variant) returns (contours: seq<ContourHierarchy.Segment>)
      modifies hierarchyRoot
      ensures hierarchyRoot == null ==> contours == []
      ensures hierarchyRoot != null ==>
        (contours, hierarchyRoot.attrs) == ContourHierarchy.HierarchyPass(m, old(hierarchyRoot.attrs), hierarchyRoot.tree,
                                                                          Hierarchy.Height(hierarchyRoot.tree) - 1, padding,
                                                                          curvature, fuel, variant, [])
    {
      if hierarchyRoot == null {
        return [];
      }
      contours := ContourHierarchy.ContourHierarchy(m, hierarchyRoot, padding, curvature, fuel, variant);
    }
  }
}
