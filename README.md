# Bubble treemaps, modelled in Dafny

This project models the core of *bubble-treemaps*, a d3 plugin. It lays out a hierarchy as nested circles and draws a smooth contour round every group of circles. The model covers these parts:

- **Geometry.** `Vec2` and `Circle` with their arithmetic: distance, angle, the circle/circle intersection test and the two intersection points.
- **Layer clusters.** For one depth, `getLayerClusters` forms one cluster per node of that depth. A cluster holds the node's leaves. Each leaf gets a contour padding and a physics padding. Two variants are modelled side by side: the one in `src`, with a fixed `+ 5`, and the bundled one in `build`, with an inter-cluster spacing of `padding / 2`.
- **Layout driver.** The bottom-up depth loop of `layoutplanck.js`. It pads the leaves, groups the clusters by their grandparent with the order-preserving `unique`, and hands each group with its area-weighted centroid to the physics simulation. The fixture geometry of a cluster body is modelled too.
- **Contour tracer.** `contour.js` inflates the circles and enlarges a copy of them. It finds the leftmost circle and walks the outer ring of intersection points clockwise. It then emits one circle arc and one tangent arc per hop and normalises their angles.
- **Contour driver.** `contourhierarchy.js` concatenates the contours of every cluster of every layer and stamps each segment with the cluster parent's uncertainty.
- **Colouring.** `colorhierarchy.js` assigns colours round-robin to the root's subtrees.
- **Configuration object.** `bubbletreemap.js`: defaults, chainable setters, the defaulting done by the `hierarchyRoot` setter, and the three operations.

## How the model is organised

- **Nodes and their fields.** A d3 hierarchy node is split in two:
  - an immutable `Hierarchy.Tree` of node ids, which gives the structure;
  - a map from id to `NodeAttrs`, held in the mutable `Hierarchy.HierarchyRoot` object, which gives the fields the code reads and writes (`r`, `x`, `y`, `uncertainty`, the two paddings and `color`).
- **d3-hierarchy.** d3's `descendants()` order is breadth-first. The model gives it as `Levels`, the levels 0, 1, … concatenated. A node's depth is the length of its ancestor path.
- **Imperative code.** Code that works by changing things step by step is modelled as methods with loops. Each method's `ensures` ties its result or new state to a specification function. The source's promises are proved as lemmas about those functions.
- **Foreign code.** `Math.sqrt`, `Math.atan2` and `Math.PI` are a `MathLib` record passed as a parameter. Their laws, such as ranges and the square root of a square, are the predicate `Geometry.Lawful`, required where a proof needs them. `d3.pack` and the planck-js simulation are function parameters (`Layout.Packer`, `Layout.Engine`). Numbers are exact reals.
- **JavaScript values.**
  - A missing field reads as 0.
  - A result that would be `NaN` or `undefined` in the source is `None`:
    - intersection points of concentric circles;
    - the centroid of a group with zero total mass;
    - a colour from an empty colormap.
  - A TypeError thrown by the source is an `ok == false` result that leaves the state unchanged.

Behaviour of the code that the model keeps as it is:

- **A lone circle** gets no arc at all. The ring search from it finds no intersection, so the ring is empty (`Contour.FewNodesNoContour`).
- **Degenerate geometry** is not guarded. Where the code divides by zero, the model's value is `None`, and the code's later steps then run as the code runs them:
  - Concentric circles give `None` intersection points. They stay among the candidates and are never eligible, as a `NaN` angle fails `angle > FLOATINGPOINT_EPSILON`.
  - A zero-mass group gives a `None` centroid. It is still handed to the simulation, and the layout goes on with the next group and the next depth.
  - Only `Layout.ClusterBody` stops on a `None` centroid: it gives no body, where the code builds one at a `NaN` position.
- **Input is not validated.** A missing or negative radius is not rejected by the code, nor by the model.
- **`getContour` writes node fields.** It calls `getLayerClusters`, which writes both paddings of every leaf. So `BubbleTreemap.Treemap.GetContour` modifies the hierarchy root.
- **Physics padding differs between the two copies.** `src` adds a fixed 5. The bundled build adds `padding / 2`, or 0 for a one-node cluster. Both are modelled, as `LayerClusters.Variant`.

## Model

| member | source | states |
|---|---|---|
| Geometry.SubAddRoundTrip | src/geometry/vec2.js:13-19 | subtracting a vector and adding it back gives the original vector |
| Geometry.ScaleByOne | src/geometry/vec2.js:21-23 | scaling by 1 is the identity |
| Geometry.DistanceSymmetric | src/geometry/vec2.js:7-11 | the distance from a to b equals the distance from b to a |
| Geometry.DistanceToSelf | src/geometry/vec2.js:7-11 | a point is at distance 0 from itself |
| Geometry.MagnitudeIsDistanceToOrigin | src/geometry/vec2.js:32-34 | a vector's magnitude is its distance to the origin |
| Geometry.AngleRange | src/geometry/vec2.js:25-30 | with atan2 in (-pi, pi], the normalised angle lies in [0, 2 pi) |
| Geometry.AngleToSelf | src/geometry/vec2.js:25-30 | the angle from a vector to itself is 0 |
| Geometry.AngleOfReverse | src/geometry/vec2.js:25-30 | the angle to c - p is half a turn away from the angle to p - c, for p != c |
| Geometry.AngleOfOpposite | src/geometry/vec2.js:25-30 | the angle to -v is half a turn away from the angle to a non-zero v |
| Geometry.IntersectsSymmetric | src/geometry/circle.js:10-21 | `intersects` is symmetric |
| Geometry.IntersectsBySquares | src/geometry/circle.js:10-21 | for non-negative radii, two circles intersect iff the squared centre distance lies between the squared difference and the squared sum of the radii; tangency included, containment and separation excluded |
| Geometry.IntersectionPointsStraddleCentreLine | src/geometry/circle.js:24-40 | the two points have the chord midpoint P2 as their midpoint; their difference and each one's offset from P2 are perpendicular to the centre line |
| Geometry.TangentCirclesMeetOnce | src/geometry/circle.js:30-39 | when the half chord h is 0, both returned points are the same |
| Geometry.IntersectionPointsOnBothCircles | src/geometry/circle.js:24-40 | for intersecting circles with distinct centres, both returned points lie on both circles |
| Geometry.ChordOffsetFits | src/geometry/circle.js:29-30 | for intersecting circles with distinct centres, the square root taken for h has a non-negative argument |
| Hierarchy.LayerNodesAreLevel | src/implementation/algorithm/getlayerclusters.js:4-6 | filtering `descendants()` on depth k gives exactly the nodes of level k, in breadth-first order |
| Hierarchy.LeavesAreLeafIds | src/implementation/algorithm/getlayerclusters.js:9-11 | the leaf filter of a node's descendants yields exactly the ids of its leaves, with multiplicity |
| Hierarchy.LevelLeafPartition | src/implementation/algorithm/getlayerclusters.js:4-11 | the leaves under the level-k nodes, taken together, are exactly the leaves at depth k or deeper |
| LayerClusters.GetLayerClusters | src/implementation/algorithm/getlayerclusters.js:1-38 | returns the clusters of the layer and leaves the node fields as the padding assignments of the layer make them |
| LayerClusters.ClusterLayerNode | src/implementation/algorithm/getlayerclusters.js:9-34 | one layer node's cluster, and the paddings it writes on that cluster's leaves; no uncertainty changes |
| LayerClusters.ClustersFollowLayer | src/implementation/algorithm/getlayerclusters.js:8-15 | one cluster per layer node, in order; its parent is that node and its nodes are that node's leaves |
| LayerClusters.ClustersPartitionLeaves | src/implementation/algorithm/getlayerclusters.js:4-11 | the clusters' nodes are exactly the leaves at the layer depth or deeper; in a tree with distinct ids, no leaf is in two clusters |
| LayerClusters.LayerTargets | src/implementation/algorithm/getlayerclusters.js:17-29 | the leaves written, in order, are the clusters' nodes |
| LayerClusters.LayerTargetsDistinct | src/implementation/algorithm/getlayerclusters.js:17-29 | in a tree with distinct ids, no leaf is written twice |
| LayerClusters.LeafPaddings | src/implementation/algorithm/getlayerclusters.js:18-28 | each leaf's contourPadding is depthDiff * padding + the uncertainties strictly between leaf and parent + parent uncertainty / 2; its planckPadding is the same sum with the parent's full uncertainty (0 when the leaf is the parent) plus 5 in `src`, or plus the inter-cluster spacing in the bundled build |
| LayerClusters.OnlyPaddingsChange | src/implementation/algorithm/getlayerclusters.js:27-28 | no field other than the two paddings changes, and nodes outside the clusters do not change at all |
| LayerClusters.VariantsAgreeOnContour | build/d3-bubbletreemap.js:30-36 | the `src` and bundled variants write the same contourPadding on every node |
| LayerClusters.LoneLeafPlanckPadding | build/d3-bubbletreemap.js:31-36 | a leaf that is its own cluster parent gets planckPadding 0 in the bundled build and 5 in `src` |
| LayerClusters.PaddingsMonotone | src/implementation/algorithm/getlayerclusters.js:27-28 | with non-negative padding, both paddings are non-decreasing in the depth difference and in the uncertainty sum |
| LayerClusters.UncertaintySumFacts | src/implementation/algorithm/getlayerclusters.js:18-22 | the sum is 0 when nothing lies between leaf and parent, and non-negative when every uncertainty is |
| Layout.Contains | src/implementation/algorithm/layoutplanck.js:5-10 | the result is true iff the value occurs in the array |
| Layout.Dedup | src/implementation/algorithm/layoutplanck.js:12-20 | `unique` keeps exactly the values of its input |
| Layout.Unique | src/implementation/algorithm/layoutplanck.js:12-20 | the loop computes `Dedup` of its input |
| Layout.DedupDistinct | src/implementation/algorithm/layoutplanck.js:12-20 | the result of `unique` has no duplicates |
| Layout.DedupFirstOccurrenceOrder | src/implementation/algorithm/layoutplanck.js:12-20 | the values of the result appear in the order of their first occurrence in the input |
| Layout.DedupOfDistinct | src/implementation/algorithm/layoutplanck.js:12-20 | a list without duplicates is unchanged |
| Layout.DedupIdempotent | src/implementation/algorithm/layoutplanck.js:12-20 | applying `unique` twice is applying it once |
| Layout.Grandparents | src/implementation/algorithm/layoutplanck.js:37-40 | one entry per cluster: the cluster parent's parent |
| Layout.CollectGrandparents | src/implementation/algorithm/layoutplanck.js:37-40 | the loop collects `Grandparents` |
| Layout.GroupOf | src/implementation/algorithm/layoutplanck.js:45-47 | a group holds exactly the clusters whose grandparent is the key |
| Layout.EachClusterInOneGroup | src/implementation/algorithm/layoutplanck.js:37-47 | every cluster lies in exactly one group of the deduplicated grandparents |
| Layout.GroupCircles | src/implementation/algorithm/layoutplanck.js:49-52 | the circle list is the concatenation of the group's cluster nodes |
| Layout.CircleCentroid | src/implementation/algorithm/layoutplanck.js:146-161 | the loop computes the mass-weighted mean of the centres, or None for zero total mass |
| Layout.MassesScaleWithPi | src/implementation/algorithm/layoutplanck.js:151-156 | the total mass and both moments are pi times their values without pi |
| Layout.CentroidWithoutPi | src/implementation/algorithm/layoutplanck.js:146-161 | pi cancels: the centroid does not depend on its value |
| Layout.CentroidOfOne | src/implementation/algorithm/layoutplanck.js:146-161 | the centroid of one circle of non-zero radius is its centre |
| Layout.CentroidInBounds | build/d3-bubbletreemap.js:188-203 | with non-zero radii the centroid exists and lies within the bounds of the centres, per axis |
| Layout.CreateClusterBody | src/implementation/algorithm/layoutplanck.js:122-144 | the body and fixtures the loop builds are `ClusterBody` |
| Layout.ClusterBodyFixtures | src/implementation/algorithm/layoutplanck.js:124-140 | a body exists iff the centroid does; it is placed there with one fixture per node, whose local centre plus the body position is the node's centre and whose radius is r + planckPadding |
| Layout.LayoutLayerGroups | src/implementation/algorithm/layoutplanck.js:44-59 | the groups go to the simulation in order, each with its current centroid |
| Layout.LayoutLayerPass | src/implementation/algorithm/layoutplanck.js:32-59 | one pass: padding, then grouping by the deduplicated grandparents, then layout of the groups |
| Layout.LayoutPlanck | src/implementation/algorithm/layoutplanck.js:23-61 | packs, then runs the passes for depths height-1 down to 0 in that order |
| Layout.LeafRootOnlyPacked | src/implementation/algorithm/layoutplanck.js:30-32 | a root without children gets no pass: the result is the packer's |
| Contour.InflateNodes | src/implementation/algorithm/contour.js:6-10 | one circle per node, at the node's centre, with radius r + contourPadding |
| Contour.EnlargedCopies | src/implementation/algorithm/contour.js:65-72 | copies of the circles with radius + curvature; the originals are a separate value and stay as they were |
| Contour.LeftmostIsFirstMinimum | src/implementation/algorithm/contour.js:75-80 | the start index minimises centre.x - radius and is the first index to do so |
| Contour.LeftmostUnique | src/implementation/algorithm/contour.js:75-80 | only one index is the first minimum |
| Contour.LeftmostIndex | src/implementation/algorithm/contour.js:75-80 | the loop computes `Leftmost` |
| Contour.CandidatesAreCrossings | src/implementation/algorithm/contour.js:30-45 | every candidate is an intersection point of the current circle with another circle that intersects it |
| Contour.CrossingsAreCandidates | src/implementation/algorithm/contour.js:30-45 | every other circle that intersects the current one gives two candidates, both collected |
| Contour.IntersectionCandidates | src/implementation/algorithm/contour.js:28-45 | the loop collects `Candidates` |
| Contour.ChooseIsFirstSmallest | src/implementation/algorithm/contour.js:47-56 | nothing is chosen iff no candidate has an angle in (1e-5, 7); otherwise the choice has the smallest such angle and is the first to have it |
| Contour.ChosenIndex | src/implementation/algorithm/contour.js:47-56 | the same, with the chosen candidate's index |
| Contour.FirstSmallestUnique | src/implementation/algorithm/contour.js:47-56 | the first smallest eligible candidate is unique |
| Contour.SmallestAngle | src/implementation/algorithm/contour.js:47-58 | the `forEach` computes `Choose` |
| Contour.NextClockwiseIntersection | src/implementation/algorithm/contour.js:26-59 | computes `NextIntersection` |
| Contour.NextIsEligibleCrossing | src/implementation/algorithm/contour.js:26-59 | the next intersection, if any, is a crossing point with another circle that intersects the current one, at an eligible angle; there is none iff no candidate is eligible |
| Contour.NoNeighbourNoNext | src/implementation/algorithm/contour.js:30-58 | when no other circle intersects the current one, there is no next intersection |
| Contour.TraceOn | src/implementation/algorithm/contour.js:86-104 | every correctly traced prefix of hops extends to a complete trace |
| Contour.TracedUnique | src/implementation/algorithm/contour.js:86-104 | the walk is deterministic: two traces from the same circle with the same fuel are equal |
| Contour.TracedExists | src/implementation/algorithm/contour.js:86-104 | a trace exists from every circle |
| Contour.OuterRing | src/implementation/algorithm/contour.js:62-107 | no circles give an empty ring; otherwise the ring is the trace from the leftmost enlarged circle |
| Contour.NextHop | src/implementation/algorithm/contour.js:87-103 | stops when the search finds nothing or closes the ring; otherwise the hop it records extends the trace |
| Contour.OuterCircleRing | src/implementation/algorithm/contour.js:62-107 | the loop computes `OuterRing` |
| Contour.HopOnBothCircles | src/implementation/algorithm/contour.js:86-103 | each hop goes to a different enlarged circle that intersects the one it left, at a point on both |
| Contour.OuterRingOnCircles | src/implementation/algorithm/contour.js:69-103 | every ring point lies curvature beyond both its hop's circle and the previous hop's circle |
| Contour.IsolatedStartNoRing | src/implementation/algorithm/contour.js:86-89 | if no other enlarged circle meets the leftmost one, the ring is empty |
| Contour.LoneCircleNoRing | src/implementation/algorithm/contour.js:62-107 | a single circle has an empty ring |
| Contour.GenerateCircleArcs | src/implementation/algorithm/contour.js:110-127 | one arc per hop on the hop's circle, from its point to the next hop's point, wrapping round |
| Contour.GenerateTangentArcs | src/implementation/algorithm/contour.js:130-147 | one arc of radius curvature per hop, from the hop circle's centre direction to the previous hop circle's, wrapping round |
| Contour.ArcsJoin | src/implementation/algorithm/contour.js:110-147 | each tangent arc starts half a turn from its circle arc's start and ends half a turn from the previous circle arc's end |
| Contour.ArcAnglesInRange | src/implementation/algorithm/contour.js:120-141 | every arc angle lies in [0, 2 pi) |
| Contour.PathSpan | src/implementation/algorithm/contour.js:153-158 | a path keeps its arc's centre, radius and end; its start is the arc's start or a full turn less, and it runs forward by less than a full turn |
| Contour.ArcsToPaths | src/implementation/algorithm/contour.js:149-172 | the loop computes `Paths` |
| Contour.Contour | src/implementation/algorithm/contour.js:5-20 | the paths of the circle arcs followed by the tangent arcs of the outer ring |
| Contour.ContourLength | src/implementation/algorithm/contour.js:14-19 | a contour has two paths per ring hop |
| Contour.FewNodesNoContour | src/implementation/algorithm/contour.js:5-20 | no node or one node gives no paths |
| Contour.ContourPathsSpan | src/implementation/algorithm/contour.js:149-172 | every path of a contour has start <= end, less than a full turn apart |
| ContourHierarchy.StrokeSegments | src/implementation/contourhierarchy.js:15-17 | every segment gets the given stroke width |
| ContourHierarchy.LayerContours | src/implementation/contourhierarchy.js:11-20 | concatenates the stroked contours of the clusters, in order |
| ContourHierarchy.ContourLayerPass | src/implementation/contourhierarchy.js:6-20 | one depth: the padding pass, then the layer's segments |
| ContourHierarchy.ContourHierarchy | src/implementation/contourhierarchy.js:4-24 | the segments of the depths height-1 down to 0, and the node fields the padding passes leave |
| ContourHierarchy.PassKeepsPrefix | src/implementation/contourhierarchy.js:19 | later depths only append: segments already collected stay in front |
| ContourHierarchy.ClustersContourLength | src/implementation/contourhierarchy.js:11-20 | a layer's segment count is the sum over its clusters of two per ring hop |
| ContourHierarchy.LayerEven | src/implementation/contourhierarchy.js:8-20 | a layer has an even number of segments |
| ContourHierarchy.PassEven | src/implementation/contourhierarchy.js:6-21 | the depth loop keeps the segment count even |
| ContourHierarchy.ClustersContourStrokes | src/implementation/contourhierarchy.js:11-20 | every segment's stroke width is the uncertainty of some cluster's parent |
| ContourHierarchy.PaddingKeepsUncertainty | src/implementation/algorithm/getlayerclusters.js:27-28 | the padding pass leaves every uncertainty unchanged |
| ContourHierarchy.LayerStrokes | src/implementation/contourhierarchy.js:8-20 | every segment of a layer carries the uncertainty of one of that layer's cluster parents |
| ContourHierarchy.PassStrokes | src/implementation/contourhierarchy.js:6-21 | every new segment carries the uncertainty of a cluster parent at a visited depth |
| ContourHierarchy.HierarchyContours | src/implementation/contourhierarchy.js:4-24 | the result has an even length, is empty for a root without children, and every segment's stroke is a cluster parent's uncertainty |
| ColorHierarchy.ColorFor | src/implementation/colorhierarchy.js:5 | no colour iff the colormap is empty; otherwise a colour from the colormap |
| ColorHierarchy.ColorForRoundRobin | src/implementation/colorhierarchy.js:2-7 | index i < length picks colormap[i], and the choice repeats with period length |
| ColorHierarchy.PaintSubtree | src/implementation/colorhierarchy.js:4-6 | every listed node gets the colour and no other field changes |
| ColorHierarchy.ColorHierarchy | src/implementation/colorhierarchy.js:1-9 | fails iff the root has no children; otherwise the children's subtrees are painted in order with colours 0, 1, … |
| ColorHierarchy.ColoredAt | src/implementation/colorhierarchy.js:3-8 | a node's colour is that of the last child whose subtree holds it; nodes in no subtree keep their fields |
| ColorHierarchy.ColoringIdempotent | src/implementation/colorhierarchy.js:1-9 | colouring twice is colouring once |
| ColorHierarchy.SubtreeColor | src/implementation/colorhierarchy.js:3-8 | in a tree with distinct ids, every descendant of child i, the child included, gets colormap[i mod m] and nothing else changes |
| ColorHierarchy.ChildColor | src/implementation/colorhierarchy.js:3-8 | child i itself gets colormap[i mod m] |
| ColorHierarchy.RootUncolored | src/implementation/colorhierarchy.js:3-4 | the root's own fields, colour included, are not written |
| BubbleTreemap.DefaultsFillOnlyUnset | src/bubbletreemap.js:36-42 | a falsy r becomes value and a falsy uncertainty becomes the data's uncertainty; set values are kept, nothing else changes, and filling twice is filling once |
| BubbleTreemap.DefaultedIdempotent | src/bubbletreemap.js:34-44 | setting the same root twice gives the fields of setting it once |
| BubbleTreemap.FillDefaults | src/bubbletreemap.js:36-42 | the `forEach` fills in the defaults on every listed node |
| BubbleTreemap.Treemap.constructor | src/bubbletreemap.js:9-15 | padding 10, curvature 10, empty colormap, width 800, height 800, no root |
| BubbleTreemap.Treemap.SetPadding | src/bubbletreemap.js:50-52 | returns the object itself; the padding reads back as set, every other setting unchanged |
| BubbleTreemap.Treemap.SetWidth | src/bubbletreemap.js:54-56 | returns the object itself; the width reads back as set, every other setting unchanged |
| BubbleTreemap.Treemap.SetHeight | src/bubbletreemap.js:58-60 | returns the object itself; the height reads back as set, every other setting unchanged |
| BubbleTreemap.Treemap.SetCurvature | src/bubbletreemap.js:62-64 | returns the object itself; the curvature reads back as set, every other setting unchanged |
| BubbleTreemap.Treemap.SetColormap | src/bubbletreemap.js:66-68 | returns the object itself; the colormap reads back as set, every other setting unchanged |
| BubbleTreemap.Treemap.SetHierarchyRoot | src/bubbletreemap.js:34-44 | fills in the defaults on every descendant, keeps the root and returns the object itself |
| BubbleTreemap.Treemap.DoColoring | src/bubbletreemap.js:18-22 | colours the root's subtrees with the current colormap; fails with no root or a childless root; returns the object itself |
| BubbleTreemap.Treemap.DoLayout | src/bubbletreemap.js:24-27 | lays out with the current padding, width and height; fails with no root; returns the object itself |
| BubbleTreemap.Treemap.GetContour | src/bubbletreemap.js:29-32 | the contours for the current padding and curvature; no root gives none |

## Left out

- The planck-js simulation (`layoutClusters`, src/implementation/algorithm/layoutplanck.js:63-120) is the parameter `Layout.Engine`. It is a foreign physics engine doing floating-point integration. The model fixes only what it is given: the group's clusters, their current fields and the centroid.
- `d3.pack` (src/implementation/algorithm/layoutplanck.js:26-30) is the parameter `Layout.Packer`. It is a foreign library call.
- The `d3.arc` path string and the `translate(...)` string (src/implementation/algorithm/contour.js:151, 160-168) are left out; foreign serialisation. A `Contour.Path` holds the arguments handed to `d3.arc`: centre, normalised start, end and radius.
- Floating point: numbers are exact reals, and `Math.sqrt`, `Math.atan2` and `Math.PI` are the `MathLib` parameter with the laws of `Geometry.Lawful`. Rounding, and the accuracy behind the 1e-5 comparisons, are not modelled.
- Contour.OuterCircleRing: the `while (true)` loop is cut off after `fuel` hops. Whether the walk closes the ring, and whether it traces the true silhouette, is not proved.
- `console.log` (src/implementation/algorithm/layoutplanck.js:56-57) is output only.
- The UMD wrapper of the bundle (build/d3-bubbletreemap.js:1-5, 556-559) is module plumbing.
- `Array.prototype.contains` and `unique` are standalone functions over sequences. JavaScript's `===` on the grandparent objects is equality of their ids, with `None` for the root's missing parent.
- BubbleTreemap.Treemap.SetPadding, SetWidth, SetHeight and SetCurvature take a real, so the `+_` numeric coercion is not modelled. In the source, one function per setting serves as getter and setter; here the getter is a separate function.
- `toUnitVector` (src/geometry/vec2.js:36-38) is not used by the modelled code.
- `src/geometry/arc.js` is the record `Geometry.Arc`. It has no behaviour to prove.
- JavaScript truthiness: the `hierarchyRoot` setter's falsy `r` or `uncertainty` is the value 0. `NaN` and `undefined` fields are not represented.
- Object identity of hierarchy nodes is node ids. Properties that need every node to be a different object require `Hierarchy.WellFormed`, meaning distinct ids.
- Contour.Contour and the methods that call it take the same `fuel` bound for the ring walk.
- Layout.LayoutPlanck: positions that the packer and the simulation give are opaque. The convergence and non-overlap goals of the physics layout are not stated.
- Several loops are split into helper methods, each with its own loop:
  - the inner `forEach` of `getLayerClusters`, as `LayerClusters.ClusterLayerNode`;
  - the group loop of the layout, as `Layout.LayoutLayerGroups`;
  - one hop of the ring walk, as `Contour.NextHop`;
  - the stroke loop, as `ContourHierarchy.StrokeSegments`.
- The initial `hierarchyRoot = []` is `null`.
  - `doColoring` and `doLayout` then fail, modelled as `ok == false`.
  - `getContour` then returns no contours, as the source's loop from `NaN` never runs.
- The bundled copies of `contains`, `unique`, `getCircleCentroid` and `colorHierarchy` are textually the same as the `src` ones. They are modelled once.
