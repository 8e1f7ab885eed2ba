/**
 * The layout driver of `layoutplanck.js`: d3 packs the leaves, then for every
 * depth from `height - 1` up to the root the clusters of that layer are
 * grouped by their grandparent and each group is handed to the physics
 * simulation, together with the area-weighted centroid of its circles.
 *
 * The packer and the simulation are foreign code: they enter the model as the
 * function parameters `pack` and `engine`, which map the node fields before a
 * call to the node fields after it.
 */
module Layout {
  import opened Wrappers
  import opened Geometry
  import opened Hierarchy
  import opened LayerClusters

  // ---------------------------------------------------------------------
  // Array.prototype.contains and Array.prototype.unique
  // ---------------------------------------------------------------------

  /** `arr.contains(v)`: a linear scan with `===`. */
  method Contains<T(==)>(arr: seq<T>, v: T) returns (found: bool)
    ensures found <==> v in arr
  {
    var i := 0;
    while i < |arr|
      invariant i <= |arr|
      invariant v !in arr[..i]
    {
      if arr[i] == v {
        return true;
      }
      i := i + 1;
    }
    assert arr[..i] == arr;
    return false;
  }

  predicate NoDuplicates<T(==)>(xs: seq<T>) {
    forall i, j :: 0 <= i < j < |xs| ==> xs[i] != xs[j]
  }

  /** The elements of `xs` at their first occurrence, in the order of `xs`. */
  function Dedup<T(==, !new)>(xs: seq<T>): (r: seq<T>)
    ensures forall v :: v in r <==> v in xs
  {
    if xs == [] then []
    else
      var kept := Dedup(xs[..|xs| - 1]);
      if xs[|xs| - 1] in kept then kept else kept + [xs[|xs| - 1]]
  }

  /** The position of the first occurrence of `v` in `xs`. */
  function FirstIndex<T(==)>(xs: seq<T>, v: T): (i: nat)
    requires v in xs
    ensures i < |xs| && xs[i] == v && v !in xs[..i]
  {
    if v in xs[..|xs| - 1] then FirstIndex(xs[..|xs| - 1], v) else |xs| - 1
  }

  /** `xs.unique()`: appends each element `arr` does not contain yet. */
  method Unique<T(==, !new)>(xs: seq<T>) returns (arr: seq<T>)
    ensures arr == Dedup(xs)
  {
    arr := [];
    var i := 0;
    while i < |xs|
      invariant i <= |xs|
      invariant arr == Dedup(xs[..i])
    {
      var found := Contains(arr, xs[i]);
      assert xs[..i + 1][..i] == xs[..i];
      if !found {
        arr := arr + [xs[i]];
      }
      i := i + 1;
    }
    assert xs[..i] == xs;
  }

  /** `unique` leaves no element twice. */
  lemma {:induction false} DedupDistinct<T(!new)>(xs: seq<T>)
    ensures NoDuplicates(Dedup(xs))
  {
    if xs != [] {
      DedupDistinct(xs[..|xs| - 1]);
    }
  }

  /** `unique` lists the elements in the order of their first occurrences. */
  lemma {:induction false} DedupFirstOccurrenceOrder<T(!new)>(xs: seq<T>)
    ensures forall i, j :: 0 <= i < j < |Dedup(xs)| ==> FirstIndex(xs, Dedup(xs)[i]) < FirstIndex(xs, Dedup(xs)[j])
  {
    if xs != [] {
      var init := xs[..|xs| - 1];
      var kept := Dedup(init);
      DedupFirstOccurrenceOrder(init);
      forall i, j | 0 <= i < j < |Dedup(xs)|
        ensures FirstIndex(xs, Dedup(xs)[i]) < FirstIndex(xs, Dedup(xs)[j])
      {
        FirstIndexInInit(xs, Dedup(xs)[i]);
        if j < |kept| {
          FirstIndexInInit(xs, Dedup(xs)[j]);
        }
      }
    }
  }

  /** The first occurrence of an element that occurs before the last position. */
  lemma FirstIndexInInit<T>(xs: seq<T>, v: T)
    requires xs != [] && v in xs
    ensures v in xs[..|xs| - 1] ==> FirstIndex(xs, v) == FirstIndex(xs[..|xs| - 1], v)
    ensures v !in xs[..|xs| - 1] ==> FirstIndex(xs, v) == |xs| - 1
  {
  }

  /** A list without duplicates is its own `unique`. */
  lemma {:induction false} DedupOfDistinct<T(!new)>(xs: seq<T>)
    requires NoDuplicates(xs)
    ensures Dedup(xs) == xs
  {
    if xs != [] {
      var init := xs[..|xs| - 1];
      assert NoDuplicates(init) by {
        forall i, j | 0 <= i < j < |init|
          ensures init[i] != init[j]
        {
          assert init[i] == xs[i] && init[j] == xs[j];
        }
      }
      DedupOfDistinct(init);
      assert xs[|xs| - 1] !in init;
      assert xs == init + [xs[|xs| - 1]];
    }
  }

  /** `unique` is idempotent. */
  lemma DedupIdempotent<T(!new)>(xs: seq<T>)
    ensures Dedup(Dedup(xs)) == Dedup(xs)
  {
    DedupDistinct(xs);
    DedupOfDistinct(Dedup(xs));
  }

  // ---------------------------------------------------------------------
  // Grouping the clusters of a layer by grandparent
  // ---------------------------------------------------------------------

  /** `cluster.parent.parent` of every cluster, in cluster order. */
  function Grandparents(clusters: seq<Cluster>): (r: seq<Option<NodeId>>)
    ensures |r| == |clusters|
    ensures forall i :: 0 <= i < |clusters| ==> r[i] == clusters[i].parentOfParent
  {
    seq(|clusters|, i requires 0 <= i < |clusters| => clusters[i].parentOfParent)
  }

  /** The `forEach` that pushes `cluster.parent.parent` onto `pps`. */
  method CollectGrandparents(clusters: seq<Cluster>) returns (pps: seq<Option<NodeId>>)
    ensures pps == Grandparents(clusters)
  {
    pps := [];
    var i := 0;
    while i < |clusters|
      invariant i <= |clusters|
      invariant |pps| == i
      invariant forall j :: 0 <= j < i ==> pps[j] == clusters[j].parentOfParent
    {
      pps := pps + [clusters[i].parentOfParent];
      i := i + 1;
    }
  }

  /** The clusters of the layer whose layer node has the parent `pp`, in order. */
  function GroupOf(clusters: seq<Cluster>, pp: Option<NodeId>): (r: seq<Cluster>)
    ensures forall c :: c in r <==> c in clusters && c.parentOfParent == pp
  {
    if clusters == [] then []
    else
      var init := clusters[..|clusters| - 1];
      var last := clusters[|clusters| - 1];
      assert clusters == init + [last];
      GroupOf(init, pp) + (if last.parentOfParent == pp then [last] else [])
  }

  /** The distinct grandparents of a layer's clusters, in first-occurrence order: `pps.unique()`. */
  function GroupKeys(clusters: seq<Cluster>): seq<Option<NodeId>> {
    Dedup(Grandparents(clusters))
  }

  /**
   * Every cluster of a layer is laid out in exactly one group: the group `k`
   * of its own grandparent, which `unique` lists once.
   */
  lemma EachClusterInOneGroup(clusters: seq<Cluster>, i: nat) returns (k: nat)
    requires i < |clusters|
    ensures k < |GroupKeys(clusters)| && clusters[i] in GroupOf(clusters, GroupKeys(clusters)[k])
    ensures forall l :: 0 <= l < |GroupKeys(clusters)| && clusters[i] in GroupOf(clusters, GroupKeys(clusters)[l]) ==> l == k
  {
    var gps := Grandparents(clusters);
    var pps := GroupKeys(clusters);
    DedupDistinct(gps);
    assert gps[i] in pps;
    k :| 0 <= k < |pps| && pps[k] == gps[i];
  }

  /** The `forEach` that concatenates the nodes of a group's clusters into `circleList`. */
  method GroupCircles(group: seq<Cluster>) returns (circleList: seq<NodeId>)
    ensures circleList == ClusterNodes(group)
  {
    circleList := [];
    var j := 0;
    while j < |group|
      invariant j <= |group|
      invariant circleList == ClusterNodes(group[..j])
    {
      assert group[..j + 1][..j] == group[..j];
      circleList := circleList + group[j].nodes;
      j := j + 1;
    }
    assert group[..j] == group;
  }

  // ---------------------------------------------------------------------
  // getCircleCentroid
  // ---------------------------------------------------------------------

  datatype Axis = X | Y

  function Coord(c: NodeAttrs, axis: Axis): real {
    match axis
    case X => c.x
    case Y => c.y
  }

  function Component(v: Vec2, axis: Axis): real {
    match axis
    case X => v.x
    case Y => v.y
  }

  /** `circle.r * circle.r * Math.PI` */
  function Mass(pi: real, c: NodeAttrs): real {
    c.r * c.r * pi
  }

  function MassSum(pi: real, cs: seq<NodeAttrs>): real {
    if cs == [] then 0.0 else MassSum(pi, cs[..|cs| - 1]) + Mass(pi, cs[|cs| - 1])
  }

  /** The sum of every centre coordinate on `axis` weighted by its circle's mass. */
  function Moment(pi: real, cs: seq<NodeAttrs>, axis: Axis): real {
    if cs == [] then 0.0 else Moment(pi, cs[..|cs| - 1], axis) + Coord(cs[|cs| - 1], axis) * Mass(pi, cs[|cs| - 1])
  }

  /**
   * The area-weighted centroid of the circles. `None` stands for the NaN
   * centroid the source computes when the total mass is 0.
   */
  function Centroid(pi: real, cs: seq<NodeAttrs>): Option<Vec2> {
    var total := MassSum(pi, cs);
    if total == 0.0 then None else Some(Vec2(Moment(pi, cs, X), Moment(pi, cs, Y)).Scale(1.0 / total))
  }

  /** `getCircleCentroid(circles)` */
  method CircleCentroid(m: MathLib, circles: seq<NodeAttrs>) returns (centroid: Option<Vec2>)
    ensures centroid == Centroid(m.pi, circles)
  {
    var circleMassSum := 0.0;
    var sum := Origin;
    var i := 0;
    while i < |circles|
      invariant i <= |circles|
      invariant circleMassSum == MassSum(m.pi, circles[..i])
      invariant sum == Vec2(Moment(m.pi, circles[..i], X), Moment(m.pi, circles[..i], Y))
    {
      var circleMass := circles[i].r * circles[i].r * m.pi;
      assert circles[..i + 1][..i] == circles[..i];
      circleMassSum := circleMassSum + circleMass;
      sum := Vec2(sum.x + circles[i].x * circleMass, sum.y + circles[i].y * circleMass);
      i := i + 1;
    }
    assert circles[..i] == circles;
    if circleMassSum == 0.0 {
      centroid := None;
    } else {
      centroid := Some(sum.Scale(1.0 / circleMassSum));
    }
  }

  lemma {:induction false} MassesScaleWithPi(pi: real, cs: seq<NodeAttrs>)
    ensures MassSum(pi, cs) == pi * MassSum(1.0, cs)
    ensures Moment(pi, cs, X) == pi * Moment(1.0, cs, X)
    ensures Moment(pi, cs, Y) == pi * Moment(1.0, cs, Y)
  {
    if cs != [] {
      MassesScaleWithPi(pi, cs[..|cs| - 1]);
      var c := cs[|cs| - 1];
      assert Mass(pi, c) == pi * Mass(1.0, c);
      assert c.x * Mass(pi, c) == pi * (c.x * Mass(1.0, c));
      assert c.y * Mass(pi, c) == pi * (c.y * Mass(1.0, c));
    }
  }

  /** Scaling numerator and denominator by the same non-zero factor leaves the quotient. */
  lemma ScaledRatio(p: real, a: real, t: real, ap: real, tp: real)
    requires p != 0.0 && t != 0.0 && ap == p * a && tp == p * t
    ensures tp != 0.0
    ensures ap * (1.0 / tp) == a * (1.0 / t)
  {
    assert 1.0 / (p * t) == (1.0 / p) * (1.0 / t);
  }

  /** Both moments and the total scaled by the same non-zero factor give the same point. */
  lemma ScaledMoments(p: real, x: real, y: real, t: real, xp: real, yp: real, tp: real)
    requires p != 0.0 && t != 0.0 && xp == p * x && yp == p * y && tp == p * t
    ensures tp != 0.0
    ensures Vec2(xp, yp).Scale(1.0 / tp) == Vec2(x, y).Scale(1.0 / t)
  {
    ScaledRatio(p, x, t, xp, tp);
    ScaledRatio(p, y, t, yp, tp);
  }

  function Prod(a: real, b: real): real {
    a * b
  }

  lemma PositiveProduct(a: real, b: real)
    requires 0.0 < a && 0.0 < b
    ensures 0.0 < Prod(a, b)
  {
  }

  /** For positive pi a circle's mass is never negative, and positive unless its radius is 0. */
  lemma MassSign(pi: real, c: NodeAttrs)
    requires 0.0 < pi
    ensures 0.0 <= Mass(pi, c)
    ensures c.r != 0.0 ==> 0.0 < Mass(pi, c)
  {
    var r := Abs(c.r);
    if r != 0.0 {
      PositiveProduct(r, r);
      PositiveProduct(Prod(r, r), pi);
      assert Mass(pi, c) == Prod(Prod(r, r), pi);
    }
  }

  lemma MassNonZero(pi: real, c: NodeAttrs)
    requires pi != 0.0 && c.r != 0.0
    ensures Mass(pi, c) != 0.0
  {
    var r := Abs(c.r);
    var p := Abs(pi);
    PositiveProduct(r, r);
    PositiveProduct(Prod(r, r), p);
    assert Mass(pi, c) == Prod(Prod(r, r), p) || Mass(pi, c) == -Prod(Prod(r, r), p);
  }

  /** pi cancels: the centroid is the mean of the centres weighted by `r * r`. */
  lemma CentroidWithoutPi(pi: real, cs: seq<NodeAttrs>)
    requires pi != 0.0
    ensures Centroid(pi, cs) == Centroid(1.0, cs)
  {
    MassesScaleWithPi(pi, cs);
    var total, tp := MassSum(1.0, cs), MassSum(pi, cs);
    var x1, y1 := Moment(1.0, cs, X), Moment(1.0, cs, Y);
    var xp, yp := Moment(pi, cs, X), Moment(pi, cs, Y);
    if total != 0.0 {
      ScaledMoments(pi, x1, y1, total, xp, yp, tp);
      assert Centroid(pi, cs) == Some(Vec2(xp, yp).Scale(1.0 / tp));
      assert Centroid(1.0, cs) == Some(Vec2(x1, y1).Scale(1.0 / total));
    } else {
      assert tp == 0.0;
    }
  }

  lemma DivideOut(a: real, w: real)
    requires w != 0.0
    ensures (a * w) * (1.0 / w) == a
  {
  }

  /** The centroid of a single circle is its centre. */
  lemma CentroidOfOne(pi: real, c: NodeAttrs)
    requires pi != 0.0 && c.r != 0.0
    ensures Centroid(pi, [c]) == Some(Vec2(c.x, c.y))
  {
    assert [c][..0] == [];
    var w := Mass(pi, c);
    MassNonZero(pi, c);
    var x, y := c.x * w, c.y * w;
    assert MassSum(pi, [c]) == w;
    assert Moment(pi, [c], X) == x;
    assert Moment(pi, [c], Y) == y;
    DivideOut(c.x, w);
    DivideOut(c.y, w);
    assert Centroid(pi, [c]) == Some(Vec2(x, y).Scale(1.0 / w));
    assert Vec2(x, y).Scale(1.0 / w) == Vec2(x * (1.0 / w), y * (1.0 / w));
    assert Vec2(x * (1.0 / w), y * (1.0 / w)) == Vec2(c.x, c.y);
  }

  /** A moment `mo` of total mass `m` whose coordinates all lie between `lo` and `hi`. */
  predicate Within(lo: real, hi: real, m: real, mo: real) {
    lo * m <= mo <= hi * m
  }

  /** Adding one weighted coordinate within bounds to a weighted sum within bounds. */
  lemma BoundsStep(lo: real, hi: real, m0: real, mo0: real, v: real, w: real, m: real, mo: real)
    requires Within(lo, hi, m0, mo0)
    requires lo <= v <= hi && 0.0 <= w
    requires m == m0 + w && mo == mo0 + v * w
    ensures Within(lo, hi, m, mo)
  {
    assert lo * w <= v * w <= hi * w;
  }

  lemma ZeroBounds(lo: real, hi: real, m: real, mo: real)
    requires m == 0.0 && mo == 0.0
    ensures Within(lo, hi, m, mo)
  {
  }

  lemma {:induction false} MomentBounds(pi: real, cs: seq<NodeAttrs>, axis: Axis, lo: real, hi: real)
    requires 0.0 < pi
    requires forall i :: 0 <= i < |cs| ==> lo <= Coord(cs[i], axis) <= hi
    ensures Within(lo, hi, MassSum(pi, cs), Moment(pi, cs, axis))
  {
    if cs != [] {
      var init := cs[..|cs| - 1];
      var c := cs[|cs| - 1];
      MomentBounds(pi, init, axis, lo, hi);
      var w := Mass(pi, c);
      var m0, mo0 := MassSum(pi, init), Moment(pi, init, axis);
      MassSign(pi, c);
      BoundsStep(lo, hi, m0, mo0, Coord(c, axis), w, MassSum(pi, cs), Moment(pi, cs, axis));
    } else {
      ZeroBounds(lo, hi, MassSum(pi, cs), Moment(pi, cs, axis));
    }
  }

  lemma {:induction false} MassSumPositive(pi: real, cs: seq<NodeAttrs>)
    requires 0.0 < pi && cs != []
    requires forall i :: 0 <= i < |cs| ==> cs[i].r != 0.0
    ensures 0.0 < MassSum(pi, cs)
  {
    var init := cs[..|cs| - 1];
    MassSign(pi, cs[|cs| - 1]);
    if init != [] {
      MassSumPositive(pi, init);
    }
  }

  lemma DivideBounds(lo: real, v: real, hi: real, w: real)
    requires 0.0 < w && Within(lo, hi, w, v)
    ensures lo <= v * (1.0 / w) <= hi
  {
    assert v * (1.0 / w) == v / w;
  }

  /**
   * With positive `pi` and non-zero radii, the centroid exists and lies within
   * any bounds that hold every centre: it is a convex combination of them.
   */
  lemma CentroidInBounds(pi: real, cs: seq<NodeAttrs>, axis: Axis, lo: real, hi: real)
    requires 0.0 < pi && cs != []
    requires forall i :: 0 <= i < |cs| ==> cs[i].r != 0.0
    requires forall i :: 0 <= i < |cs| ==> lo <= Coord(cs[i], axis) <= hi
    ensures Centroid(pi, cs).Some?
    ensures lo <= Component(Centroid(pi, cs).value, axis) <= hi
  {
    MassSumPositive(pi, cs);
    var total := MassSum(pi, cs);
    var moment := Moment(pi, cs, axis);
    MomentBounds(pi, cs, axis, lo, hi);
    DivideBounds(lo, moment, hi, total);
    assert Component(Centroid(pi, cs).value, axis) == moment * (1.0 / total);
  }

  // ---------------------------------------------------------------------
  // createClusterBody
  // ---------------------------------------------------------------------

  /** A circle fixture of a body: its circle relative to the body and the node it stands for. */
  datatype Fixture = Fixture(circle: Circle, userData: NodeId)

  /** A dynamic body of the simulation: its position and its fixtures. */
  datatype Body = Body(position: Vec2, fixtures: seq<Fixture>)

  function CenterOf(a: NodeAttrs): Vec2 {
    Vec2(a.x, a.y)
  }

  /** The fixture of node `id` on a body at `position`. */
  function FixtureOf(attrs: map<NodeId, NodeAttrs>, position: Vec2, id: NodeId): Fixture {
    var a := Get(attrs, id);
    Fixture(Circle(CenterOf(a).Sub(position), a.r + a.planckPadding), id)
  }

  /**
   * The body `createClusterBody` builds for a cluster, `None` where the
   * source's centroid is NaN.
   */
  function ClusterBody(pi: real, attrs: map<NodeId, NodeAttrs>, ids: seq<NodeId>): Option<Body> {
    match Centroid(pi, NodesOf(attrs, ids))
    case None => None
    case Some(c) => Some(Body(c, seq(|ids|, i requires 0 <= i < |ids| => FixtureOf(attrs, c, ids[i]))))
  }

  /** `createClusterBody(layerCluster, world)`, without the world it registers the body in. */
  method CreateClusterBody(m: MathLib, attrs: map<NodeId, NodeAttrs>, nodes: seq<NodeId>) returns (body: Option<Body>)
    ensures body == ClusterBody(m.pi, attrs, nodes)
  {
    var bodyCentroid := CircleCentroid(m, NodesOf(attrs, nodes));
    if bodyCentroid.None? {
      return None;
    }
    var position := bodyCentroid.value;
    var fixtures := [];
    var i := 0;
    while i < |nodes|
      invariant i <= |nodes|
      invariant |fixtures| == i
      invariant forall j :: 0 <= j < i ==> fixtures[j] == FixtureOf(attrs, position, nodes[j])
    {
      var circle := Get(attrs, nodes[i]);
      var centerGlobal := Vec2(circle.x, circle.y);
      var centerLocal := centerGlobal.Sub(position);
      fixtures := fixtures + [Fixture(Circle(centerLocal, circle.r + circle.planckPadding), nodes[i])];
      i := i + 1;
    }
    assert fixtures == seq(|nodes|, i requires 0 <= i < |nodes| => FixtureOf(attrs, position, nodes[i]));
    body := Some(Body(position, fixtures));
  }

  /**
   * The body of a cluster sits at the cluster's centroid and holds one fixture
   * per node, in node order; placed at the body's position, each fixture is
   * centred on its node and is `planckPadding` wider than it.
   */
  lemma ClusterBodyFixtures(pi: real, attrs: map<NodeId, NodeAttrs>, ids: seq<NodeId>)
    ensures ClusterBody(pi, attrs, ids).Some? <==> Centroid(pi, NodesOf(attrs, ids)).Some?
    ensures ClusterBody(pi, attrs, ids).Some? ==>
      var body := ClusterBody(pi, attrs, ids).value;
      body.position == Centroid(pi, NodesOf(attrs, ids)).value
      && |body.fixtures| == |ids|
      && forall i :: 0 <= i < |ids| ==>
           body.fixtures[i].userData == ids[i]
           && body.fixtures[i].circle.center.Add(body.position) == CenterOf(Get(attrs, ids[i]))
           && body.fixtures[i].circle.radius == Get(attrs, ids[i]).r + Get(attrs, ids[i]).planckPadding
  {
    if ClusterBody(pi, attrs, ids).Some? {
      var body := ClusterBody(pi, attrs, ids).value;
      forall i | 0 <= i < |ids|
        ensures body.fixtures[i].circle.center.Add(body.position) == CenterOf(Get(attrs, ids[i]))
      {
        SubAddRoundTrip(CenterOf(Get(attrs, ids[i])), body.position);
      }
    }
  }

  // ---------------------------------------------------------------------
  // The depth loop
  // ---------------------------------------------------------------------

  /** `d3.pack()` sized `width` by `height`, applied to the hierarchy. */
  type Packer = (Tree, map<NodeId, NodeAttrs>, real, real) -> map<NodeId, NodeAttrs>

  /** `layoutClusters(clusters, centroid)`: the physics simulation of one group. */
  type Engine = (seq<Cluster>, Option<Vec2>, map<NodeId, NodeAttrs>) -> map<NodeId, NodeAttrs>

  /** The centroid of all circles of a group, with the fields they have now. */
  function GroupCentroid(m: MathLib, attrs: map<NodeId, NodeAttrs>, group: seq<Cluster>): Option<Vec2> {
    Centroid(m.pi, NodesOf(attrs, ClusterNodes(group)))
  }

  /** The node fields after the groups of the grandparents `pps` have been laid out, in order. */
  function LayoutGroups(m: MathLib, attrs: map<NodeId, NodeAttrs>, clusters: seq<Cluster>,
                        pps: seq<Option<NodeId>>, engine: Engine): map<NodeId, NodeAttrs>
  {
    if pps == [] then attrs
    else
      var before := LayoutGroups(m, attrs, clusters, pps[..|pps| - 1], engine);
      var group := GroupOf(clusters, pps[|pps| - 1]);
      engine(group, GroupCentroid(m, before, group), before)
  }

  /** One pass of the depth loop: padding the layer's leaves, then laying out its groups. */
  function LayoutLayer(m: MathLib, attrs: map<NodeId, NodeAttrs>, root: Tree, layerDepth: nat,
                       padding: real, variant: Variant, engine: Engine): map<NodeId, NodeAttrs>
  {
    var padded := PaddedAttrs(attrs, root, layerDepth, padding, variant);
    var clusters := Clusters(root, layerDepth);
    LayoutGroups(m, padded, clusters, GroupKeys(clusters), engine)
  }

  /** The passes for depths `layerDepth`, `layerDepth - 1`, ..., `0`, in that order. */
  function LayoutFrom(m: MathLib, attrs: map<NodeId, NodeAttrs>, root: Tree, layerDepth: int,
                      padding: real, variant: Variant, engine: Engine): map<NodeId, NodeAttrs>
    decreases layerDepth + 1
  {
    if layerDepth < 0 then attrs
    else LayoutFrom(m, LayoutLayer(m, attrs, root, layerDepth, padding, variant, engine), root, layerDepth - 1,
                    padding, variant, engine)
  }

  /** The node fields after the whole layout. */
  function LayoutResult(m: MathLib, attrs: map<NodeId, NodeAttrs>, root: Tree, padding: real, width: real,
                        height: real, variant: Variant, pack: Packer, engine: Engine): map<NodeId, NodeAttrs>
  {
    LayoutFrom(m, pack(root, attrs, width, height), root, Height(root) - 1, padding, variant, engine)
  }

  /** A root without children has no layer to lay out: only the packer moves its circle. */
  lemma LeafRootOnlyPacked(m: MathLib, attrs: map<NodeId, NodeAttrs>, root: Tree, padding: real, width: real,
                           height: real, variant: Variant, pack: Packer, engine: Engine)
    requires IsLeaf(root)
    ensures LayoutResult(m, attrs, root, padding, width, height, variant, pack, engine) == pack(root, attrs, width, height)
  {
  }

  /** The `pps.forEach` of one layer: each grandparent's group goes to the simulation. */
  method LayoutLayerGroups(m: MathLib, h: HierarchyRoot, clusters: seq<Cluster>, pps: seq<Option<NodeId>>, engine: Engine)
    modifies h
    ensures h.attrs == LayoutGroups(m, old(h.attrs), clusters, pps, engine)
  {
    ghost var attrs0 := h.attrs;
    var k := 0;
    while k < |pps|
      invariant k <= |pps|
      invariant h.attrs == LayoutGroups(m, attrs0, clusters, pps[..k], engine)
    {
      var currentPPClusters := GroupOf(clusters, pps[k]);
      var circleList := GroupCircles(currentPPClusters);
      var centroid := CircleCentroid(m, NodesOf(h.attrs, circleList));
      assert pps[..k + 1][..k] == pps[..k];
      h.attrs := engine(currentPPClusters, centroid, h.attrs);
      k := k + 1;
    }
    assert pps[..k] == pps;
  }

  /** One pass of the depth loop: the clusters of the layer, their grandparents, their groups. */
  method LayoutLayerPass(m: MathLib, h: HierarchyRoot, layerDepth: nat, padding: real, variant: Variant, engine: Engine)
    modifies h
    ensures h.attrs == LayoutLayer(m, old(h.attrs), h.tree, layerDepth, padding, variant, engine)
  {
    var layerClusters := GetLayerClusters(h, layerDepth, padding, variant);
    var gps := CollectGrandparents(layerClusters);
    var pps := Unique(gps);
    LayoutLayerGroups(m, h, layerClusters, pps, engine);
  }

  /**
   * The default export of `layoutplanck.js`: pack the hierarchy, then run
   * one pass per depth, from the deepest layer up to the root's.
   */
  method LayoutPlanck(m: MathLib, h: HierarchyRoot, padding: real, width: real, height: real,
                      variant: Variant, pack: Packer, engine: Engine)
    modifies h
    ensures h.attrs == LayoutResult(m, old(h.attrs), h.tree, padding, width, height, variant, pack, engine)
  {
    var tree := h.tree;
    h.attrs := pack(tree, h.attrs, width, height);
    ghost var target := LayoutFrom(m, h.attrs, tree, Height(tree) - 1, padding, variant, engine);
    var layerDepth: int := Height(tree) - 1;
    while layerDepth >= 0
      invariant -1 <= layerDepth
      invariant LayoutFrom(m, h.attrs, tree, layerDepth, padding, variant, engine) == target
      decreases layerDepth + 1
    {
      LayoutLayerPass(m, h, layerDepth, padding, variant, engine);
      layerDepth := layerDepth - 1;
    }
  }
}
