/**
 * `contour.js`: the outline of one cluster of circles. Each circle is inflated
 * by its contour padding; a copy of the circles grown by the curvature is
 * walked clockwise from the leftmost circle, hopping at each step to the
 * intersection point reached first when turning from the current direction.
 * The ring of hops becomes one arc per ring circle plus one tangent arc of
 * radius `curvature` around each hop point, filling the notch between two
 * neighbouring circles.
 *
 * Every operation is a method with the loop of the source, proved equal to a
 * function; the lemmas say what the functions mean.
 */
module Contour {
  import opened Wrappers
  import opened Geometry
  import opened Hierarchy

  /** `FLOATINGPOINT_EPSILON`. */
  const Eps: real := 0.00001

  /** The initial `smallestAngle`: more than any angle `Vec2.angle` returns. */
  const NoAngle: real := 7.0

  /** `new Vec2(-1, 0)`: the direction the search starts in. */
  const West := Vec2(-1.0, 0.0)

  /**
   * `{intersectionPoint, circleIndex}`. The point is `None` where the source
   * computes a NaN point: for two coincident circles.
   */
  datatype Intersection = Intersection(point: Option<Vec2>, circleIndex: nat)

  /** `{circle, intersectionPoint, circleIndex}`: one hop of the outer ring. */
  datatype RingEntry = RingEntry(circle: Circle, point: Vec2, circleIndex: nat)

  /**
   * What `arcsToPaths` hands to `d3.arc` for one arc: the translation, the
   * normalised angles and the radius (inner and outer radius alike).
   */
  datatype Path = Path(center: Vec2, startAngle: real, endAngle: real, radius: real)

  // ---------------------------------------------------------------------
  // The working circles
  // ---------------------------------------------------------------------

  /** The circles of the nodes, each grown by its contour padding. */
  function Inflated(nodes: seq<NodeAttrs>): (r: seq<Circle>)
    ensures |r| == |nodes|
  {
    seq(|nodes|, i requires 0 <= i < |nodes| => Circle(Vec2(nodes[i].x, nodes[i].y), nodes[i].r + nodes[i].contourPadding))
  }

  /** The loop that builds one working circle per node, in node order. */
  method InflateNodes(nodes: seq<NodeAttrs>) returns (circles: seq<Circle>)
    ensures |circles| == |nodes|
    ensures forall i :: 0 <= i < |nodes| ==>
      circles[i].center == Vec2(nodes[i].x, nodes[i].y) && circles[i].radius == nodes[i].r + nodes[i].contourPadding
    ensures circles == Inflated(nodes)
  {
    circles := [];
    var i := 0;
    while i < |nodes|
      invariant i <= |nodes|
      invariant |circles| == i
      invariant forall j :: 0 <= j < i ==>
        circles[j] == Circle(Vec2(nodes[j].x, nodes[j].y), nodes[j].r + nodes[j].contourPadding)
    {
      circles := circles + [Circle(Vec2(nodes[i].x, nodes[i].y), nodes[i].r + nodes[i].contourPadding)];
      i := i + 1;
    }
  }

  /** The copies the ring is traced on: every radius grown by `curvature`. */
  function Enlarged(circles: seq<Circle>, curvature: real): (r: seq<Circle>)
    ensures |r| == |circles|
  {
    seq(|circles|, i requires 0 <= i < |circles| => Circle(circles[i].center, circles[i].radius + curvature))
  }

  /**
   * The copy of the circles, then `circle.radius += curvature` on each copy.
   * The circles handed in are values, so they keep their radii.
   */
  method EnlargedCopies(circles: seq<Circle>, curvature: real) returns (enlarged: seq<Circle>)
    ensures |enlarged| == |circles|
    ensures forall i :: 0 <= i < |circles| ==>
      enlarged[i].center == circles[i].center && enlarged[i].radius == circles[i].radius + curvature
    ensures enlarged == Enlarged(circles, curvature)
  {
    enlarged := circles;
    var i := 0;
    while i < |enlarged|
      invariant i <= |enlarged| == |circles|
      invariant forall j :: 0 <= j < i ==> enlarged[j] == Circle(circles[j].center, circles[j].radius + curvature)
      invariant forall j :: i <= j < |circles| ==> enlarged[j] == circles[j]
    {
      enlarged := enlarged[i := Circle(enlarged[i].center, enlarged[i].radius + curvature)];
      i := i + 1;
    }
  }

  // ---------------------------------------------------------------------
  // The leftmost circle
  // ---------------------------------------------------------------------

  /** How far left a circle reaches: `center.x - radius`. */
  function LeftEdge(c: Circle): real {
    c.center.x - c.radius
  }

  /** `k` is the first of the circles that reach furthest left. */
  predicate IsLeftmost(cs: seq<Circle>, k: nat) {
    && k < |cs|
    && (forall j :: 0 <= j < |cs| ==> LeftEdge(cs[k]) <= LeftEdge(cs[j]))
    && (forall j :: 0 <= j < k ==> LeftEdge(cs[k]) < LeftEdge(cs[j]))
  }

  /** The scan of `getOuterCircleRing` for the leftmost circle; 0 when there is none. */
  function Leftmost(cs: seq<Circle>): (k: nat)
    ensures |cs| == 0 ==> k == 0
    ensures |cs| > 0 ==> k < |cs|
  {
    if |cs| <= 1 then 0
    else
      var best := Leftmost(cs[..|cs| - 1]);
      if LeftEdge(cs[|cs| - 1]) < LeftEdge(cs[best]) then |cs| - 1 else best
  }

  /** The scan finds the first circle reaching furthest left: ties keep the earlier index. */
  lemma {:induction false} LeftmostIsFirstMinimum(cs: seq<Circle>)
    requires |cs| > 0
    ensures IsLeftmost(cs, Leftmost(cs))
  {
    if |cs| > 1 {
      var init := cs[..|cs| - 1];
      LeftmostIsFirstMinimum(init);
      assert forall j :: 0 <= j < |init| ==> init[j] == cs[j];
    }
  }

  /** Only one index is the first leftmost one. */
  lemma LeftmostUnique(cs: seq<Circle>, k1: nat, k2: nat)
    requires IsLeftmost(cs, k1) && IsLeftmost(cs, k2)
    ensures k1 == k2
  {
    var e1, e2 := LeftEdge(cs[k1]), LeftEdge(cs[k2]);
    assert k1 < k2 ==> e2 < e1;
    assert k2 < k1 ==> e1 < e2;
  }

  /** The leftmost scan of `getOuterCircleRing`. */
  method LeftmostIndex(cs: seq<Circle>) returns (k: nat)
    ensures k == Leftmost(cs)
  {
    k := 0;
    if |cs| == 0 {
      // The scan below does not run.
      return;
    }
    var i := 1;
    while i < |cs|
      invariant 1 <= i <= |cs|
      invariant k == Leftmost(cs[..i])
    {
      assert cs[..i + 1][..i] == cs[..i];
      if LeftEdge(cs[i]) < LeftEdge(cs[k]) {
        k := i;
      }
      i := i + 1;
    }
    assert cs[..i] == cs;
  }

  // ---------------------------------------------------------------------
  // getNextClockwiseIntersection
  // ---------------------------------------------------------------------

  /** The candidates circle `i` adds: its two crossing points with the current circle. */
  function CandidatesOf(m: MathLib, cs: seq<Circle>, current: nat, i: nat): seq<Intersection>
    requires current < |cs| && i < |cs|
  {
    if i != current && cs[i].Intersects(m, cs[current]) then
      match cs[i].IntersectionPoints(m, cs[current])
      case Some((p3, p4)) => [Intersection(Some(p3), i), Intersection(Some(p4), i)]
      case None => [Intersection(None, i), Intersection(None, i)]
    else []
  }

  /** `allIntersections` after the circles `cs[..n]` have been looked at. */
  function Candidates(m: MathLib, cs: seq<Circle>, current: nat, n: nat): seq<Intersection>
    requires current < |cs| && n <= |cs|
  {
    if n == 0 then [] else Candidates(m, cs, current, n - 1) + CandidatesOf(m, cs, current, n - 1)
  }

  /** `c` is one of the two crossing points of circle `c.circleIndex` with the current circle. */
  predicate CrossingOf(m: MathLib, cs: seq<Circle>, current: nat, c: Intersection)
    requires current < |cs|
  {
    && c.circleIndex < |cs|
    && c.circleIndex != current
    && cs[c.circleIndex].Intersects(m, cs[current])
    && match cs[c.circleIndex].IntersectionPoints(m, cs[current])
       case Some((p3, p4)) => c.point == Some(p3) || c.point == Some(p4)
       case None => c.point == None
  }

  /** Only other circles that intersect the current one contribute, each with its crossing points. */
  lemma {:induction false} CandidatesAreCrossings(m: MathLib, cs: seq<Circle>, current: nat, n: nat)
    requires current < |cs| && n <= |cs|
    ensures forall k :: 0 <= k < |Candidates(m, cs, current, n)| ==>
      CrossingOf(m, cs, current, Candidates(m, cs, current, n)[k]) && Candidates(m, cs, current, n)[k].circleIndex < n
  {
    if n > 0 {
      CandidatesAreCrossings(m, cs, current, n - 1);
      var before, added := Candidates(m, cs, current, n - 1), CandidatesOf(m, cs, current, n - 1);
      forall k | 0 <= k < |before + added|
        ensures CrossingOf(m, cs, current, (before + added)[k]) && (before + added)[k].circleIndex < n
      {
        if k < |before| {
          assert (before + added)[k] == before[k];
        } else {
          assert (before + added)[k] == added[k - |before|];
        }
      }
    }
  }

  /** Every other circle that intersects the current one contributes both crossing points. */
  lemma {:induction false} CrossingsAreCandidates(m: MathLib, cs: seq<Circle>, current: nat, n: nat, i: nat)
    requires current < |cs| && i < n <= |cs|
    requires i != current && cs[i].Intersects(m, cs[current])
    ensures forall c :: c in CandidatesOf(m, cs, current, i) ==> c in Candidates(m, cs, current, n)
    ensures |CandidatesOf(m, cs, current, i)| == 2
  {
    if i < n - 1 {
      CrossingsAreCandidates(m, cs, current, n - 1, i);
    }
  }

  /** The loop of `getNextClockwiseIntersection` that collects `allIntersections`. */
  method IntersectionCandidates(m: MathLib, cs: seq<Circle>, current: nat) returns (all: seq<Intersection>)
    requires current < |cs|
    ensures all == Candidates(m, cs, current, |cs|)
  {
    all := [];
    var i := 0;
    while i < |cs|
      invariant i <= |cs|
      invariant all == Candidates(m, cs, current, i)
    {
      if i != current {
        if cs[i].Intersects(m, cs[current]) {
          var points := cs[i].IntersectionPoints(m, cs[current]);
          match points {
            case Some((p3, p4)) =>
              all := all + [Intersection(Some(p3), i)];
              all := all + [Intersection(Some(p4), i)];
            case None =>
              all := all + [Intersection(None, i)];
              all := all + [Intersection(None, i)];
          }
        }
      }
      i := i + 1;
    }
  }

  /** The angle turned from `dir` to the direction of the candidate from `center`. */
  function AngleOf(m: MathLib, dir: Vec2, center: Vec2, c: Intersection): real
    requires c.point.Some?
  {
    dir.Angle(m, c.point.value.Sub(center))
  }

  /** `angle > FLOATINGPOINT_EPSILON && angle < 7`: a NaN point never qualifies. */
  predicate Eligible(m: MathLib, dir: Vec2, center: Vec2, c: Intersection) {
    c.point.Some? && Eps < AngleOf(m, dir, center, c) < NoAngle
  }

  /** `k` is the first eligible candidate with the smallest angle. */
  predicate FirstSmallest(m: MathLib, dir: Vec2, center: Vec2, cands: seq<Intersection>, k: nat) {
    && k < |cands|
    && Eligible(m, dir, center, cands[k])
    && (forall j :: 0 <= j < |cands| && Eligible(m, dir, center, cands[j]) ==>
          AngleOf(m, dir, center, cands[k]) <= AngleOf(m, dir, center, cands[j]))
    && (forall j :: 0 <= j < k && Eligible(m, dir, center, cands[j]) ==>
          AngleOf(m, dir, center, cands[k]) < AngleOf(m, dir, center, cands[j]))
  }

  /** The bound the next angle must beat: the kept angle, or 7 before anything is kept. */
  function Bound(m: MathLib, dir: Vec2, center: Vec2, kept: Option<Intersection>): real {
    if kept.Some? && kept.value.point.Some? then AngleOf(m, dir, center, kept.value) else NoAngle
  }

  /** The smallest-angle scan of `getNextClockwiseIntersection`: the candidate kept last. */
  function Choose(m: MathLib, dir: Vec2, center: Vec2, cands: seq<Intersection>): Option<Intersection> {
    if cands == [] then None
    else
      var kept := Choose(m, dir, center, cands[..|cands| - 1]);
      var last := cands[|cands| - 1];
      if Eligible(m, dir, center, last) && AngleOf(m, dir, center, last) < Bound(m, dir, center, kept)
      then Some(last)
      else kept
  }

  /**
   * The scan keeps nothing exactly when no candidate is eligible, and
   * otherwise the first eligible candidate with the smallest angle.
   */
  lemma {:induction false} ChooseIsFirstSmallest(m: MathLib, dir: Vec2, center: Vec2, cands: seq<Intersection>)
    ensures Choose(m, dir, center, cands).None? <==>
      forall j :: 0 <= j < |cands| ==> !Eligible(m, dir, center, cands[j])
    ensures Choose(m, dir, center, cands).Some? ==>
      exists k: nat :: FirstSmallest(m, dir, center, cands, k) && Choose(m, dir, center, cands).value == cands[k]
  {
    var k := ChosenIndex(m, dir, center, cands);
  }

  /** The index of the kept candidate, with the facts that make it the first smallest. */
  lemma {:induction false} ChosenIndex(m: MathLib, dir: Vec2, center: Vec2, cands: seq<Intersection>) returns (k: nat)
    ensures Choose(m, dir, center, cands).None? <==>
      forall j :: 0 <= j < |cands| ==> !Eligible(m, dir, center, cands[j])
    ensures Choose(m, dir, center, cands).Some? ==>
      FirstSmallest(m, dir, center, cands, k) && Choose(m, dir, center, cands).value == cands[k]
  {
    if cands == [] {
      k := 0;
    } else {
      var init := cands[..|cands| - 1];
      var last := cands[|cands| - 1];
      var kept := Choose(m, dir, center, init);
      var k0 := ChosenIndex(m, dir, center, init);
      assert forall j :: 0 <= j < |init| ==> init[j] == cands[j];
      if Eligible(m, dir, center, last) && AngleOf(m, dir, center, last) < Bound(m, dir, center, kept) {
        k := |cands| - 1;
      } else {
        k := k0;
      }
    }
  }

  /** The scan picks a single candidate: no two indices are both the first smallest. */
  lemma FirstSmallestUnique(m: MathLib, dir: Vec2, center: Vec2, cands: seq<Intersection>, k1: nat, k2: nat)
    requires FirstSmallest(m, dir, center, cands, k1) && FirstSmallest(m, dir, center, cands, k2)
    ensures k1 == k2
  {
  }

  /** The smallest-angle `forEach`, with `smallestAngle` and `intersectionWithSmallestAngle`. */
  method SmallestAngle(m: MathLib, dir: Vec2, center: Vec2, cands: seq<Intersection>) returns (chosen: Option<Intersection>)
    ensures chosen == Choose(m, dir, center, cands)
  {
    var smallestAngle := NoAngle;
    chosen := None;
    var i := 0;
    while i < |cands|
      invariant i <= |cands|
      invariant chosen == Choose(m, dir, center, cands[..i])
      invariant chosen.Some? ==> Eligible(m, dir, center, chosen.value)
      invariant smallestAngle == Bound(m, dir, center, chosen)
    {
      assert cands[..i + 1][..i] == cands[..i];
      var intersection := cands[i];
      assert cands[..i + 1][i] == intersection;
      if intersection.point.Some? {
        var angle := dir.Angle(m, intersection.point.value.Sub(center));
        if angle > Eps && angle < smallestAngle {
          smallestAngle := angle;
          chosen := Some(intersection);
        }
      }
      i := i + 1;
    }
    assert cands[..i] == cands;
  }

  /** What `getNextClockwiseIntersection(current, cs, dir)` returns. */
  function NextIntersection(m: MathLib, cs: seq<Circle>, current: nat, dir: Vec2): Option<Intersection>
    requires current < |cs|
  {
    Choose(m, dir, cs[current].center, Candidates(m, cs, current, |cs|))
  }

  /** `getNextClockwiseIntersection`. */
  method NextClockwiseIntersection(m: MathLib, cs: seq<Circle>, current: nat, dir: Vec2) returns (next: Option<Intersection>)
    requires current < |cs|
    ensures next == NextIntersection(m, cs, current, dir)
  {
    var currentCircle := cs[current];
    var allIntersections := IntersectionCandidates(m, cs, current);
    next := SmallestAngle(m, dir, currentCircle.center, allIntersections);
  }

  /**
   * The next hop is a crossing point of another circle with the current one,
   * at an angle past the threshold; there is none exactly when no other
   * circle offers an eligible crossing point.
   */
  lemma NextIsEligibleCrossing(m: MathLib, cs: seq<Circle>, current: nat, dir: Vec2)
    requires current < |cs|
    ensures var next := NextIntersection(m, cs, current, dir);
      next.Some? ==> CrossingOf(m, cs, current, next.value) && Eligible(m, dir, cs[current].center, next.value)
    ensures var cands := Candidates(m, cs, current, |cs|);
      NextIntersection(m, cs, current, dir).None? <==>
        forall j :: 0 <= j < |cands| ==> !Eligible(m, dir, cs[current].center, cands[j])
  {
    var cands := Candidates(m, cs, current, |cs|);
    CandidatesAreCrossings(m, cs, current, |cs|);
    var k := ChosenIndex(m, dir, cs[current].center, cands);
  }

  /** With no other circle intersecting the current one there is no next hop. */
  lemma NoNeighbourNoNext(m: MathLib, cs: seq<Circle>, current: nat, dir: Vec2)
    requires current < |cs|
    requires forall j :: 0 <= j < |cs| && j != current ==> !cs[j].Intersects(m, cs[current])
    ensures NextIntersection(m, cs, current, dir) == None
  {
    NextIsEligibleCrossing(m, cs, current, dir);
  }

  // ---------------------------------------------------------------------
  // getOuterCircleRing
  // ---------------------------------------------------------------------

  /** The circle the search for hop `i` starts from: the leftmost one, then the previous hop's. */
  function From(start: nat, ring: seq<RingEntry>, i: nat): nat
    requires i <= |ring|
  {
    if i == 0 then start else ring[i - 1].circleIndex
  }

  /** `referenceDirection` before hop `i`: west, then from the previous hop's circle centre to its point. */
  function Direction(ring: seq<RingEntry>, i: nat): Vec2
    requires i <= |ring|
  {
    if i == 0 then West else ring[i - 1].point.Sub(ring[i - 1].circle.center)
  }

  /** The closing test of the ring walk: a hop onto the first hop's circle, within `Eps` of the first hop's point. */
  predicate Closes(m: MathLib, ring: seq<RingEntry>, index: nat, point: Vec2) {
    |ring| > 0 && index == ring[0].circleIndex && point.Distance(m, ring[0].point) < Eps
  }

  /** The hops of `ring` name circles of `circles` and carry those circles. */
  predicate ValidRing(circles: seq<Circle>, enlarged: seq<Circle>, start: nat, ring: seq<RingEntry>) {
    && |enlarged| == |circles|
    && start < |enlarged|
    && forall j :: 0 <= j < |ring| ==> ring[j].circleIndex < |circles| && ring[j].circle == circles[ring[j].circleIndex]
  }

  /**
   * Hop `i` of `ring` is what the search returns from where the previous hop
   * left off, and does not close the ring; after the last hop the search
   * returns nothing or closes the ring, unless the fuel ran out.
   */
  ghost predicate HopAt(m: MathLib, circles: seq<Circle>, enlarged: seq<Circle>, start: nat, ring: seq<RingEntry>,
                        fuel: nat, i: nat)
    requires ValidRing(circles, enlarged, start, ring) && i <= |ring|
  {
    var next := NextIntersection(m, enlarged, From(start, ring, i), Direction(ring, i));
    if i < |ring| then
      && next == Some(Intersection(Some(ring[i].point), ring[i].circleIndex))
      && (0 < i ==> !Closes(m, ring, ring[i].circleIndex, ring[i].point))
    else
      |ring| < fuel ==>
        next.None? || (next.value.point.Some? && Closes(m, ring, next.value.circleIndex, next.value.point.value))
  }

  /** `ring` is the ring traced from circle `start` with at most `fuel` hops. */
  ghost predicate Traced(m: MathLib, circles: seq<Circle>, enlarged: seq<Circle>, start: nat, ring: seq<RingEntry>, fuel: nat) {
    && ValidRing(circles, enlarged, start, ring)
    && |ring| <= fuel
    && forall i :: 0 <= i <= |ring| ==> HopAt(m, circles, enlarged, start, ring, fuel, i)
  }

  /** Adding a hop keeps the earlier hops as they were. */
  lemma ExtendHops(m: MathLib, circles: seq<Circle>, enlarged: seq<Circle>, start: nat, ring: seq<RingEntry>,
                   fuel: nat, entry: RingEntry)
    requires ValidRing(circles, enlarged, start, ring) && |ring| < fuel
    requires forall i :: 0 <= i < |ring| ==> HopAt(m, circles, enlarged, start, ring, fuel, i)
    requires ValidRing(circles, enlarged, start, ring + [entry])
    requires NextIntersection(m, enlarged, From(start, ring, |ring|), Direction(ring, |ring|))
               == Some(Intersection(Some(entry.point), entry.circleIndex))
    requires !Closes(m, ring, entry.circleIndex, entry.point)
    ensures forall i :: 0 <= i < |ring| + 1 ==> HopAt(m, circles, enlarged, start, ring + [entry], fuel, i)
  {
    var ring' := ring + [entry];
    forall i | 0 <= i < |ring'|
      ensures HopAt(m, circles, enlarged, start, ring', fuel, i)
    {
      assert From(start, ring', i) == From(start, ring, i) && Direction(ring', i) == Direction(ring, i);
      if i < |ring| {
        assert ring'[i] == ring[i];
        assert HopAt(m, circles, enlarged, start, ring, fuel, i);
        assert 0 < i ==> Closes(m, ring', ring[i].circleIndex, ring[i].point) == Closes(m, ring, ring[i].circleIndex, ring[i].point);
      } else {
        assert 0 < i ==> Closes(m, ring', entry.circleIndex, entry.point) == Closes(m, ring, entry.circleIndex, entry.point);
      }
    }
  }

  /** Every correctly traced prefix extends to a traced ring: the loop's hops, until it stops or the fuel runs out. */
  lemma {:induction false} TraceOn(m: MathLib, circles: seq<Circle>, enlarged: seq<Circle>, start: nat,
                                   ring: seq<RingEntry>, fuel: nat) returns (full: seq<RingEntry>)
    requires ValidRing(circles, enlarged, start, ring) && |ring| <= fuel
    requires forall i :: 0 <= i < |ring| ==> HopAt(m, circles, enlarged, start, ring, fuel, i)
    ensures Traced(m, circles, enlarged, start, full, fuel)
    decreases fuel - |ring|
  {
    full := ring;
    if |ring| < fuel {
      var index, dir := From(start, ring, |ring|), Direction(ring, |ring|);
      NextIsEligibleCrossing(m, enlarged, index, dir);
      match NextIntersection(m, enlarged, index, dir)
      case None =>
      case Some(next) =>
        var p := next.point.value;
        if !Closes(m, ring, next.circleIndex, p) {
          var e := RingEntry(circles[next.circleIndex], p, next.circleIndex);
          ExtendHops(m, circles, enlarged, start, ring, fuel, e);
          full := TraceOn(m, circles, enlarged, start, ring + [e], fuel);
        }
    }
    assert |ring| == |full| ==> HopAt(m, circles, enlarged, start, full, fuel, |full|);
  }

  /** Two traced rings agree on their first `k` hops. */
  lemma {:induction false} TracedPrefix(m: MathLib, circles: seq<Circle>, enlarged: seq<Circle>, start: nat,
                                        r1: seq<RingEntry>, r2: seq<RingEntry>, fuel: nat, k: nat)
    requires Traced(m, circles, enlarged, start, r1, fuel) && Traced(m, circles, enlarged, start, r2, fuel)
    requires k <= |r1| && k <= |r2|
    ensures r1[..k] == r2[..k]
  {
    if k > 0 {
      var j := k - 1;
      TracedPrefix(m, circles, enlarged, start, r1, r2, fuel, j);
      assert From(start, r1, j) == From(start, r2, j) && Direction(r1, j) == Direction(r2, j) by {
        if j > 0 {
          assert r1[j - 1] == r1[..j][j - 1] == r2[..j][j - 1] == r2[j - 1];
        }
      }
      assert HopAt(m, circles, enlarged, start, r1, fuel, j) && HopAt(m, circles, enlarged, start, r2, fuel, j);
      assert r1[..k] == r1[..j] + [r1[j]] && r2[..k] == r2[..j] + [r2[j]];
    }
  }

  /** The trace is deterministic: there is one traced ring. */
  lemma TracedUnique(m: MathLib, circles: seq<Circle>, enlarged: seq<Circle>, start: nat,
                     r1: seq<RingEntry>, r2: seq<RingEntry>, fuel: nat)
    requires Traced(m, circles, enlarged, start, r1, fuel) && Traced(m, circles, enlarged, start, r2, fuel)
    ensures r1 == r2
  {
    if |r1| < |r2| {
      ShorterTraced(m, circles, enlarged, start, r1, r2, fuel);
    } else if |r2| < |r1| {
      ShorterTraced(m, circles, enlarged, start, r2, r1, fuel);
    } else {
      TracedPrefix(m, circles, enlarged, start, r1, r2, fuel, |r1|);
      assert r1 == r1[..|r1|] && r2 == r2[..|r2|];
    }
  }

  /** A traced ring cannot stop where another goes on. */
  lemma ShorterTraced(m: MathLib, circles: seq<Circle>, enlarged: seq<Circle>, start: nat,
                      short: seq<RingEntry>, long: seq<RingEntry>, fuel: nat)
    requires Traced(m, circles, enlarged, start, short, fuel) && Traced(m, circles, enlarged, start, long, fuel)
    ensures |long| <= |short|
  {
    var k := if |short| <= |long| then |short| else |long|;
    TracedPrefix(m, circles, enlarged, start, short, long, fuel, k);
    assert From(start, short, k) == From(start, long, k) && Direction(short, k) == Direction(long, k) by {
      if k > 0 {
        assert short[k - 1] == short[..k][k - 1];
      }
    }
    assert k > 0 ==> short[0] == short[..k][0];
    ghost var stops := HopAt(m, circles, enlarged, start, short, fuel, k);
    ghost var goesOn := HopAt(m, circles, enlarged, start, long, fuel, k);
  }

  /** There is a traced ring from every circle. */
  lemma TracedExists(m: MathLib, circles: seq<Circle>, enlarged: seq<Circle>, start: nat, fuel: nat)
    requires |enlarged| == |circles| && start < |enlarged|
    ensures exists ring :: Traced(m, circles, enlarged, start, ring, fuel)
  {
    var ring := TraceOn(m, circles, enlarged, start, [], fuel);
  }

  /**
   * What `getOuterCircleRing(circles, curvature)` returns when it makes at
   * most `fuel` hops: the ring traced from the leftmost enlarged circle.
   */
  ghost function OuterRing(m: MathLib, circles: seq<Circle>, curvature: real, fuel: nat): (ring: seq<RingEntry>)
    ensures |circles| == 0 ==> ring == []
    ensures |circles| > 0 ==>
      Traced(m, circles, Enlarged(circles, curvature), Leftmost(Enlarged(circles, curvature)), ring, fuel)
  {
    if |circles| == 0 then []
    else
      var enlarged := Enlarged(circles, curvature);
      LeftmostIsFirstMinimum(enlarged);
      TracedExists(m, circles, enlarged, Leftmost(enlarged), fuel);
      var ring :| Traced(m, circles, enlarged, Leftmost(enlarged), ring, fuel);
      ring
  }

  /**
   * One round of the `getOuterCircleRing` loop: the search from the current circle,
   * the break when it finds nothing, the next circle and direction, and the
   * break when the hop closes the ring. `entry` is the hop to record.
   */
  method NextHop(m: MathLib, circles: seq<Circle>, enlarged: seq<Circle>, ghost start: nat, index: nat, direction: Vec2,
                 ring: seq<RingEntry>, ghost fuel: nat) returns (stop: bool, entry: RingEntry)
    requires ValidRing(circles, enlarged, start, ring) && |ring| < fuel
    requires index == From(start, ring, |ring|) && direction == Direction(ring, |ring|)
    requires forall i :: 0 <= i < |ring| ==> HopAt(m, circles, enlarged, start, ring, fuel, i)
    ensures stop ==> forall i :: 0 <= i <= |ring| ==> HopAt(m, circles, enlarged, start, ring, fuel, i)
    ensures !stop ==> ValidRing(circles, enlarged, start, ring + [entry])
    ensures !stop ==> forall i :: 0 <= i < |ring| + 1 ==> HopAt(m, circles, enlarged, start, ring + [entry], fuel, i)
  {
    var intersection := NextClockwiseIntersection(m, enlarged, index, direction);
    entry := RingEntry(Circle(West, 0.0), West, 0);
    NextIsEligibleCrossing(m, enlarged, index, direction);
    match intersection {
      case None =>
        stop := true;
      case Some(next) =>
        var nextIndex := next.circleIndex;
        var circle := circles[nextIndex];
        var point := next.point.value;
        stop := |ring| > 0 && nextIndex == ring[0].circleIndex && point.Distance(m, ring[0].point) < Eps;
        if !stop {
          entry := RingEntry(circle, point, nextIndex);
          ExtendHops(m, circles, enlarged, start, ring, fuel, entry);
        }
    }
  }

  /** `getOuterCircleRing`, with the `while (true)` loop cut off after `fuel` hops. */
  method OuterCircleRing(m: MathLib, circles: seq<Circle>, curvature: real, fuel: nat) returns (ring: seq<RingEntry>)
    ensures ring == OuterRing(m, circles, curvature, fuel)
  {
    var circlesEnlarged := EnlargedCopies(circles, curvature);
    var leftmostCircleIndex := LeftmostIndex(circlesEnlarged);
    ring := [];
    if |circles| == 0 {
      // The search around the missing circle 0 finds no intersection.
      return;
    }
    ghost var start := leftmostCircleIndex;
    var index: nat := leftmostCircleIndex;
    var referenceDirection := West;
    while |ring| < fuel
      invariant ValidRing(circles, circlesEnlarged, start, ring) && |ring| <= fuel
      invariant index == From(start, ring, |ring|) && referenceDirection == Direction(ring, |ring|)
      invariant forall i :: 0 <= i < |ring| ==> HopAt(m, circles, circlesEnlarged, start, ring, fuel, i)
      decreases fuel - |ring|
    {
      var stop, entry := NextHop(m, circles, circlesEnlarged, start, index, referenceDirection, ring, fuel);
      if stop {
        break;
      }
      index := entry.circleIndex;
      referenceDirection := entry.point.Sub(entry.circle.center);
      ring := ring + [entry];
    }
    TracedUnique(m, circles, circlesEnlarged, start, ring, OuterRing(m, circles, curvature, fuel), fuel);
  }

  /** Hop `i` lands on a crossing point of the enlarged circle it reaches and the enlarged circle it left. */
  lemma HopOnBothCircles(m: MathLib, circles: seq<Circle>, enlarged: seq<Circle>, start: nat, ring: seq<RingEntry>,
                         fuel: nat, i: nat)
    requires Lawful(m) && Traced(m, circles, enlarged, start, ring, fuel) && i < |ring|
    ensures var from, to := enlarged[From(start, ring, i)], enlarged[ring[i].circleIndex];
      && ring[i].circleIndex != From(start, ring, i)
      && to.Intersects(m, from)
      && from.Through(ring[i].point) && to.Through(ring[i].point)
  {
    var from := From(start, ring, i);
    assert HopAt(m, circles, enlarged, start, ring, fuel, i);
    NextIsEligibleCrossing(m, enlarged, from, Direction(ring, i));
    IntersectionPointsOnBothCircles(m, enlarged[ring[i].circleIndex], enlarged[from]);
  }

  /**
   * Every hop point of the outer ring lies `curvature` beyond the circle of
   * its hop and beyond the circle of the hop before it (the leftmost circle
   * for the first hop): a tangent circle of radius `curvature` centred there
   * touches both.
   */
  lemma OuterRingOnCircles(m: MathLib, circles: seq<Circle>, curvature: real, fuel: nat, i: nat)
    requires Lawful(m) && |circles| > 0 && i < |OuterRing(m, circles, curvature, fuel)|
    ensures var ring := OuterRing(m, circles, curvature, fuel);
      var before := if i == 0 then circles[Leftmost(Enlarged(circles, curvature))] else ring[i - 1].circle;
      && Circle(ring[i].circle.center, ring[i].circle.radius + curvature).Through(ring[i].point)
      && Circle(before.center, before.radius + curvature).Through(ring[i].point)
  {
    var enlarged := Enlarged(circles, curvature);
    var ring := OuterRing(m, circles, curvature, fuel);
    var start := Leftmost(enlarged);
    LeftmostIsFirstMinimum(enlarged);
    HopOnBothCircles(m, circles, enlarged, start, ring, fuel, i);
    var from := From(start, ring, i);
    assert enlarged[from] == Circle(circles[from].center, circles[from].radius + curvature);
    assert enlarged[ring[i].circleIndex] == Circle(ring[i].circle.center, ring[i].circle.radius + curvature);
  }

  /** When no other enlarged circle meets the leftmost one, the ring is empty. */
  lemma IsolatedStartNoRing(m: MathLib, circles: seq<Circle>, curvature: real, fuel: nat)
    requires |circles| > 0
    requires var enlarged := Enlarged(circles, curvature); var start := Leftmost(enlarged);
      forall j :: 0 <= j < |enlarged| && j != start ==> !enlarged[j].Intersects(m, enlarged[start])
    ensures OuterRing(m, circles, curvature, fuel) == []
  {
    var enlarged := Enlarged(circles, curvature);
    var start := Leftmost(enlarged);
    LeftmostIsFirstMinimum(enlarged);
    NoNeighbourNoNext(m, enlarged, start, West);
    ghost var first := HopAt(m, circles, enlarged, start, OuterRing(m, circles, curvature, fuel), fuel, 0);
  }

  /** A single circle has no outer ring. */
  lemma LoneCircleNoRing(m: MathLib, c: Circle, curvature: real, fuel: nat)
    ensures OuterRing(m, [c], curvature, fuel) == []
  {
    IsolatedStartNoRing(m, [c], curvature, fuel);
  }

  // ---------------------------------------------------------------------
  // generateCircleArcs and generateTangentArcs
  // ---------------------------------------------------------------------

  /** The hop before hop `i`, round the ring. */
  function Previous(ring: seq<RingEntry>, i: nat): (k: nat)
    requires i < |ring|
    ensures k < |ring|
  {
    if i > 0 then i - 1 else |ring| - 1
  }

  /**
   * The arc on hop `i`'s circle, from hop `i`'s point to the next hop's point
   * round the ring, angles measured from straight up.
   */
  function CircleArc(m: MathLib, ring: seq<RingEntry>, i: nat): Arc
    requires i < |ring|
  {
    var circle := ring[i].circle;
    var second := ring[(i + 1) % |ring|].point;
    Arc(circle.center, Up.Angle(m, ring[i].point.Sub(circle.center)), Up.Angle(m, second.Sub(circle.center)), circle.radius)
  }

  /**
   * The arc of radius `curvature` round hop `i`'s point, from the direction
   * of hop `i`'s circle centre to that of the previous hop's circle centre.
   */
  function TangentArc(m: MathLib, ring: seq<RingEntry>, curvature: real, i: nat): Arc
    requires i < |ring|
  {
    var p := ring[i].point;
    Arc(p, Up.Angle(m, ring[i].circle.center.Sub(p)), Up.Angle(m, ring[Previous(ring, i)].circle.center.Sub(p)), curvature)
  }

  function CircleArcs(m: MathLib, ring: seq<RingEntry>): (arcs: seq<Arc>)
    ensures |arcs| == |ring| && forall i :: 0 <= i < |ring| ==> arcs[i] == CircleArc(m, ring, i)
  {
    seq(|ring|, i requires 0 <= i < |ring| => CircleArc(m, ring, i))
  }

  function TangentArcs(m: MathLib, ring: seq<RingEntry>, curvature: real): (arcs: seq<Arc>)
    ensures |arcs| == |ring| && forall i :: 0 <= i < |ring| ==> arcs[i] == TangentArc(m, ring, curvature, i)
  {
    seq(|ring|, i requires 0 <= i < |ring| => TangentArc(m, ring, curvature, i))
  }

  /** `generateCircleArcs`: one arc per hop, the last one wrapping round to the first hop's point. */
  method GenerateCircleArcs(m: MathLib, ring: seq<RingEntry>) returns (arcs: seq<Arc>)
    ensures arcs == CircleArcs(m, ring)
  {
    arcs := [];
    for i := 0 to |ring|
      invariant |arcs| == i && forall k :: 0 <= k < i ==> arcs[k] == CircleArc(m, ring, k)
    {
      var circle := ring[i].circle;
      var firstIntersection := ring[i].point;
      var secondIntersection := ring[(i + 1) % |ring|].point;
      var arcStartAngle := Up.Angle(m, firstIntersection.Sub(circle.center));
      var arcEndAngle := Up.Angle(m, secondIntersection.Sub(circle.center));
      arcs := arcs + [Arc(circle.center, arcStartAngle, arcEndAngle, circle.radius)];
    }
  }

  /** `generateTangentArcs`: one arc per hop, the first one joining the last hop's circle. */
  method GenerateTangentArcs(m: MathLib, ring: seq<RingEntry>, curvature: real) returns (arcs: seq<Arc>)
    ensures arcs == TangentArcs(m, ring, curvature)
  {
    arcs := [];
    for i := 0 to |ring|
      invariant |arcs| == i && forall k :: 0 <= k < i ==> arcs[k] == TangentArc(m, ring, curvature, k)
    {
      var intersection := ring[i].point;
      var firstCircle := ring[if i > 0 then i - 1 else |ring| - 1].circle;
      var secondCircle := ring[i].circle;
      var arcEndAngle := Up.Angle(m, firstCircle.center.Sub(intersection));
      var arcStartAngle := Up.Angle(m, secondCircle.center.Sub(intersection));
      arcs := arcs + [Arc(intersection, arcStartAngle, arcEndAngle, curvature)];
    }
  }

  /**
   * Each tangent arc starts half a turn from where its hop's circle arc
   * starts, and ends half a turn from where the previous hop's circle arc
   * ends: its two ends face the two circle centres, on the lines through the
   * points where the circle arcs stop.
   */
  lemma ArcsJoin(m: MathLib, ring: seq<RingEntry>, curvature: real, i: nat)
    requires Lawful(m) && i < |ring|
    requires ring[i].point != ring[i].circle.center && ring[i].point != ring[Previous(ring, i)].circle.center
    ensures TangentArc(m, ring, curvature, i).startAngle == Opposite(m, CircleArc(m, ring, i).startAngle)
    ensures TangentArc(m, ring, curvature, i).endAngle == Opposite(m, CircleArc(m, ring, Previous(ring, i)).endAngle)
  {
    var p := ring[i].point;
    assert (Previous(ring, i) + 1) % |ring| == i by {
      if i == 0 {
        assert (|ring| - 1 + 1) % |ring| == 0;
      }
    }
    AngleOfReverse(m, Up, p, ring[i].circle.center);
    AngleOfReverse(m, Up, p, ring[Previous(ring, i)].circle.center);
  }

  /** Every arc's angles lie in [0, 2 pi). */
  lemma ArcAnglesInRange(m: MathLib, ring: seq<RingEntry>, curvature: real, i: nat)
    requires Lawful(m) && i < |ring|
    ensures InTurn(m, CircleArc(m, ring, i)) && InTurn(m, TangentArc(m, ring, curvature, i))
  {
    var c, t := CircleArc(m, ring, i), TangentArc(m, ring, curvature, i);
    var p := ring[i].point;
    AngleRange(m, Up, p.Sub(ring[i].circle.center));
    AngleRange(m, Up, ring[(i + 1) % |ring|].point.Sub(ring[i].circle.center));
    AngleRange(m, Up, ring[i].circle.center.Sub(p));
    AngleRange(m, Up, ring[Previous(ring, i)].circle.center.Sub(p));
  }

  // ---------------------------------------------------------------------
  // arcsToPaths
  // ---------------------------------------------------------------------

  predicate InTurn(m: MathLib, arc: Arc) {
    0.0 <= arc.startAngle < 2.0 * m.pi && 0.0 <= arc.endAngle < 2.0 * m.pi
  }

  /** The arguments handed to `d3.arc` for one arc: a start after the end moves back a full turn. */
  function ArcToPath(m: MathLib, arc: Arc): Path {
    var startAngle := if arc.startAngle > arc.endAngle then arc.startAngle - 2.0 * m.pi else arc.startAngle;
    Path(arc.center, startAngle, arc.endAngle, arc.radius)
  }

  /**
   * A path keeps its arc's centre, radius and end, and its start points the
   * same way as the arc's; for angles in [0, 2 pi) it runs forward from start
   * to end through less than a full turn.
   */
  lemma PathSpan(m: MathLib, arc: Arc)
    requires Lawful(m) && InTurn(m, arc)
    ensures var path := ArcToPath(m, arc);
      && path.center == arc.center && path.radius == arc.radius && path.endAngle == arc.endAngle
      && (path.startAngle == arc.startAngle || path.startAngle == arc.startAngle - 2.0 * m.pi)
      && 0.0 <= path.endAngle - path.startAngle < 2.0 * m.pi
  {
  }

  function Paths(m: MathLib, arcs: seq<Arc>): (paths: seq<Path>)
    ensures |paths| == |arcs| && forall i :: 0 <= i < |arcs| ==> paths[i] == ArcToPath(m, arcs[i])
  {
    seq(|arcs|, i requires 0 <= i < |arcs| => ArcToPath(m, arcs[i]))
  }

  /** `arcsToPaths`: the `forEach` over the arcs. */
  method ArcsToPaths(m: MathLib, arcs: seq<Arc>) returns (paths: seq<Path>)
    ensures paths == Paths(m, arcs)
  {
    paths := [];
    for i := 0 to |arcs|
      invariant |paths| == i && forall k :: 0 <= k < i ==> paths[k] == ArcToPath(m, arcs[k])
    {
      var arc := arcs[i];
      var startAngleTemp := arc.startAngle;
      if startAngleTemp > arc.endAngle {
        startAngleTemp := startAngleTemp - 2.0 * m.pi;
      }
      paths := paths + [Path(arc.center, startAngleTemp, arc.endAngle, arc.radius)];
    }
  }

  // ---------------------------------------------------------------------
  // The default export
  // ---------------------------------------------------------------------

  /** The paths of the contour round `nodes`: the circle arcs, then the tangent arcs. */
  ghost function ContourPaths(m: MathLib, nodes: seq<NodeAttrs>, curvature: real, fuel: nat): seq<Path> {
    var ring := OuterRing(m, Inflated(nodes), curvature, fuel);
    Paths(m, CircleArcs(m, ring) + TangentArcs(m, ring, curvature))
  }

  /** The default export of `contour.js`, with the ring search cut off after `fuel` hops. */
  method Contour(m: MathLib, nodes: seq<NodeAttrs>, curvature: real, fuel: nat) returns (paths: seq<Path>)
    ensures paths == ContourPaths(m, nodes, curvature, fuel)
  {
    var circles := InflateNodes(nodes);
    var outerCircleRing := OuterCircleRing(m, circles, curvature, fuel);
    var arcs: seq<Arc> := [];
    var circleArcs := GenerateCircleArcs(m, outerCircleRing);
    arcs := arcs + circleArcs;
    var tangentArcs := GenerateTangentArcs(m, outerCircleRing, curvature);
    arcs := arcs + tangentArcs;
    assert arcs == circleArcs + tangentArcs;
    paths := ArcsToPaths(m, arcs);
  }

  /** The contour has two paths per hop of the outer ring: its circle arc and its tangent arc. */
  lemma ContourLength(m: MathLib, nodes: seq<NodeAttrs>, curvature: real, fuel: nat)
    ensures |ContourPaths(m, nodes, curvature, fuel)| == 2 * |OuterRing(m, Inflated(nodes), curvature, fuel)|
  {
  }

  /** No node or a single node has no contour. */
  lemma FewNodesNoContour(m: MathLib, nodes: seq<NodeAttrs>, curvature: real, fuel: nat)
    requires |nodes| <= 1
    ensures ContourPaths(m, nodes, curvature, fuel) == []
  {
    if |nodes| == 1 {
      var circles := Inflated(nodes);
      assert circles == [circles[0]];
      LoneCircleNoRing(m, circles[0], curvature, fuel);
    }
  }

  /** Every path of a contour runs forward from its start to its end through less than a full turn. */
  lemma ContourPathsSpan(m: MathLib, nodes: seq<NodeAttrs>, curvature: real, fuel: nat, k: nat)
    requires Lawful(m) && k < |ContourPaths(m, nodes, curvature, fuel)|
    ensures var path := ContourPaths(m, nodes, curvature, fuel)[k];
      0.0 <= path.endAngle - path.startAngle < 2.0 * m.pi
  {
    var ring := OuterRing(m, Inflated(nodes), curvature, fuel);
    var arcs := CircleArcs(m, ring) + TangentArcs(m, ring, curvature);
    var i := if k < |ring| then k else k - |ring|;
    ArcAnglesInRange(m, ring, curvature, i);
    PathSpan(m, arcs[k]);
  }
}
