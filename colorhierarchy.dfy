/**
 * `colorHierarchy` (src/implementation/colorhierarchy.js, and its copy in the
 * bundled build): the subtree of the i-th child of the root, the child
 * included, is painted with colour `i` of the colormap, taken round robin.
 * The root itself keeps whatever colour it had.
 */
module ColorHierarchy {
  import opened Wrappers
  import opened Hierarchy

  /**
   * Entry `index % |colormap|` of the colormap. With an empty colormap the
   * source indexes by `NaN` (`% 0`) and stores `undefined`: no colour.
   */
  function ColorFor(colormap: seq<Color>, index: nat): (c: Option<Color>)
    ensures c.None? <==> |colormap| == 0
    ensures c.Some? ==> c.value in colormap
  {
    if |colormap| == 0 then None else Some(colormap[index % |colormap|])
  }

  /** The colours go round the colormap: the first `|colormap|` children get its entries in order, then it starts over. */
  lemma ColorForRoundRobin(colormap: seq<Color>, index: nat)
    requires |colormap| > 0
    ensures index < |colormap| ==> ColorFor(colormap, index) == Some(colormap[index])
    ensures ColorFor(colormap, index + |colormap|) == ColorFor(colormap, index)
  {
    ModShift(index, |colormap|);
  }

  lemma ModShift(i: nat, n: nat)
    requires 0 < n
    ensures (i + n) % n == i % n
  {
    assert (i / n + 1) * n == (i / n) * n + n;
    ModUnique(i + n, n, i / n + 1, i % n);
  }

  /** Euclidean division has one quotient and remainder. */
  lemma ModUnique(a: int, n: int, q: int, r: int)
    requires 0 < n && a == q * n + r && 0 <= r < n
    ensures a % n == r
  {
    var d := q - a / n;
    assert d * n == q * n - (a / n) * n;
    MulBound(d, n);
  }

  lemma MulBound(k: int, n: int)
    requires 0 < n
    ensures 1 <= k ==> n <= k * n
    ensures k <= -1 ==> k * n <= -n
  {
    assert k * n - n == (k - 1) * n;
    assert k * n + n == (k + 1) * n;
  }

  /** The fields after `color` is set to `c` on every node of `ids`. */
  function Paint(attrs: map<NodeId, NodeAttrs>, ids: seq<NodeId>, c: Option<Color>): map<NodeId, NodeAttrs> {
    map id | id in attrs.Keys + (set i | i in ids) :: if id in ids then Get(attrs, id).(color := c) else attrs[id]
  }

  /** The fields after the subtrees of the children `cs` have been painted, in order. */
  function Colored(attrs: map<NodeId, NodeAttrs>, cs: seq<Tree>, colormap: seq<Color>): map<NodeId, NodeAttrs> {
    if cs == [] then attrs
    else Paint(Colored(attrs, cs[..|cs| - 1], colormap), SubtreeIds(cs[|cs| - 1]), ColorFor(colormap, |cs| - 1))
  }

  /** The inner `forEach` over one child's descendants. */
  method PaintSubtree(h: HierarchyRoot, ids: seq<NodeId>, c: Option<Color>)
    modifies h
    ensures h.attrs == Paint(old(h.attrs), ids, c)
  {
    ghost var attrs0 := h.attrs;
    for k := 0 to |ids|
      invariant h.attrs == Paint(attrs0, ids[..k], c)
    {
      PaintStep(attrs0, ids, k, c);
      h.attrs := h.attrs[ids[k] := Get(h.attrs, ids[k]).(color := c)];
    }
    assert ids[..|ids|] == ids;
  }

  lemma PaintStep(attrs: map<NodeId, NodeAttrs>, ids: seq<NodeId>, k: nat, c: Option<Color>)
    requires k < |ids|
    ensures var before := Paint(attrs, ids[..k], c);
      Paint(attrs, ids[..k + 1], c) == before[ids[k] := Get(before, ids[k]).(color := c)]
  {
    var before := Paint(attrs, ids[..k], c);
    assert forall i :: i in ids[..k + 1] <==> i in ids[..k] || i == ids[k] by {
      assert ids[..k + 1] == ids[..k] + [ids[k]];
    }
  }

  /**
   * The default export of `colorhierarchy.js`. A root without children has
   * no `children` array, so the source fails on it with a TypeError; the
   * model reports that as `ok == false` and writes nothing.
   */
  method ColorHierarchy(h: HierarchyRoot, colormap: seq<Color>) returns (ok: bool)
    modifies h
    ensures ok <==> !IsLeaf(h.tree)
    ensures h.attrs == if ok then Colored(old(h.attrs), h.tree.children, colormap) else old(h.attrs)
  {
    if IsLeaf(h.tree) {
      return false;
    }
    var children := h.tree.children;
    ghost var attrs0 := h.attrs;
    var colorIndex: nat := 0;
    while colorIndex < |children|
      invariant colorIndex <= |children|
      invariant h.attrs == Colored(attrs0, children[..colorIndex], colormap)
    {
      var child := children[colorIndex];
      PaintSubtree(h, SubtreeIds(child), ColorFor(colormap, colorIndex));
      assert children[..colorIndex + 1][..colorIndex] == children[..colorIndex];
      colorIndex := colorIndex + 1;
    }
    assert children[..colorIndex] == children;
    return true;
  }

  // ---------------------------------------------------------------------
  // What the colouring leaves behind
  // ---------------------------------------------------------------------

  /** The index of the last child among `cs` whose subtree lists `id`: the one whose colour `id` ends with. */
  function LastOwner(cs: seq<Tree>, id: NodeId): (r: Option<nat>)
    ensures r.Some? ==> r.value < |cs| && id in SubtreeIds(cs[r.value])
    ensures r.None? <==> forall j :: 0 <= j < |cs| ==> id !in SubtreeIds(cs[j])
  {
    if cs == [] then None
    else if id in SubtreeIds(cs[|cs| - 1]) then Some(|cs| - 1)
    else LastOwner(cs[..|cs| - 1], id)
  }

  /**
   * A node's fields after the colouring: its colour is that of the last
   * child whose subtree lists it, every other field is as before, and a node
   * in no child's subtree is not touched at all.
   */
  lemma {:induction false} ColoredAt(attrs: map<NodeId, NodeAttrs>, cs: seq<Tree>, colormap: seq<Color>, id: NodeId)
    ensures id in Colored(attrs, cs, colormap) <==> id in attrs || LastOwner(cs, id).Some?
    ensures Get(Colored(attrs, cs, colormap), id)
      == match LastOwner(cs, id)
         case None => Get(attrs, id)
         case Some(i) => Get(attrs, id).(color := ColorFor(colormap, i))
  {
    if cs != [] {
      ColoredAt(attrs, cs[..|cs| - 1], colormap, id);
    }
  }

  /** Colouring twice gives the same fields as colouring once. */
  lemma ColoringIdempotent(attrs: map<NodeId, NodeAttrs>, cs: seq<Tree>, colormap: seq<Color>)
    ensures Colored(Colored(attrs, cs, colormap), cs, colormap) == Colored(attrs, cs, colormap)
  {
    var once := Colored(attrs, cs, colormap);
    var twice := Colored(once, cs, colormap);
    forall id
      ensures id in twice <==> id in once
      ensures id in once ==> twice[id] == once[id]
    {
      ColoredAt(attrs, cs, colormap, id);
      ColoredAt(once, cs, colormap, id);
    }
  }

  // ---------------------------------------------------------------------
  // Subtrees of a well-formed tree
  // ---------------------------------------------------------------------

  /** Every node on a level below `t` is a node of `t`. */
  lemma {:induction false} LevelWithin(t: Tree, k: nat)
    ensures forall v :: v in Level(t, k) ==> v.node.id in AllIds(t)
    decreases t
  {
    if k > 0 {
      LevelOfWithin(t.children, k - 1);
      var lifted := LevelOf(t.children, k - 1);
      forall v | v in Level(t, k)
        ensures v.node.id in AllIds(t)
      {
        var i :| 0 <= i < |Level(t, k)| && Level(t, k)[i] == v;
        assert lifted[i] in lifted;
      }
    }
  }

  lemma {:induction false} LevelOfWithin(ts: seq<Tree>, k: nat)
    ensures forall v :: v in LevelOf(ts, k) ==> v.node.id in AllIdsOf(ts)
    decreases ts
  {
    if ts != [] {
      LevelWithin(ts[0], k);
      LevelOfWithin(ts[1..], k);
    }
  }

  lemma {:induction false} LevelsWithin(t: Tree, n: nat)
    ensures forall v :: v in Levels(t, n) ==> v.node.id in AllIds(t)
  {
    LevelWithin(t, n);
    if n > 0 {
      LevelsWithin(t, n - 1);
    }
  }

  /** `descendants()` lists nodes of the subtree only. */
  lemma SubtreeIdsWithin(t: Tree, id: NodeId)
    requires id in SubtreeIds(t)
    ensures id in AllIds(t)
  {
    LevelsWithin(t, Height(t));
    var i :| 0 <= i < |SubtreeIds(t)| && SubtreeIds(t)[i] == id;
    assert Descendants(t)[i] in Descendants(t);
  }

  /** A child's nodes are counted among its siblings'. */
  lemma {:induction false} ChildCounted(ts: seq<Tree>, i: nat, id: NodeId)
    requires i < |ts|
    ensures AllIds(ts[i])[id] <= AllIdsOf(ts)[id]
  {
    if i > 0 {
      ChildCounted(ts[1..], i - 1, id);
    }
  }

  /** Two different children are counted side by side. */
  lemma {:induction false} SiblingsCounted(ts: seq<Tree>, i: nat, j: nat, id: NodeId)
    requires i < j < |ts|
    ensures AllIds(ts[i])[id] + AllIds(ts[j])[id] <= AllIdsOf(ts)[id]
  {
    assert AllIdsOf(ts) == AllIds(ts[0]) + AllIdsOf(ts[1..]);
    if i == 0 {
      assert ts[1..][j - 1] == ts[j];
      ChildCounted(ts[1..], j - 1, id);
    } else {
      SiblingsCounted(ts[1..], i - 1, j - 1, id);
    }
  }

  /** In a well-formed tree, a node lies in the subtree of one child of the root at most, and the root in none. */
  lemma SubtreesDisjoint(t: Tree, i: nat, id: NodeId)
    requires WellFormed(t) && i < |t.children| && id in SubtreeIds(t.children[i])
    ensures id != t.id
    ensures forall j :: 0 <= j < |t.children| && j != i ==> id !in SubtreeIds(t.children[j])
  {
    assert AllIds(t)[id] <= 1;
    SubtreeIdsWithin(t.children[i], id);
    ChildCounted(t.children, i, id);
    forall j | 0 <= j < |t.children| && j != i
      ensures id !in SubtreeIds(t.children[j])
    {
      if id in SubtreeIds(t.children[j]) {
        SubtreeIdsWithin(t.children[j], id);
        if i < j {
          SiblingsCounted(t.children, i, j, id);
        } else {
          SiblingsCounted(t.children, j, i, id);
        }
      }
    }
  }

  /**
   * In a well-formed tree every node of the i-th child's subtree, the child
   * included, ends up with colour `i` of the colormap and keeps its other
   * fields.
   */
  lemma SubtreeColor(attrs: map<NodeId, NodeAttrs>, t: Tree, colormap: seq<Color>, i: nat, v: Visit)
    requires WellFormed(t) && i < |t.children| && v in Descendants(t.children[i])
    ensures Get(Colored(attrs, t.children, colormap), v.node.id) == Get(attrs, v.node.id).(color := ColorFor(colormap, i))
  {
    var id := v.node.id;
    var k :| 0 <= k < |Descendants(t.children[i])| && Descendants(t.children[i])[k] == v;
    assert SubtreeIds(t.children[i])[k] == id;
    SubtreesDisjoint(t, i, id);
    LastOwnerIs(t.children, i, id);
    ColoredAt(attrs, t.children, colormap, id);
  }

  lemma {:induction false} LastOwnerIs(cs: seq<Tree>, i: nat, id: NodeId)
    requires i < |cs| && id in SubtreeIds(cs[i])
    requires forall j :: 0 <= j < |cs| && j != i ==> id !in SubtreeIds(cs[j])
    ensures LastOwner(cs, id) == Some(i)
  {
    if i < |cs| - 1 {
      LastOwnerIs(cs[..|cs| - 1], i, id);
    }
  }

  /** A child is listed first among its own descendants, so it takes its own colour. */
  lemma ChildColor(attrs: map<NodeId, NodeAttrs>, t: Tree, colormap: seq<Color>, i: nat)
    requires WellFormed(t) && i < |t.children|
    ensures Get(Colored(attrs, t.children, colormap), t.children[i].id).color == ColorFor(colormap, i)
  {
    var child := t.children[i];
    assert Descendants(child)[0] == Visit(child, []) by {
      assert Levels(child, 0) == [Visit(child, [])];
      LevelsStart(child, Height(child));
    }
    SubtreeColor(attrs, t, colormap, i, Visit(child, []));
  }

  lemma {:induction false} LevelsStart(t: Tree, n: nat)
    ensures |Levels(t, n)| > 0 && Levels(t, n)[0] == Visit(t, [])
  {
    if n > 0 {
      LevelsStart(t, n - 1);
    }
  }

  /** In a well-formed tree the root's fields, its colour included, are not written. */
  lemma RootUncolored(attrs: map<NodeId, NodeAttrs>, t: Tree, colormap: seq<Color>)
    requires WellFormed(t)
    ensures t.id in Colored(attrs, t.children, colormap) <==> t.id in attrs
    ensures Get(Colored(attrs, t.children, colormap), t.id) == Get(attrs, t.id)
  {
    forall j | 0 <= j < |t.children|
      ensures t.id !in SubtreeIds(t.children[j])
    {
      if t.id in SubtreeIds(t.children[j]) {
        SubtreesDisjoint(t, j, t.id);
      }
    }
    ColoredAt(attrs, t.children, colormap, t.id);
  }
}
