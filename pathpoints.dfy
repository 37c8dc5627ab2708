/** PathPoint nodes of the best-first search (test.py), held in an arena and
    addressed by integer handles; `parent` and `child` are optional handles.
    Path costs are reals: a straight step costs 1, a diagonal step costs a
    constant the maze fixes. */
module PathPoints {
  import opened Cells

  datatype PathNode = PathNode(point: Point, length: real, parent: Option<nat>, child: Option<nat>)

  /** The link discipline the arena keeps: a `child` link always points to a
      node created later (PathPoint.__init__ is the only writer of a child
      link, and it links the parent to the node being created), and every
      handle refers to an existing node. */
  ghost predicate Linked(nodes: seq<PathNode>) {
    (forall k :: 0 <= k < |nodes| && nodes[k].child.Some? ==> k < nodes[k].child.value < |nodes|)
    && (forall k :: 0 <= k < |nodes| && nodes[k].parent.Some? ==> nodes[k].parent.value < |nodes|)
  }

  /** The point of every node, by handle. */
  function NodePoints(nodes: seq<PathNode>): (r: seq<Point>)
    ensures |r| == |nodes|
    ensures forall k :: 0 <= k < |nodes| ==> r[k] == nodes[k].point
  {
    seq(|nodes|, k requires 0 <= k < |nodes| => nodes[k].point)
  }

  /** The points of the nodes a list of handles names, in list order. */
  function PointsAt(pts: seq<Point>, handles: seq<nat>): (r: seq<Point>)
    requires forall i :: 0 <= i < |handles| ==> handles[i] < |pts|
    ensures |r| == |handles|
    ensures forall i :: 0 <= i < |handles| ==> r[i] == pts[handles[i]]
  {
    seq(|handles|, i requires 0 <= i < |handles| => pts[handles[i]])
  }

  /** The handles reached from h by following `child` links, h included. */
  ghost function Chain(nodes: seq<PathNode>, h: nat): (r: set<nat>)
    requires Linked(nodes) && h < |nodes|
    ensures h in r
    ensures forall k :: k in r ==> h <= k < |nodes|
    decreases |nodes| - h
  {
    {h} + (if nodes[h].child.Some? then Chain(nodes, nodes[h].child.value) else {})
  }

  /** The chain is closed under `child`, and only holds nodes reached that way. */
  lemma {:induction false} ChainClosed(nodes: seq<PathNode>, h: nat, k: nat)
    requires Linked(nodes) && h < |nodes|
    requires k in Chain(nodes, h) && nodes[k].child.Some?
    ensures nodes[k].child.value in Chain(nodes, h)
    decreases |nodes| - h
  {
    if k != h {
      ChainClosed(nodes, nodes[h].child.value, k);
    }
  }

  /** Nodes whose `child` links agree have the same chains. */
  lemma {:induction false} ChainSameLinks(a: seq<PathNode>, b: seq<PathNode>, h: nat)
    requires Linked(a) && Linked(b) && |a| == |b| && h < |a|
    requires forall k :: 0 <= k < |a| ==> a[k].child == b[k].child
    ensures Chain(a, h) == Chain(b, h)
    decreases |a| - h
  {
    if a[h].child.Some? {
      ChainSameLinks(a, b, a[h].child.value);
    }
  }

  /** A node with its length lowered by diff. */
  function Lowered(n: PathNode, diff: real): (r: PathNode)
    ensures r.point == n.point && r.parent == n.parent && r.child == n.child
    ensures r.length + diff == n.length
  {
    n.(length := n.length - diff)
  }

  /** The first two statements of change_parent: the old parent forgets its
      child and the node takes `other` as parent. */
  function Detached(nodes: seq<PathNode>, h: nat, other: nat): (r: seq<PathNode>)
    requires h < |nodes|
    ensures |r| == |nodes|
    ensures r[h].parent == Some(other) && r[h].length == nodes[h].length
    ensures nodes[h].parent.Some? && nodes[h].parent.value < |nodes| ==> r[nodes[h].parent.value].child == None
    ensures forall k :: 0 <= k < |nodes| ==> r[k].point == nodes[k].point && r[k].length == nodes[k].length
  {
    var freed := if nodes[h].parent.Some? && nodes[h].parent.value < |nodes|
      then nodes[nodes[h].parent.value := nodes[nodes[h].parent.value].(child := None)]
      else nodes;
    freed[h := freed[h].(parent := Some(other))]
  }

  lemma DetachedLinked(nodes: seq<PathNode>, h: nat, other: nat)
    requires Linked(nodes) && h < |nodes| && other < |nodes|
    ensures Linked(Detached(nodes, h, other))
  {
  }

  /** A node without a child is its own whole chain. */
  lemma LeafChain(nodes: seq<PathNode>, h: nat)
    requires Linked(nodes) && h < |nodes| && nodes[h].child.None?
    ensures Chain(nodes, h) == {h}
  {
  }

  /** change_parent on a node without a child: its old parent forgets it, it
      takes `other` as parent and `newDist` as length, and no other node
      changes except for that lost child link. */
  function Reparented(nodes: seq<PathNode>, h: nat, other: nat, newDist: real): (r: seq<PathNode>)
    requires h < |nodes|
    ensures |r| == |nodes|
    ensures forall k :: 0 <= k < |nodes| ==> r[k].point == nodes[k].point
    ensures r[h].length == newDist && r[h].parent == Some(other)
    ensures forall k :: 0 <= k < |nodes| && k != h ==> r[k].length == nodes[k].length && r[k].parent == nodes[k].parent
    ensures forall k :: 0 <= k < |nodes| ==> r[k].child == nodes[k].child || r[k].child.None?
  {
    var d := Detached(nodes, h, other);
    d[h := d[h].(length := newDist)]
  }

  lemma ReparentedLinked(nodes: seq<PathNode>, h: nat, other: nat, newDist: real)
    requires Linked(nodes) && h < |nodes| && other < |nodes|
    ensures Linked(Reparented(nodes, h, other, newDist))
  {
    var r := Reparented(nodes, h, other, newDist);
    assert forall k :: 0 <= k < |r| && r[k].child.Some? ==> r[k].child == nodes[k].child;
    assert forall k :: 0 <= k < |r| && r[k].parent.Some? ==> r[k].parent == nodes[k].parent || k == h;
  }

  /** Handles into a longer arena whose old nodes kept their points name the
      same points. */
  lemma PointsAtPrefix(pts: seq<Point>, more: seq<Point>, hs: seq<nat>)
    requires forall i :: 0 <= i < |hs| ==> hs[i] < |pts|
    ensures PointsAt(pts + more, hs) == PointsAt(pts, hs)
  {
  }

  /** The points a concatenation of handle lists names. */
  lemma PointsAtConcat(pts: seq<Point>, a: seq<nat>, b: seq<nat>)
    requires forall i :: 0 <= i < |a| ==> a[i] < |pts|
    requires forall i :: 0 <= i < |b| ==> b[i] < |pts|
    ensures PointsAt(pts, a + b) == PointsAt(pts, a) + PointsAt(pts, b)
  {
  }

  /** The points of a handle list with position k removed. */
  lemma PointsAtRemove(pts: seq<Point>, hs: seq<nat>, k: nat)
    requires forall i :: 0 <= i < |hs| ==> hs[i] < |pts|
    requires k < |hs|
    ensures Below(hs[..k] + hs[k + 1..], |pts|)
    ensures PointsAt(pts, hs[..k] + hs[k + 1..]) == PointsAt(pts, hs)[..k] + PointsAt(pts, hs)[k + 1..]
  {
    var r := hs[..k] + hs[k + 1..];
    assert forall i :: 0 <= i < |r| ==> r[i] == hs[if i < k then i else i + 1];
  }

  /** Every handle of the list names a node of an arena with n nodes. */
  predicate Below(hs: seq<nat>, n: nat) {
    forall i :: 0 <= i < |hs| ==> hs[i] < n
  }

  /** No node the handles name has a child. */
  predicate Leaves(nodes: seq<PathNode>, hs: seq<nat>) {
    forall i :: 0 <= i < |hs| && hs[i] < |nodes| ==> nodes[hs[i]].child.None?
  }

  /** No node the handles name has a child, except those at point x. */
  predicate LeavesBut(nodes: seq<PathNode>, hs: seq<nat>, x: Point) {
    forall i :: 0 <= i < |hs| && hs[i] < |nodes| && nodes[hs[i]].point != x ==> nodes[hs[i]].child.None?
  }

  /** The arena after PathPoint(point, val, parent): a new last node, without
      a child, that the parent (if any) now names as its child. */
  function Appended(nodes: seq<PathNode>, point: Point, val: real, parent: Option<nat>): (r: seq<PathNode>)
    requires parent.Some? ==> parent.value < |nodes|
    ensures |r| == |nodes| + 1 && r[|nodes|] == PathNode(point, val, parent, None)
    ensures forall k :: 0 <= k < |nodes| ==>
      r[k].point == nodes[k].point && r[k].length == nodes[k].length && r[k].parent == nodes[k].parent
    ensures forall k :: 0 <= k < |nodes| ==>
      r[k].child == if parent == Some(k) then Some(|nodes|) else nodes[k].child
    ensures NodePoints(r) == NodePoints(nodes) + [point]
  {
    var linked := if parent.Some? then nodes[parent.value := nodes[parent.value].(child := Some(|nodes|))] else nodes;
    linked + [PathNode(point, val, parent, None)]
  }

  lemma AppendedLinked(nodes: seq<PathNode>, point: Point, val: real, parent: Option<nat>)
    requires Linked(nodes) && (parent.Some? ==> parent.value < |nodes|)
    ensures Linked(Appended(nodes, point, val, parent))
  {
  }

  /** The arena of PathPoint objects. */
  class Arena {
    var nodes: seq<PathNode>

    ghost predicate Valid()
      reads this
    {
      Linked(nodes)
    }

    constructor()
      ensures Valid() && nodes == []
    {
      nodes := [];
    }

    /** PathPoint(point, val, parent): a new node, linked as its parent's child. */
    method NewNode(point: Point, val: real, parent: Option<nat>) returns (h: nat)
      requires Valid() && (parent.Some? ==> parent.value < |nodes|)
      modifies this
      ensures Valid()
      ensures h == old(|nodes|)
      ensures nodes == Appended(old(nodes), point, val, parent)
    {
      AppendedLinked(nodes, point, val, parent);
      h := |nodes|;
      var linked := nodes;
      if parent.Some? {
        linked := linked[parent.value := linked[parent.value].(child := Some(h))];
      }
      nodes := linked + [PathNode(point, val, parent, None)];
    }

    /** change_length: lowers the length of h and of every node down its
        child chain by `difference`; nothing else changes. */
    method ChangeLength(h: nat, difference: real)
      requires Valid() && h < |nodes|
      modifies this
      ensures Valid() && |nodes| == old(|nodes|)
      ensures forall k :: 0 <= k < |nodes| ==>
        nodes[k] == (if k in Chain(old(nodes), h) then Lowered(old(nodes[k]), difference) else old(nodes[k]))
      ensures NodePoints(nodes) == NodePoints(old(nodes))
      decreases |nodes| - h
    {
      ghost var before := nodes;
      nodes := nodes[h := Lowered(nodes[h], difference)];
      if nodes[h].child.Some? {
        var c := nodes[h].child.value;
        ghost var mid := nodes;
        ChainSameLinks(before, mid, c);
        ChangeLength(c, difference);
        assert Chain(before, h) == {h} + Chain(before, c);
      }
    }

    /** change_parent: the old parent loses its child link, `other` becomes the
        parent, and the whole child chain is shifted so that h ends at
        `newDist`. */
    method ChangeParent(h: nat, other: nat, newDist: real)
      requires Valid() && h < |nodes| && other < |nodes|
      modifies this
      ensures Valid() && |nodes| == old(|nodes|)
      ensures nodes[h].length == newDist && nodes[h].parent == Some(other)
      ensures old(nodes[h].parent).Some? ==> nodes[old(nodes[h].parent).value].child == None
      ensures forall k :: 0 <= k < |nodes| ==>
        nodes[k] == (var m := Detached(old(nodes), h, other)[k];
                     if k in Chain(Detached(old(nodes), h, other), h)
                     then Lowered(m, old(nodes[h].length) - newDist) else m)
      ensures NodePoints(nodes) == NodePoints(old(nodes))
      // a move to a cheaper parent only lowers lengths
      ensures newDist <= old(nodes[h].length) ==>
        forall k :: 0 <= k < |nodes| ==> nodes[k].length <= old(nodes[k].length)
      // on a node without a child only the node and its old parent change
      ensures old(nodes[h].child).None? ==> nodes == Reparented(old(nodes), h, other, newDist)
    {
      ghost var detached := Detached(nodes, h, other);
      DetachedLinked(nodes, h, other);
      if nodes[h].parent.Some? {
        var p := nodes[h].parent.value;
        nodes := nodes[p := nodes[p].(child := None)];
      }
      nodes := nodes[h := nodes[h].(parent := Some(other))];
      assert nodes == detached;
      ChangeLength(h, nodes[h].length - newDist);
      assert NodePoints(nodes) == NodePoints(detached);
      if old(nodes[h].child).None? {
        LeafChain(detached, h);
        assert nodes == Reparented(old(nodes), h, other, newDist);
      }
    }

    /** change_parent on a node without a child, the only kind find_path
        reparents: the node and its old parent alone change. */
    method ChangeLeafParent(h: nat, other: nat, newDist: real)
      requires Valid() && h < |nodes| && other < |nodes| && nodes[h].child.None?
      modifies this
      ensures Valid() && nodes == Reparented(old(nodes), h, other, newDist)
    {
      ChangeParent(h, other, newDist);
    }
  }

  /** The value get_closest minimises: cost so far plus the Manhattan
      distance to the goal. */
  function Score(nodes: seq<PathNode>, h: nat, goal: Point): real
    requires h < |nodes|
  {
    nodes[h].length + ManhattanDistance(nodes[h].point, goal) as real
  }

  /** get_closest over the nodes a list of handles names: the position in the
      list of the first node with the least score, None for an empty list. */
  function GetClosest(nodes: seq<PathNode>, handles: seq<nat>, goal: Point): (r: Option<nat>)
    requires forall i :: 0 <= i < |handles| ==> handles[i] < |nodes|
    ensures r.None? <==> |handles| == 0
    ensures r.Some? ==> r.value < |handles|
    ensures r.Some? ==> forall j :: 0 <= j < |handles| ==>
      Score(nodes, handles[r.value], goal) <= Score(nodes, handles[j], goal)
    ensures r.Some? ==> forall j :: 0 <= j < r.value ==>
      Score(nodes, handles[r.value], goal) < Score(nodes, handles[j], goal)
  {
    if |handles| == 0 then None
    else
      var best := GetClosest(nodes, handles[..|handles| - 1], goal);
      var last := |handles| - 1;
      if best.None? || Score(nodes, handles[last], goal) < Score(nodes, handles[best.value], goal)
      then Some(last)
      else best
  }

  /** get_closest as the source computes it: one pass over the list that
      keeps the first node of least score seen so far. */
  method FindClosest(nodes: seq<PathNode>, handles: seq<nat>, goal: Point) returns (r: Option<nat>)
    requires forall i :: 0 <= i < |handles| ==> handles[i] < |nodes|
    ensures r == GetClosest(nodes, handles, goal)
  {
    r := None;
    var minDistance: Option<real> := None;
    for i := 0 to |handles|
      invariant r == GetClosest(nodes, handles[..i], goal)
      invariant minDistance.None? <==> r.None?
      invariant r.Some? ==> r.value < i && minDistance.value == Score(nodes, handles[r.value], goal)
    {
      assert handles[..i + 1][..i] == handles[..i];
      var curDistance := ManhattanDistance(nodes[handles[i]].point, goal);
      if minDistance.None? || curDistance as real + nodes[handles[i]].length < minDistance.value {
        r := Some(i);
        minDistance := Some(nodes[handles[i]].length + curDistance as real);
      }
    }
    assert handles[..|handles|] == handles;
  }
}
