/** One call of find_path (test.py) expands one frontier node: it relaxes
    the frontier nodes at each of the node's eight neighbours and creates a
    node for every neighbour that is open.  This module states that loop on
    values: an Expansion is the part of the maze the loop changes, and
    Visits folds the loop body over the neighbours. */
module Expansions {
  import opened Cells
  import opened Grids
  import opened PathPoints

  /** The cost of the step from p to the neighbour n: 1 along a row or a
      column, `diagonal` (math.sqrt(2)) when the Manhattan distance is 2. */
  function Offset(p: Point, n: Point, diagonal: real): real {
    if ManhattanDistance(p, n) == 2 then diagonal else 1.0
  }

  /** The frontier node with handle k lies at n and is dearer than a step
      from `ch`: the inner loop of find_path reparents exactly these. */
  predicate Relaxes(nodes: seq<PathNode>, hs: seq<nat>, ch: nat, n: Point, offset: real, k: nat)
    requires ch < |nodes| && k < |nodes|
  {
    k in hs && nodes[k].point == n && nodes[k].length > nodes[ch].length + offset
  }

  datatype Relaxation = Relaxation(nodes: seq<PathNode>, seen: bool, useful: bool)

  /** One pass of the inner loop of find_path, over the frontier node h, for
      the neighbour n of node ch: a node at n is seen, and reparented to ch
      with length `length(ch) + offset` when that is shorter. */
  function RelaxOne(r: Relaxation, h: nat, ch: nat, n: Point, offset: real): (r': Relaxation)
    requires h < |r.nodes| && ch < |r.nodes|
    ensures |r'.nodes| == |r.nodes|
  {
    if r.nodes[h].point != n then r
    else if r.nodes[h].length > r.nodes[ch].length + offset
    then Relaxation(Reparented(r.nodes, h, ch, r.nodes[ch].length + offset), true, true)
    else r.(seen := true)
  }

  /** The inner loop of find_path over the first j frontier handles. */
  function Relaxed(nodes: seq<PathNode>, frontier: seq<nat>, ch: nat, n: Point, offset: real, j: nat): (r: Relaxation)
    requires ch < |nodes| && Below(frontier, |nodes|) && j <= |frontier|
    ensures |r.nodes| == |nodes|
    decreases j
  {
    if j == 0 then Relaxation(nodes, false, false)
    else RelaxOne(Relaxed(nodes, frontier, ch, n, offset, j - 1), frontier[j - 1], ch, n, offset)
  }

  /** One pass changes the length and parent of h alone, and only when h lies
      at n and is dearer than a step from ch. */
  lemma RelaxOneLengths(r: Relaxation, h: nat, ch: nat, n: Point, offset: real, k: nat)
    requires h < |r.nodes| && ch < |r.nodes| && k < |r.nodes| && r.nodes[ch].point != n
    ensures var m := RelaxOne(r, h, ch, n, offset).nodes;
      m[ch].length == r.nodes[ch].length &&
      if k == h && r.nodes[h].point == n && r.nodes[h].length > r.nodes[ch].length + offset
      then m[k].length == r.nodes[ch].length + offset && m[k].parent == Some(ch)
      else m[k].length == r.nodes[k].length && m[k].parent == r.nodes[k].parent
  {
  }

  /** Relaxation moves no node. */
  lemma {:induction false} RelaxedPoint(nodes: seq<PathNode>, frontier: seq<nat>, ch: nat, n: Point, offset: real, j: nat, k: nat)
    requires ch < |nodes| && Below(frontier, |nodes|) && j <= |frontier| && k < |nodes|
    ensures Relaxed(nodes, frontier, ch, n, offset, j).nodes[k].point == nodes[k].point
    decreases j
  {
    if j > 0 {
      RelaxedPoint(nodes, frontier, ch, n, offset, j - 1, k);
    }
  }

  /** One pass sees n when h lies there, and is useful when it reparents h. */
  lemma RelaxOneFlags(r: Relaxation, h: nat, ch: nat, n: Point, offset: real)
    requires h < |r.nodes| && ch < |r.nodes|
    ensures RelaxOne(r, h, ch, n, offset).seen == (r.seen || r.nodes[h].point == n)
    ensures RelaxOne(r, h, ch, n, offset).useful ==
      (r.useful || (r.nodes[h].point == n && r.nodes[h].length > r.nodes[ch].length + offset))
  {
  }

  /** The loop sees n exactly when some frontier node lies at n. */
  lemma {:induction false} RelaxedSeen(nodes: seq<PathNode>, frontier: seq<nat>, ch: nat, n: Point, offset: real, j: nat)
    requires ch < |nodes| && Below(frontier, |nodes|) && j <= |frontier|
    ensures Relaxed(nodes, frontier, ch, n, offset, j).seen <==> exists i :: 0 <= i < j && nodes[frontier[i]].point == n
    decreases j
  {
    if j > 0 {
      RelaxedSeen(nodes, frontier, ch, n, offset, j - 1);
      var r := Relaxed(nodes, frontier, ch, n, offset, j - 1);
      RelaxOneFlags(r, frontier[j - 1], ch, n, offset);
      RelaxedPoint(nodes, frontier, ch, n, offset, j - 1, frontier[j - 1]);
    }
  }

  /** Relaxation lowers exactly the frontier nodes at n that are dearer than
      a step from ch to the cost of that step, makes ch their parent, and
      changes no other length or parent (stated for one node k).  ch, not
      being at n, keeps its length. */
  lemma {:induction false} RelaxedAt(nodes: seq<PathNode>, frontier: seq<nat>, ch: nat, n: Point, offset: real, j: nat, k: nat)
    requires ch < |nodes| && Below(frontier, |nodes|) && j <= |frontier| && nodes[ch].point != n && k < |nodes|
    ensures Relaxed(nodes, frontier, ch, n, offset, j).nodes[ch].length == nodes[ch].length
    ensures var m := Relaxed(nodes, frontier, ch, n, offset, j).nodes;
      if Relaxes(nodes, frontier[..j], ch, n, offset, k)
      then m[k].length == nodes[ch].length + offset && m[k].parent == Some(ch)
      else m[k].length == nodes[k].length && m[k].parent == nodes[k].parent
    decreases j
  {
    if j > 0 {
      RelaxedAt(nodes, frontier, ch, n, offset, j - 1, k);
      RelaxedAt(nodes, frontier, ch, n, offset, j - 1, ch);
      var r := Relaxed(nodes, frontier, ch, n, offset, j - 1);
      var h := frontier[j - 1];
      assert frontier[..j] == frontier[..j - 1] + [h];
      RelaxedPoint(nodes, frontier, ch, n, offset, j - 1, h);
      RelaxedPoint(nodes, frontier, ch, n, offset, j - 1, ch);
      RelaxOneLengths(r, h, ch, n, offset, k);
    }
  }

  /** Relaxation never gives a node a child. */
  lemma {:induction false} RelaxedChildren(nodes: seq<PathNode>, frontier: seq<nat>, ch: nat, n: Point, offset: real, j: nat)
    requires ch < |nodes| && Below(frontier, |nodes|) && j <= |frontier|
    ensures forall k :: 0 <= k < |nodes| ==>
      Relaxed(nodes, frontier, ch, n, offset, j).nodes[k].child == nodes[k].child ||
      Relaxed(nodes, frontier, ch, n, offset, j).nodes[k].child.None?
    decreases j
  {
    if j > 0 {
      RelaxedChildren(nodes, frontier, ch, n, offset, j - 1);
    }
  }

  lemma {:induction false} RelaxedLinked(nodes: seq<PathNode>, frontier: seq<nat>, ch: nat, n: Point, offset: real, j: nat)
    requires ch < |nodes| && Below(frontier, |nodes|) && j <= |frontier| && Linked(nodes)
    ensures Linked(Relaxed(nodes, frontier, ch, n, offset, j).nodes)
    decreases j
  {
    if j > 0 {
      RelaxedLinked(nodes, frontier, ch, n, offset, j - 1);
      var r := Relaxed(nodes, frontier, ch, n, offset, j - 1);
      ReparentedLinked(r.nodes, frontier[j - 1], ch, r.nodes[ch].length + offset);
    }
  }

  /** The loop is useful exactly when it reparents some node. */
  lemma {:induction false} RelaxedUseful(nodes: seq<PathNode>, frontier: seq<nat>, ch: nat, n: Point, offset: real, j: nat)
    requires ch < |nodes| && Below(frontier, |nodes|) && j <= |frontier| && nodes[ch].point != n
    ensures Relaxed(nodes, frontier, ch, n, offset, j).useful <==>
      exists k :: 0 <= k < |nodes| && Relaxes(nodes, frontier[..j], ch, n, offset, k)
    decreases j
  {
    if j > 0 {
      RelaxedUseful(nodes, frontier, ch, n, offset, j - 1);
      var r := Relaxed(nodes, frontier, ch, n, offset, j - 1);
      var h := frontier[j - 1];
      RelaxedAt(nodes, frontier, ch, n, offset, j - 1, h);
      assert frontier[..j] == frontier[..j - 1] + [h];
      RelaxOneFlags(r, h, ch, n, offset);
      RelaxedPoint(nodes, frontier, ch, n, offset, j - 1, h);
      UsefulStep(nodes, frontier[..j - 1], h, ch, n, offset, r.useful,
                 Relaxed(nodes, frontier, ch, n, offset, j).useful, r.nodes[h].length);
    }
  }

  /** The induction step of RelaxedUseful, on the flags alone: u0 says some
      node of `before` relaxes, lenH is the length of h after those passes. */
  lemma UsefulStep(nodes: seq<PathNode>, before: seq<nat>, h: nat, ch: nat, n: Point, offset: real,
                   u0: bool, u1: bool, lenH: real)
    requires ch < |nodes| && h < |nodes|
    requires u0 <==> exists k :: 0 <= k < |nodes| && Relaxes(nodes, before, ch, n, offset, k)
    requires u1 == (u0 || (nodes[h].point == n && lenH > nodes[ch].length + offset))
    requires Relaxes(nodes, before, ch, n, offset, h) ==> lenH == nodes[ch].length + offset
    requires !Relaxes(nodes, before, ch, n, offset, h) ==> lenH == nodes[h].length
    ensures u1 <==> exists k :: 0 <= k < |nodes| && Relaxes(nodes, before + [h], ch, n, offset, k)
  {
    if u0 {
      var k :| 0 <= k < |nodes| && Relaxes(nodes, before, ch, n, offset, k);
      assert Relaxes(nodes, before + [h], ch, n, offset, k);
    } else if u1 {
      assert Relaxes(nodes, before + [h], ch, n, offset, h);
    } else {
      forall k | 0 <= k < |nodes|
        ensures !Relaxes(nodes, before + [h], ch, n, offset, k)
      {
        assert !Relaxes(nodes, before, ch, n, offset, k);
      }
    }
  }

  // ---------------------------------------------------------------------
  // The loop over the neighbours

  /** What the loop over the neighbours of node ch reads but does not change:
      the node, the points of the closed list, the goal, the field's size and
      the cost of a diagonal step. */
  datatype Setting = Setting(ch: nat, worked: seq<Point>, goal: Point, height: nat, width: nat, diagonal: real)

  /** What the loop changes: the arena, the frontier's handles, the grid,
      is_path_found, last_track_point and the flags is_successful and
      is_useful. */
  datatype Expansion = Expansion(nodes: seq<PathNode>, frontier: seq<nat>, grid: Grid,
                                 found: bool, track: Option<nat>, successful: bool, useful: bool)

  predicate Formed(e: Expansion, s: Setting) {
    s.ch < |e.nodes| && Below(e.frontier, |e.nodes|) && Shaped(e.grid, s.height, s.width)
  }

  /** The points of the frontier nodes. */
  function FrontierPts(e: Expansion): seq<Point>
    requires Below(e.frontier, |e.nodes|)
  {
    PointsAt(NodePoints(e.nodes), e.frontier)
  }

  /** is_possible before the frontier is searched: n is on the field, has no
      node in the closed list, and is neither a wall nor the start. */
  predicate Open(g: Grid, s: Setting, n: Point)
    requires Shaped(g, s.height, s.width)
  {
    Inside(n, s.height, s.width) && n !in s.worked && Wall !in Get(g, n).markers && Start !in Get(g, n).markers
  }

  /** One pass of find_path's loop over the neighbours, for the neighbour n:
      the frontier nodes at n are relaxed; if n is open and has no frontier
      node, a node for it is created with ch as parent, and it becomes the
      last track point when n is the goal, or joins the frontier (its cell
      marked `path`) otherwise. */
  function Visit(e: Expansion, s: Setting, n: Point): (r: Expansion)
    requires Formed(e, s)
    ensures Formed(r, s) && |r.nodes| >= |e.nodes| && |r.frontier| >= |e.frontier|
  {
    var offset := Offset(e.nodes[s.ch].point, n, s.diagonal);
    var rx := Relaxed(e.nodes, e.frontier, s.ch, n, offset, |e.frontier|);
    var useful := e.useful || rx.useful;
    if !Open(e.grid, s, n) || rx.seen then
      Expansion(rx.nodes, e.frontier, e.grid, e.found, e.track, e.successful, useful)
    else
      var nodes := Appended(rx.nodes, n, rx.nodes[s.ch].length + offset, Some(s.ch));
      if n == s.goal then Expansion(nodes, e.frontier, e.grid, true, Some(|e.nodes|), true, useful)
      else Expansion(nodes, e.frontier + [|e.nodes|], Put(e.grid, n, AddMarker(Get(e.grid, n), Path)),
                     e.found, e.track, true, useful)
  }

  /** The first i passes of the loop over the neighbours ns. */
  function Visits(e: Expansion, s: Setting, ns: seq<Point>, i: nat): (r: Expansion)
    requires Formed(e, s) && i <= |ns|
    ensures Formed(r, s) && |r.nodes| >= |e.nodes| && |r.frontier| >= |e.frontier|
    decreases i
  {
    if i == 0 then e else Visit(Visits(e, s, ns, i - 1), s, ns[i - 1])
  }

  // ---------------------------------------------------------------------
  // What the loop over the neighbours does, stated against its start e0

  /** The neighbours are distinct and none is ch's own point. */
  ghost predicate Around(e0: Expansion, s: Setting, ns: seq<Point>)
    requires Formed(e0, s)
  {
    Distinct(ns) && forall j :: 0 <= j < |ns| ==> ns[j] != e0.nodes[s.ch].point
  }

  /** n is open and has no node in the frontier as the loop found it. */
  predicate Admissible(e0: Expansion, s: Setting, n: Point)
    requires Formed(e0, s)
  {
    Open(e0.grid, s, n) && n !in FrontierPts(e0)
  }

  /** The neighbours among the first i that get a node, in order. */
  function Created(e0: Expansion, s: Setting, ns: seq<Point>, i: nat): (r: seq<Point>)
    requires Formed(e0, s) && i <= |ns|
    ensures |r| <= i
    decreases i
  {
    if i == 0 then []
    else Created(e0, s, ns, i - 1) + (if Admissible(e0, s, ns[i - 1]) then [ns[i - 1]] else [])
  }

  /** The neighbours among the first i that join the frontier: those that get
      a node, except the goal. */
  function Added(e0: Expansion, s: Setting, ns: seq<Point>, i: nat): (r: seq<Point>)
    requires Formed(e0, s) && i <= |ns|
    ensures |r| <= i
    decreases i
  {
    if i == 0 then []
    else Added(e0, s, ns, i - 1) + (if Admissible(e0, s, ns[i - 1]) && ns[i - 1] != s.goal then [ns[i - 1]] else [])
  }

  /** A point that is none of the first i neighbours was neither created nor added. */
  lemma {:induction false} NotCreated(e0: Expansion, s: Setting, ns: seq<Point>, i: nat, x: Point)
    requires Formed(e0, s) && i <= |ns|
    requires forall m :: 0 <= m < i ==> ns[m] != x
    ensures x !in Created(e0, s, ns, i) && x !in Added(e0, s, ns, i)
    decreases i
  {
    if i > 0 {
      NotCreated(e0, s, ns, i - 1, x);
    }
  }

  /** After i passes the old nodes kept their points, and ch its length,
      and the nodes created are appended, one per created point. */
  ghost predicate GrownNodes(e0: Expansion, e: Expansion, s: Setting, ns: seq<Point>, i: nat)
    requires Formed(e0, s) && i <= |ns|
  {
    var created := Created(e0, s, ns, i);
    Formed(e, s) && |e.nodes| == |e0.nodes| + |created|
    && (forall k :: 0 <= k < |e0.nodes| ==> e.nodes[k].point == e0.nodes[k].point)
    && (forall j :: 0 <= j < |created| ==> e.nodes[|e0.nodes| + j].point == created[j])
    && e.nodes[s.ch].length == e0.nodes[s.ch].length
  }

  /** After i passes the frontier is the old one followed by the new nodes of
      the added points. */
  ghost predicate GrownFrontier(e0: Expansion, e: Expansion, s: Setting, ns: seq<Point>, i: nat)
    requires Formed(e0, s) && i <= |ns|
  {
    var added := Added(e0, s, ns, i);
    Formed(e, s) && |e.frontier| == |e0.frontier| + |added|
    && (forall j :: 0 <= j < |e0.frontier| ==> e.frontier[j] == e0.frontier[j])
    && (forall j :: |e0.frontier| <= j < |e.frontier| ==>
          |e0.nodes| <= e.frontier[j] && e.nodes[e.frontier[j]].point == added[j - |e0.frontier|])
  }

  /** After i passes the grid differs only by a `path` marker on each added cell. */
  ghost predicate GrownGrid(e0: Expansion, e: Expansion, s: Setting, ns: seq<Point>, i: nat)
    requires Formed(e0, s) && i <= |ns|
  {
    var added := Added(e0, s, ns, i);
    Formed(e, s)
    && forall q :: InGrid(e0.grid, q) ==>
         Get(e.grid, q) == if q in added then AddMarker(Get(e0.grid, q), Path) else Get(e0.grid, q)
  }

  /** The loop over the whole frontier sees n exactly when a frontier node lies there. */
  lemma RelaxedSeenPts(nodes: seq<PathNode>, frontier: seq<nat>, ch: nat, n: Point, offset: real)
    requires ch < |nodes| && Below(frontier, |nodes|)
    ensures Relaxed(nodes, frontier, ch, n, offset, |frontier|).seen == (n in PointsAt(NodePoints(nodes), frontier))
  {
    RelaxedSeen(nodes, frontier, ch, n, offset, |frontier|);
    if n in PointsAt(NodePoints(nodes), frontier) {
      var j :| 0 <= j < |frontier| && PointsAt(NodePoints(nodes), frontier)[j] == n;
      assert nodes[frontier[j]].point == n;
    }
  }

  /** The frontier's points after i passes: the old ones, then the added ones. */
  lemma GrownFrontierPts(e0: Expansion, e: Expansion, s: Setting, ns: seq<Point>, i: nat)
    requires Formed(e0, s) && i <= |ns|
    requires GrownNodes(e0, e, s, ns, i) && GrownFrontier(e0, e, s, ns, i)
    ensures FrontierPts(e) == FrontierPts(e0) + Added(e0, s, ns, i)
  {
    var added := Added(e0, s, ns, i);
    forall j | 0 <= j < |e.frontier|
      ensures FrontierPts(e)[j] == (FrontierPts(e0) + added)[j]
    {
      if j >= |e0.frontier| {
        assert e.nodes[e.frontier[j]].point == added[j - |e0.frontier|];
      }
    }
  }

  /** In pass i the loop sees the neighbour exactly when the frontier it
      started from has a node there. */
  lemma GrownSeen(e0: Expansion, e: Expansion, s: Setting, ns: seq<Point>, i: nat)
    requires Formed(e0, s) && i < |ns| && Around(e0, s, ns)
    requires GrownNodes(e0, e, s, ns, i) && GrownFrontier(e0, e, s, ns, i)
    ensures var n := ns[i];
      Relaxed(e.nodes, e.frontier, s.ch, n, Offset(e.nodes[s.ch].point, n, s.diagonal), |e.frontier|).seen
      == (n in FrontierPts(e0))
  {
    var n := ns[i];
    NotCreated(e0, s, ns, i, n);
    RelaxedSeenPts(e.nodes, e.frontier, s.ch, n, Offset(e.nodes[s.ch].point, n, s.diagonal));
    GrownFrontierPts(e0, e, s, ns, i);
  }

  /** In pass i the neighbour's cell is as the loop found it. */
  lemma GrownOpen(e0: Expansion, e: Expansion, s: Setting, ns: seq<Point>, i: nat)
    requires Formed(e0, s) && i < |ns| && Around(e0, s, ns) && GrownGrid(e0, e, s, ns, i)
    ensures Open(e.grid, s, ns[i]) == Open(e0.grid, s, ns[i])
  {
    NotCreated(e0, s, ns, i, ns[i]);
    if Inside(ns[i], s.height, s.width) {
      assert InGrid(e0.grid, ns[i]);
    }
  }

  /** A pass of the loop as the invariant sees it, in three parts: v is the
      result of visiting n from e, where rx is the relaxation the pass makes.
      First the arena and is_useful. */
  ghost predicate StepArena(e0: Expansion, e: Expansion, v: Expansion, s: Setting, n: Point)
    requires Formed(e0, s) && Formed(e, s)
  {
    var offset := Offset(e.nodes[s.ch].point, n, s.diagonal);
    var rx := Relaxed(e.nodes, e.frontier, s.ch, n, offset, |e.frontier|);
    v.useful == (e.useful || rx.useful)
    && v.nodes == if Admissible(e0, s, n) then Appended(rx.nodes, n, rx.nodes[s.ch].length + offset, Some(s.ch)) else rx.nodes
  }

  /** The frontier and the grid. */
  ghost predicate StepFront(e0: Expansion, e: Expansion, v: Expansion, s: Setting, n: Point)
    requires Formed(e0, s) && Formed(e, s)
  {
    if Admissible(e0, s, n) && n != s.goal
    then InGrid(e.grid, n) && v.frontier == e.frontier + [|e.nodes|]
         && v.grid == Put(e.grid, n, AddMarker(Get(e.grid, n), Path))
    else v.frontier == e.frontier && v.grid == e.grid
  }

  /** is_successful, is_path_found and last_track_point. */
  ghost predicate StepFlag(e0: Expansion, e: Expansion, v: Expansion, s: Setting, n: Point)
    requires Formed(e0, s) && Formed(e, s)
  {
    var goal := Admissible(e0, s, n) && n == s.goal;
    v.successful == (e.successful || Admissible(e0, s, n))
    && v.found == (e.found || goal)
    && v.track == if goal then Some(|e.nodes|) else e.track
  }

  /** Visit, read through the facts the invariant supplies about the pass. */
  lemma VisitStep(e0: Expansion, e: Expansion, s: Setting, n: Point)
    requires Formed(e0, s) && Formed(e, s)
    requires Relaxed(e.nodes, e.frontier, s.ch, n, Offset(e.nodes[s.ch].point, n, s.diagonal), |e.frontier|).seen
      == (n in FrontierPts(e0))
    requires Open(e.grid, s, n) == Open(e0.grid, s, n)
    ensures StepArena(e0, e, Visit(e, s, n), s, n)
    ensures StepFront(e0, e, Visit(e, s, n), s, n)
    ensures StepFlag(e0, e, Visit(e, s, n), s, n)
  {
  }

  /** Pass i as the invariant sees it. */
  lemma GrownStep(e0: Expansion, e: Expansion, s: Setting, ns: seq<Point>, i: nat)
    requires Formed(e0, s) && i < |ns| && Around(e0, s, ns)
    requires GrownNodes(e0, e, s, ns, i) && GrownFrontier(e0, e, s, ns, i) && GrownGrid(e0, e, s, ns, i)
    ensures StepArena(e0, e, Visit(e, s, ns[i]), s, ns[i])
    ensures StepFront(e0, e, Visit(e, s, ns[i]), s, ns[i])
    ensures StepFlag(e0, e, Visit(e, s, ns[i]), s, ns[i])
  {
    GrownSeen(e0, e, s, ns, i);
    GrownOpen(e0, e, s, ns, i);
    VisitStep(e0, e, s, ns[i]);
  }

  /** A pass moves no node and adds at most the neighbour's. */
  lemma StepPoints(e0: Expansion, e: Expansion, v: Expansion, s: Setting, n: Point)
    requires Formed(e0, s) && Formed(e, s) && StepArena(e0, e, v, s, n)
    ensures |v.nodes| == |e.nodes| + (if Admissible(e0, s, n) then 1 else 0)
    ensures forall k :: 0 <= k < |e.nodes| ==> v.nodes[k].point == e.nodes[k].point
    ensures Admissible(e0, s, n) ==> v.nodes[|e.nodes|].point == n
  {
    var offset := Offset(e.nodes[s.ch].point, n, s.diagonal);
    var rx := Relaxed(e.nodes, e.frontier, s.ch, n, offset, |e.frontier|);
    forall k | 0 <= k < |e.nodes|
      ensures rx.nodes[k].point == e.nodes[k].point
    {
      RelaxedPoint(e.nodes, e.frontier, s.ch, n, offset, |e.frontier|, k);
    }
  }

  lemma StepNodes(e0: Expansion, e: Expansion, v: Expansion, s: Setting, ns: seq<Point>, i: nat)
    requires Formed(e0, s) && i < |ns| && Formed(v, s) && ns[i] != e0.nodes[s.ch].point
    requires GrownNodes(e0, e, s, ns, i) && StepArena(e0, e, v, s, ns[i])
    ensures GrownNodes(e0, v, s, ns, i + 1)
  {
    var n := ns[i];
    var offset := Offset(e.nodes[s.ch].point, n, s.diagonal);
    RelaxedAt(e.nodes, e.frontier, s.ch, n, offset, |e.frontier|, s.ch);
    StepPoints(e0, e, v, s, n);
  }

  lemma StepFrontier(e0: Expansion, e: Expansion, v: Expansion, s: Setting, ns: seq<Point>, i: nat)
    requires Formed(e0, s) && i < |ns| && Formed(v, s)
    requires GrownNodes(e0, e, s, ns, i) && GrownFrontier(e0, e, s, ns, i)
    requires StepArena(e0, e, v, s, ns[i]) && StepFront(e0, e, v, s, ns[i])
    ensures GrownFrontier(e0, v, s, ns, i + 1)
  {
    if Admissible(e0, s, ns[i]) && ns[i] != s.goal {
      FrontierGrows(e0, e, v, s, ns, i);
    } else {
      FrontierSame(e0, e, v, s, ns, i);
    }
  }

  lemma FrontierGrows(e0: Expansion, e: Expansion, v: Expansion, s: Setting, ns: seq<Point>, i: nat)
    requires Formed(e0, s) && i < |ns| && Formed(v, s)
    requires GrownNodes(e0, e, s, ns, i) && GrownFrontier(e0, e, s, ns, i)
    requires StepArena(e0, e, v, s, ns[i]) && StepFront(e0, e, v, s, ns[i])
    requires Admissible(e0, s, ns[i]) && ns[i] != s.goal
    ensures GrownFrontier(e0, v, s, ns, i + 1)
  {
    var n := ns[i];
    StepPoints(e0, e, v, s, n);
    var added, next := Added(e0, s, ns, i), Added(e0, s, ns, i + 1);
    assert next == added + [n];
    assert v.frontier == e.frontier + [|e.nodes|];
    assert |v.frontier| == |e0.frontier| + |next|;
    assert forall j :: 0 <= j < |e0.frontier| ==> v.frontier[j] == e0.frontier[j];
    FrontierKept(e0, e, v, s, ns, i);
    assert |e0.nodes| <= |e.nodes|;
    forall j | |e0.frontier| <= j < |v.frontier|
      ensures |e0.nodes| <= v.frontier[j] && v.nodes[v.frontier[j]].point == next[j - |e0.frontier|]
    {
      if j < |e.frontier| {
        assert next[j - |e0.frontier|] == added[j - |e0.frontier|];
      } else {
        assert j - |e0.frontier| == |added| && v.frontier[j] == |e.nodes| && v.nodes[|e.nodes|].point == n;
      }
    }
  }

  /** A pass that moves no node and keeps the frontier's entries keeps the
      invariant's part about the neighbours added so far. */
  lemma FrontierKept(e0: Expansion, e: Expansion, v: Expansion, s: Setting, ns: seq<Point>, i: nat)
    requires Formed(e0, s) && i <= |ns| && Formed(v, s) && GrownFrontier(e0, e, s, ns, i)
    requires |v.frontier| >= |e.frontier| && forall j :: 0 <= j < |e.frontier| ==> v.frontier[j] == e.frontier[j]
    requires |v.nodes| >= |e.nodes| && forall k :: 0 <= k < |e.nodes| ==> v.nodes[k].point == e.nodes[k].point
    ensures forall j :: |e0.frontier| <= j < |e.frontier| ==>
      |e0.nodes| <= v.frontier[j] && v.nodes[v.frontier[j]].point == Added(e0, s, ns, i)[j - |e0.frontier|]
  {
    var added := Added(e0, s, ns, i);
    forall j | |e0.frontier| <= j < |e.frontier|
      ensures |e0.nodes| <= v.frontier[j] && v.nodes[v.frontier[j]].point == added[j - |e0.frontier|]
    {
      var h := e.frontier[j];
      assert |e0.nodes| <= h && e.nodes[h].point == added[j - |e0.frontier|];
      assert v.frontier[j] == h && v.nodes[h].point == e.nodes[h].point;
    }
  }

  lemma FrontierSame(e0: Expansion, e: Expansion, v: Expansion, s: Setting, ns: seq<Point>, i: nat)
    requires Formed(e0, s) && i < |ns| && Formed(v, s)
    requires GrownNodes(e0, e, s, ns, i) && GrownFrontier(e0, e, s, ns, i)
    requires StepArena(e0, e, v, s, ns[i]) && StepFront(e0, e, v, s, ns[i])
    requires !(Admissible(e0, s, ns[i]) && ns[i] != s.goal)
    ensures GrownFrontier(e0, v, s, ns, i + 1)
  {
    var n := ns[i];
    StepPoints(e0, e, v, s, n);
    var added, next := Added(e0, s, ns, i), Added(e0, s, ns, i + 1);
    assert next == added;
    FrontierKept(e0, e, v, s, ns, i);
    forall j | |e0.frontier| <= j < |v.frontier|
      ensures |e0.nodes| <= v.frontier[j] && v.nodes[v.frontier[j]].point == next[j - |e0.frontier|]
    {
      assert next[j - |e0.frontier|] == added[j - |e0.frontier|];
    }
  }

  lemma StepGrid(e0: Expansion, e: Expansion, v: Expansion, s: Setting, ns: seq<Point>, i: nat)
    requires Formed(e0, s) && i < |ns| && Formed(v, s) && ns[i] !in Added(e0, s, ns, i)
    requires GrownGrid(e0, e, s, ns, i) && StepFront(e0, e, v, s, ns[i])
    ensures GrownGrid(e0, v, s, ns, i + 1)
  {
  }

  // ---------------------------------------------------------------------
  // The states the loop passes through

  /** Pass j of the run es: state j + 1 is state j after visiting ns[j]. */
  predicate Link(s: Setting, ns: seq<Point>, es: seq<Expansion>, j: nat)
    requires j < |ns| && |es| == |ns| + 1 && Formed(es[j], s)
  {
    es[j + 1] == Visit(es[j], s, ns[j])
  }

  /** es lists the states of the loop over ns started from e0, one per pass.
      The lemmas below reason about a run state by state, so that only
      RunStep needs to look inside Visit. */
  ghost predicate Run(e0: Expansion, s: Setting, ns: seq<Point>, es: seq<Expansion>) {
    |es| == |ns| + 1 && es[0] == e0
    && (forall j :: 0 <= j < |es| ==> Formed(es[j], s))
    && forall j :: 0 <= j < |ns| ==> Link(s, ns, es, j)
  }

  /** The states of the loop over ns, as Visits gives them. */
  ghost function Trace(e0: Expansion, s: Setting, ns: seq<Point>): (es: seq<Expansion>)
    requires Formed(e0, s)
    ensures |es| == |ns| + 1 && forall j :: 0 <= j <= |ns| ==> es[j] == Visits(e0, s, ns, j)
  {
    seq(|ns| + 1, j requires 0 <= j <= |ns| => Visits(e0, s, ns, j))
  }

  lemma TraceRun(e0: Expansion, s: Setting, ns: seq<Point>)
    requires Formed(e0, s)
    ensures Run(e0, s, ns, Trace(e0, s, ns))
  {
    var es := Trace(e0, s, ns);
    forall j | 0 <= j < |ns|
      ensures Link(s, ns, es, j)
    {
      assert es[j + 1] == Visits(e0, s, ns, j + 1);
    }
  }

  /** Pass j of a run as the invariant sees it. */
  lemma RunStep(e0: Expansion, s: Setting, ns: seq<Point>, es: seq<Expansion>, j: nat)
    requires Formed(e0, s) && Run(e0, s, ns, es) && j < |ns| && Around(e0, s, ns)
    requires GrownNodes(e0, es[j], s, ns, j) && GrownFrontier(e0, es[j], s, ns, j) && GrownGrid(e0, es[j], s, ns, j)
    ensures StepArena(e0, es[j], es[j + 1], s, ns[j])
    ensures StepFront(e0, es[j], es[j + 1], s, ns[j])
    ensures StepFlag(e0, es[j], es[j + 1], s, ns[j])
  {
    assert Link(s, ns, es, j);
    GrownStep(e0, es[j], s, ns, j);
  }

  /** What pass j does to the arena, with the invariant's nodes before it. */
  lemma RunArena(e0: Expansion, s: Setting, ns: seq<Point>, es: seq<Expansion>, j: nat)
    requires Formed(e0, s) && Run(e0, s, ns, es) && j < |ns| && Around(e0, s, ns)
    ensures GrownNodes(e0, es[j], s, ns, j) && StepArena(e0, es[j], es[j + 1], s, ns[j])
  {
    RunGrown(e0, s, ns, es, j);
    RunStep(e0, s, ns, es, j);
  }

  /** The loop invariant, along a run. */
  lemma {:induction false} RunGrown(e0: Expansion, s: Setting, ns: seq<Point>, es: seq<Expansion>, i: nat)
    requires Formed(e0, s) && Run(e0, s, ns, es) && i <= |ns| && Around(e0, s, ns)
    ensures GrownNodes(e0, es[i], s, ns, i)
    ensures GrownFrontier(e0, es[i], s, ns, i)
    ensures GrownGrid(e0, es[i], s, ns, i)
    decreases i
  {
    if i > 0 {
      RunGrown(e0, s, ns, es, i - 1);
      RunStep(e0, s, ns, es, i - 1);
      assert Formed(es[i - 1], s) && Formed(es[i], s);
      GrownNext(e0, es[i - 1], es[i], s, ns, i - 1);
    }
  }

  /** One pass keeps the loop invariant. */
  lemma GrownNext(e0: Expansion, e: Expansion, v: Expansion, s: Setting, ns: seq<Point>, i: nat)
    requires Formed(e0, s) && i < |ns| && Around(e0, s, ns) && Formed(e, s) && Formed(v, s)
    requires GrownNodes(e0, e, s, ns, i) && GrownFrontier(e0, e, s, ns, i) && GrownGrid(e0, e, s, ns, i)
    requires StepArena(e0, e, v, s, ns[i]) && StepFront(e0, e, v, s, ns[i])
    ensures GrownNodes(e0, v, s, ns, i + 1)
    ensures GrownFrontier(e0, v, s, ns, i + 1)
    ensures GrownGrid(e0, v, s, ns, i + 1)
  {
    NotCreated(e0, s, ns, i, ns[i]);
    StepNodes(e0, e, v, s, ns, i);
    StepFrontier(e0, e, v, s, ns, i);
    StepGrid(e0, e, v, s, ns, i);
  }

  /** The loop invariant, proved for every number of passes: after i passes
      the arena holds the old nodes, unmoved, followed by one node per
      created neighbour; the frontier is the old one followed by the nodes
      of the added neighbours; and each added neighbour's cell carries a
      `path` marker, every other cell being unchanged. */
  lemma VisitsGrown(e0: Expansion, s: Setting, ns: seq<Point>, i: nat)
    requires Formed(e0, s) && i <= |ns| && Around(e0, s, ns)
    ensures GrownNodes(e0, Visits(e0, s, ns, i), s, ns, i)
    ensures GrownFrontier(e0, Visits(e0, s, ns, i), s, ns, i)
    ensures GrownGrid(e0, Visits(e0, s, ns, i), s, ns, i)
  {
    TraceRun(e0, s, ns);
    RunGrown(e0, s, ns, Trace(e0, s, ns), i);
  }

  // ---------------------------------------------------------------------
  // Relaxation only lowers costs

  /** Node k of the frontier the loop started from lies at n and is dearer
      than the step from ch to n. */
  predicate Dearer(e0: Expansion, s: Setting, n: Point, k: nat)
    requires Formed(e0, s) && k < |e0.nodes|
  {
    Relaxes(e0.nodes, e0.frontier, s.ch, n, Offset(e0.nodes[s.ch].point, n, s.diagonal), k)
  }

  /** Node k's length and parent after i passes: the step from ch when one of
      the first i neighbours relaxed it, its old ones otherwise. */
  ghost predicate LengthAt(e0: Expansion, e: Expansion, s: Setting, ns: seq<Point>, i: nat, k: nat)
    requires Formed(e0, s) && i <= |ns| && k < |e0.nodes| <= |e.nodes|
  {
    var p := e0.nodes[k].point;
    if p in ns[..i] && Dearer(e0, s, p, k)
    then e.nodes[k].length == e0.nodes[s.ch].length + Offset(e0.nodes[s.ch].point, p, s.diagonal)
         && e.nodes[k].parent == Some(s.ch)
    else e.nodes[k].length == e0.nodes[k].length && e.nodes[k].parent == e0.nodes[k].parent
  }

  /** In pass i the relaxed nodes are exactly the old frontier nodes dearer
      than the step, as the loop found them. */
  lemma FrontierRelaxes(e0: Expansion, e: Expansion, s: Setting, ns: seq<Point>, i: nat, k: nat)
    requires Formed(e0, s) && i < |ns| && Around(e0, s, ns) && k < |e.nodes|
    requires GrownNodes(e0, e, s, ns, i) && GrownFrontier(e0, e, s, ns, i)
    requires k < |e0.nodes| ==> LengthAt(e0, e, s, ns, i, k)
    ensures var n := ns[i];
      Relaxes(e.nodes, e.frontier, s.ch, n, Offset(e.nodes[s.ch].point, n, s.diagonal), k)
      == (k < |e0.nodes| && Dearer(e0, s, n, k))
  {
    var n := ns[i];
    var added := Added(e0, s, ns, i);
    NotCreated(e0, s, ns, i, n);
    forall j | |e0.frontier| <= j < |e.frontier|
      ensures |e0.nodes| <= e.frontier[j] && e.nodes[e.frontier[j]].point != n
    {
      assert e.nodes[e.frontier[j]].point == added[j - |e0.frontier|];
    }
    if k < |e0.nodes| {
      if k in e.frontier {
        var j :| 0 <= j < |e.frontier| && e.frontier[j] == k;
        assert j < |e0.frontier|;
        assert k in e0.frontier;
      }
      if k in e0.frontier {
        var j :| 0 <= j < |e0.frontier| && e0.frontier[j] == k;
        assert e.frontier[j] == k;
      }
      if e0.nodes[k].point == n {
        assert n !in ns[..i];
      }
    }
  }

  lemma StepLength(e0: Expansion, e: Expansion, v: Expansion, s: Setting, ns: seq<Point>, i: nat, k: nat)
    requires Formed(e0, s) && i < |ns| && Around(e0, s, ns) && Formed(v, s) && k < |e0.nodes| <= |v.nodes|
    requires GrownNodes(e0, e, s, ns, i) && GrownFrontier(e0, e, s, ns, i) && StepArena(e0, e, v, s, ns[i])
    requires LengthAt(e0, e, s, ns, i, k)
    ensures LengthAt(e0, v, s, ns, i + 1, k)
  {
    var n := ns[i];
    var offset := Offset(e.nodes[s.ch].point, n, s.diagonal);
    FrontierRelaxes(e0, e, s, ns, i, k);
    RelaxedAt(e.nodes, e.frontier, s.ch, n, offset, |e.frontier|, k);
    assert e.frontier[..|e.frontier|] == e.frontier;
    assert ns[..i + 1] == ns[..i] + [n];
  }

  lemma {:induction false} RunLength(e0: Expansion, s: Setting, ns: seq<Point>, es: seq<Expansion>, i: nat, k: nat)
    requires Formed(e0, s) && Run(e0, s, ns, es) && i <= |ns| && Around(e0, s, ns) && k < |e0.nodes|
    ensures |e0.nodes| <= |es[i].nodes| && LengthAt(e0, es[i], s, ns, i, k)
    decreases i
  {
    RunGrown(e0, s, ns, es, i);
    if i > 0 {
      RunLength(e0, s, ns, es, i - 1, k);
      RunGrown(e0, s, ns, es, i - 1);
      RunStep(e0, s, ns, es, i - 1);
      StepLength(e0, es[i - 1], es[i], s, ns, i - 1, k);
    }
  }

  /** Lengths and parents of the old nodes after any number of passes. */
  lemma VisitsLength(e0: Expansion, s: Setting, ns: seq<Point>, i: nat, k: nat)
    requires Formed(e0, s) && i <= |ns| && Around(e0, s, ns) && k < |e0.nodes|
    ensures LengthAt(e0, Visits(e0, s, ns, i), s, ns, i, k)
  {
    TraceRun(e0, s, ns);
    RunLength(e0, s, ns, Trace(e0, s, ns), i, k);
  }

  /** A relaxation never makes a node dearer. */
  lemma VisitsLower(e0: Expansion, s: Setting, ns: seq<Point>, i: nat, k: nat)
    requires Formed(e0, s) && i <= |ns| && Around(e0, s, ns) && k < |e0.nodes|
    ensures Visits(e0, s, ns, i).nodes[k].length <= e0.nodes[k].length
  {
    VisitsLength(e0, s, ns, i, k);
  }

  /** Some frontier node at one of the first i neighbours was dearer than
      the step from ch. */
  ghost predicate Improved(e0: Expansion, s: Setting, ns: seq<Point>, i: nat)
    requires Formed(e0, s) && i <= |ns|
  {
    exists j, k :: 0 <= j < i && 0 <= k < |e0.nodes| && Dearer(e0, s, ns[j], k)
  }

  /** Pass i is useful exactly when a node of the old frontier at ns[i] is
      dearer than the step. */
  lemma PassUseful(e0: Expansion, e: Expansion, s: Setting, ns: seq<Point>, i: nat)
    requires Formed(e0, s) && i < |ns| && Around(e0, s, ns)
    requires GrownNodes(e0, e, s, ns, i) && GrownFrontier(e0, e, s, ns, i)
    requires forall k :: 0 <= k < |e0.nodes| ==> LengthAt(e0, e, s, ns, i, k)
    ensures var n := ns[i];
      Relaxed(e.nodes, e.frontier, s.ch, n, Offset(e.nodes[s.ch].point, n, s.diagonal), |e.frontier|).useful
      <==> exists k :: 0 <= k < |e0.nodes| && Dearer(e0, s, n, k)
  {
    var n := ns[i];
    var offset := Offset(e.nodes[s.ch].point, n, s.diagonal);
    RelaxedUseful(e.nodes, e.frontier, s.ch, n, offset, |e.frontier|);
    assert e.frontier[..|e.frontier|] == e.frontier;
    forall k | 0 <= k < |e.nodes|
      ensures Relaxes(e.nodes, e.frontier, s.ch, n, offset, k) == (k < |e0.nodes| && Dearer(e0, s, n, k))
    {
      FrontierRelaxes(e0, e, s, ns, i, k);
    }
  }

  /** Pass i of a run sets is_useful exactly when it relaxes a node. */
  lemma RunUsefulAt(e0: Expansion, s: Setting, ns: seq<Point>, es: seq<Expansion>, i: nat)
    requires Formed(e0, s) && Run(e0, s, ns, es) && i < |ns| && Around(e0, s, ns)
    ensures es[i + 1].useful == (es[i].useful || exists k :: 0 <= k < |e0.nodes| && Dearer(e0, s, ns[i], k))
  {
    RunGrown(e0, s, ns, es, i);
    RunStep(e0, s, ns, es, i);
    forall k | 0 <= k < |e0.nodes|
      ensures LengthAt(e0, es[i], s, ns, i, k)
    {
      RunLength(e0, s, ns, es, i, k);
    }
    PassUseful(e0, es[i], s, ns, i);
  }

  lemma {:induction false} RunUseful(e0: Expansion, s: Setting, ns: seq<Point>, es: seq<Expansion>, i: nat)
    requires Formed(e0, s) && Run(e0, s, ns, es) && i <= |ns| && Around(e0, s, ns)
    ensures es[i].useful == (e0.useful || Improved(e0, s, ns, i))
    decreases i
  {
    if i > 0 {
      RunUseful(e0, s, ns, es, i - 1);
      RunUsefulAt(e0, s, ns, es, i - 1);
      UsefulPass(e0, s, ns, i - 1, es[i - 1].useful, es[i].useful);
    }
  }

  /** After i passes is_useful is set exactly when some relaxation happened. */
  lemma VisitsUseful(e0: Expansion, s: Setting, ns: seq<Point>, i: nat)
    requires Formed(e0, s) && i <= |ns| && Around(e0, s, ns)
    ensures Visits(e0, s, ns, i).useful == (e0.useful || Improved(e0, s, ns, i))
  {
    TraceRun(e0, s, ns);
    RunUseful(e0, s, ns, Trace(e0, s, ns), i);
  }

  /** The induction step of VisitsUseful, on the flags alone. */
  lemma UsefulPass(e0: Expansion, s: Setting, ns: seq<Point>, i: nat, u0: bool, u1: bool)
    requires Formed(e0, s) && i < |ns|
    requires u0 == (e0.useful || Improved(e0, s, ns, i))
    requires u1 == (u0 || exists k :: 0 <= k < |e0.nodes| && Dearer(e0, s, ns[i], k))
    ensures u1 == (e0.useful || Improved(e0, s, ns, i + 1))
  {
    if Improved(e0, s, ns, i + 1) && !Improved(e0, s, ns, i) {
      var j, k :| 0 <= j < i + 1 && 0 <= k < |e0.nodes| && Dearer(e0, s, ns[j], k);
      assert j == i;
    }
    if exists k :: 0 <= k < |e0.nodes| && Dearer(e0, s, ns[i], k) {
      var k :| 0 <= k < |e0.nodes| && Dearer(e0, s, ns[i], k);
      assert Improved(e0, s, ns, i + 1);
    }
    if Improved(e0, s, ns, i) {
      var j, k :| 0 <= j < i && 0 <= k < |e0.nodes| && Dearer(e0, s, ns[j], k);
      assert Improved(e0, s, ns, i + 1);
    }
  }

  // ---------------------------------------------------------------------
  // The flags and the last track point

  /** After i passes: is_path_found is set once the goal got a node, which
      is then the last track point; is_successful once any node was created. */
  ghost predicate GrownFlags(e0: Expansion, e: Expansion, s: Setting, ns: seq<Point>, i: nat)
    requires Formed(e0, s) && i <= |ns|
  {
    var created := Created(e0, s, ns, i);
    e.found == (e0.found || s.goal in created)
    && e.successful == (e0.successful || |created| > 0)
    && (s.goal in created ==>
          e.track.Some? && |e0.nodes| <= e.track.value < |e0.nodes| + |created|
          && created[e.track.value - |e0.nodes|] == s.goal)
    && (s.goal !in created ==> e.track == e0.track)
  }

  lemma StepFlags(e0: Expansion, e: Expansion, v: Expansion, s: Setting, ns: seq<Point>, i: nat)
    requires Formed(e0, s) && i < |ns| && Formed(v, s) && ns[i] !in Created(e0, s, ns, i)
    requires Formed(e, s) && |e.nodes| == |e0.nodes| + |Created(e0, s, ns, i)|
    requires GrownFlags(e0, e, s, ns, i) && StepFlag(e0, e, v, s, ns[i])
    ensures GrownFlags(e0, v, s, ns, i + 1)
  {
    var n := ns[i];
    var created := Created(e0, s, ns, i);
    var a := Admissible(e0, s, n);
    var next := Created(e0, s, ns, i + 1);
    assert next == created + (if a then [n] else []);
    if a && n == s.goal {
      assert next[|created|] == s.goal;
    }
  }

  lemma {:induction false} RunFlags(e0: Expansion, s: Setting, ns: seq<Point>, es: seq<Expansion>, i: nat)
    requires Formed(e0, s) && Run(e0, s, ns, es) && i <= |ns| && Around(e0, s, ns)
    ensures GrownFlags(e0, es[i], s, ns, i)
    decreases i
  {
    if i > 0 {
      var j := i - 1;
      RunFlags(e0, s, ns, es, j);
      RunFlagsStep(e0, s, ns, es, j);
      assert es[j + 1] == es[i];
    }
  }

  lemma RunFlagsStep(e0: Expansion, s: Setting, ns: seq<Point>, es: seq<Expansion>, j: nat)
    requires Formed(e0, s) && Run(e0, s, ns, es) && j < |ns| && Around(e0, s, ns)
    requires GrownFlags(e0, es[j], s, ns, j)
    ensures GrownFlags(e0, es[j + 1], s, ns, j + 1)
  {
    RunGrown(e0, s, ns, es, j);
    RunStep(e0, s, ns, es, j);
    assert Formed(es[j], s) && Formed(es[j + 1], s);
    FlagsNext(e0, es[j], es[j + 1], s, ns, j);
  }

  /** One pass keeps the flags' part of the invariant. */
  lemma FlagsNext(e0: Expansion, e: Expansion, v: Expansion, s: Setting, ns: seq<Point>, i: nat)
    requires Formed(e0, s) && i < |ns| && Around(e0, s, ns) && Formed(e, s) && Formed(v, s)
    requires GrownNodes(e0, e, s, ns, i) && GrownFlags(e0, e, s, ns, i) && StepFlag(e0, e, v, s, ns[i])
    ensures GrownFlags(e0, v, s, ns, i + 1)
  {
    NotCreated(e0, s, ns, i, ns[i]);
    StepFlags(e0, e, v, s, ns, i);
  }

  /** After i passes is_path_found says whether the goal got a node, which
      is then the last track point, and is_successful whether any node was
      created. */
  lemma VisitsFlags(e0: Expansion, s: Setting, ns: seq<Point>, i: nat)
    requires Formed(e0, s) && i <= |ns| && Around(e0, s, ns)
    ensures GrownFlags(e0, Visits(e0, s, ns, i), s, ns, i)
  {
    TraceRun(e0, s, ns);
    RunFlags(e0, s, ns, Trace(e0, s, ns), i);
  }

  // ---------------------------------------------------------------------
  // Which neighbours get a node, and what the nodes hold

  /** A neighbour gets a node exactly when it is among the first i and is
      admissible; it joins the frontier exactly when, besides, it is not the
      goal. */
  lemma {:induction false} CreatedMembers(e0: Expansion, s: Setting, ns: seq<Point>, i: nat)
    requires Formed(e0, s) && i <= |ns|
    ensures forall x :: x in Created(e0, s, ns, i) <==> x in ns[..i] && Admissible(e0, s, x)
    ensures forall x :: x in Added(e0, s, ns, i) <==> x in Created(e0, s, ns, i) && x != s.goal
    decreases i
  {
    if i > 0 {
      CreatedMembers(e0, s, ns, i - 1);
      assert ns[..i] == ns[..i - 1] + [ns[i - 1]];
    }
  }

  /** Distinct neighbours get distinct nodes. */
  lemma {:induction false} CreatedDistinct(e0: Expansion, s: Setting, ns: seq<Point>, i: nat)
    requires Formed(e0, s) && i <= |ns| && Distinct(ns)
    ensures Distinct(Created(e0, s, ns, i))
    decreases i
  {
    if i > 0 {
      CreatedDistinct(e0, s, ns, i - 1);
      NotCreated(e0, s, ns, i - 1, ns[i - 1]);
      var n := ns[i - 1];
      if Admissible(e0, s, n) {
        assert Created(e0, s, ns, i) == Created(e0, s, ns, i - 1) + [n];
        DistinctConcat(Created(e0, s, ns, i - 1), [n]);
      }
    }
  }

  /** Distinct neighbours join the frontier at most once each. */
  lemma {:induction false} AddedDistinct(e0: Expansion, s: Setting, ns: seq<Point>, i: nat)
    requires Formed(e0, s) && i <= |ns| && Distinct(ns)
    ensures Distinct(Added(e0, s, ns, i))
    decreases i
  {
    if i > 0 {
      AddedDistinct(e0, s, ns, i - 1);
      NotCreated(e0, s, ns, i - 1, ns[i - 1]);
      var n := ns[i - 1];
      if Admissible(e0, s, n) && n != s.goal {
        assert Added(e0, s, ns, i) == Added(e0, s, ns, i - 1) + [n];
        DistinctConcat(Added(e0, s, ns, i - 1), [n]);
      }
    }
  }

  /** After i passes each created point has its node, just after the old
      nodes and in order: ch is its parent, the step from ch its length, and
      it has no child. */
  ghost predicate GrownNew(e0: Expansion, e: Expansion, s: Setting, ns: seq<Point>, i: nat)
    requires Formed(e0, s) && i <= |ns|
  {
    var chp := e0.nodes[s.ch].point;
    |e.nodes| == |e0.nodes| + |Created(e0, s, ns, i)|
    && forall j {:trigger Created(e0, s, ns, i)[j]} :: 0 <= j < |Created(e0, s, ns, i)| ==>
         e.nodes[|e0.nodes| + j] ==
         PathNode(Created(e0, s, ns, i)[j], e0.nodes[s.ch].length + Offset(chp, Created(e0, s, ns, i)[j], s.diagonal),
                  Some(s.ch), None)
  }

  /** After i passes no old node but ch has gained a child: each kept its
      child link or lost it. */
  ghost predicate GrownChildren(e0: Expansion, e: Expansion, s: Setting)
    requires |e0.nodes| <= |e.nodes|
  {
    forall k :: 0 <= k < |e0.nodes| && k != s.ch ==> e.nodes[k].child == e0.nodes[k].child || e.nodes[k].child.None?
  }

  /** The relaxation of pass i leaves alone every node not at the neighbour,
      but for its child link, which it may clear. */
  lemma RelaxedElsewhere(e: Expansion, s: Setting, n: Point, k: nat)
    requires Formed(e, s) && k < |e.nodes| && e.nodes[k].point != n && e.nodes[s.ch].point != n
    ensures var offset := Offset(e.nodes[s.ch].point, n, s.diagonal);
      var m := Relaxed(e.nodes, e.frontier, s.ch, n, offset, |e.frontier|).nodes;
      m[k].point == e.nodes[k].point && m[k].length == e.nodes[k].length && m[k].parent == e.nodes[k].parent
      && (m[k].child == e.nodes[k].child || m[k].child.None?) && m[s.ch].length == e.nodes[s.ch].length
  {
    var offset := Offset(e.nodes[s.ch].point, n, s.diagonal);
    RelaxedAt(e.nodes, e.frontier, s.ch, n, offset, |e.frontier|, k);
    RelaxedPoint(e.nodes, e.frontier, s.ch, n, offset, |e.frontier|, k);
    RelaxedChildren(e.nodes, e.frontier, s.ch, n, offset, |e.frontier|);
  }

  /** A pass leaves alone a childless node that is neither ch nor at the
      neighbour. */
  lemma StepKeeps(e0: Expansion, e: Expansion, v: Expansion, s: Setting, n: Point, k: nat)
    requires Formed(e0, s) && Formed(e, s) && StepArena(e0, e, v, s, n)
    requires k < |e.nodes| && k != s.ch && e.nodes[k].point != n && e.nodes[s.ch].point != n && e.nodes[k].child.None?
    ensures k < |v.nodes| && v.nodes[k] == e.nodes[k]
  {
    RelaxedElsewhere(e, s, n, k);
  }

  /** The node a pass creates: at the neighbour, ch as parent, the step from
      ch as length, no child. */
  lemma StepMakes(e0: Expansion, e: Expansion, v: Expansion, s: Setting, n: Point)
    requires Formed(e0, s) && Formed(e, s) && StepArena(e0, e, v, s, n) && Admissible(e0, s, n)
    requires e.nodes[s.ch].point != n
    ensures |v.nodes| == |e.nodes| + 1
    ensures v.nodes[|e.nodes|] ==
      PathNode(n, e.nodes[s.ch].length + Offset(e.nodes[s.ch].point, n, s.diagonal), Some(s.ch), None)
  {
    RelaxedElsewhere(e, s, n, s.ch);
  }

  /** Pass i keeps the created nodes as they were made and, when it creates
      one, appends it. */
  lemma RunNewStep(e0: Expansion, s: Setting, ns: seq<Point>, es: seq<Expansion>, i: nat)
    requires Formed(e0, s) && Run(e0, s, ns, es) && i < |ns| && Around(e0, s, ns)
    requires GrownNew(e0, es[i], s, ns, i)
    ensures GrownNew(e0, es[i + 1], s, ns, i + 1)
  {
    RunArena(e0, s, ns, es, i);
    NotCreated(e0, s, ns, i, ns[i]);
    var e, v, n := es[i], es[i + 1], ns[i];
    var created, next := Created(e0, s, ns, i), Created(e0, s, ns, i + 1);
    var chp := e0.nodes[s.ch].point;
    forall j | 0 <= j < |created|
      ensures v.nodes[|e0.nodes| + j] ==
        PathNode(next[j], e0.nodes[s.ch].length + Offset(chp, next[j], s.diagonal), Some(s.ch), None)
    {
      assert next[j] == created[j];
      StepKeeps(e0, e, v, s, n, |e0.nodes| + j);
    }
    if Admissible(e0, s, n) {
      assert next == created + [n];
      StepMakes(e0, e, v, s, n);
    }
  }

  lemma StepChildren(e0: Expansion, e: Expansion, v: Expansion, s: Setting, n: Point)
    requires Formed(e0, s) && Formed(e, s) && |e0.nodes| <= |e.nodes|
    requires GrownChildren(e0, e, s) && StepArena(e0, e, v, s, n)
    ensures |e0.nodes| <= |v.nodes| && GrownChildren(e0, v, s)
  {
    var offset := Offset(e.nodes[s.ch].point, n, s.diagonal);
    RelaxedChildren(e.nodes, e.frontier, s.ch, n, offset, |e.frontier|);
  }

  lemma StepLinked(e0: Expansion, e: Expansion, v: Expansion, s: Setting, n: Point)
    requires Formed(e0, s) && Formed(e, s) && Linked(e.nodes) && StepArena(e0, e, v, s, n)
    ensures Linked(v.nodes)
  {
    var offset := Offset(e.nodes[s.ch].point, n, s.diagonal);
    var rx := Relaxed(e.nodes, e.frontier, s.ch, n, offset, |e.frontier|);
    RelaxedLinked(e.nodes, e.frontier, s.ch, n, offset, |e.frontier|);
    AppendedLinked(rx.nodes, n, rx.nodes[s.ch].length + offset, Some(s.ch));
  }

  lemma {:induction false} RunNew(e0: Expansion, s: Setting, ns: seq<Point>, es: seq<Expansion>, i: nat)
    requires Formed(e0, s) && Run(e0, s, ns, es) && i <= |ns| && Around(e0, s, ns)
    ensures GrownNew(e0, es[i], s, ns, i)
    decreases i
  {
    if i > 0 {
      RunNew(e0, s, ns, es, i - 1);
      RunNewStep(e0, s, ns, es, i - 1);
    }
  }

  lemma {:induction false} RunChildren(e0: Expansion, s: Setting, ns: seq<Point>, es: seq<Expansion>, i: nat)
    requires Formed(e0, s) && Run(e0, s, ns, es) && i <= |ns| && Around(e0, s, ns)
    ensures |e0.nodes| <= |es[i].nodes| && GrownChildren(e0, es[i], s)
    ensures Linked(e0.nodes) ==> Linked(es[i].nodes)
    decreases i
  {
    if i > 0 {
      RunChildren(e0, s, ns, es, i - 1);
      RunArena(e0, s, ns, es, i - 1);
      StepChildren(e0, es[i - 1], es[i], s, ns[i - 1]);
      if Linked(e0.nodes) {
        StepLinked(e0, es[i - 1], es[i], s, ns[i - 1]);
      }
    }
  }

  /** The nodes after i passes: the new ones as created, no old one but ch
      with a new child, and the links still consistent. */
  lemma VisitsNodes(e0: Expansion, s: Setting, ns: seq<Point>, i: nat)
    requires Formed(e0, s) && i <= |ns| && Around(e0, s, ns)
    ensures GrownNew(e0, Visits(e0, s, ns, i), s, ns, i)
    ensures GrownChildren(e0, Visits(e0, s, ns, i), s)
    ensures Linked(e0.nodes) ==> Linked(Visits(e0, s, ns, i).nodes)
  {
    TraceRun(e0, s, ns);
    RunNew(e0, s, ns, Trace(e0, s, ns), i);
    RunChildren(e0, s, ns, Trace(e0, s, ns), i);
  }

  // ---------------------------------------------------------------------
  // What the maze invariant needs after the loop

  /** Every node the loop created lies at one of the neighbours visited and
      was admissible: inside the field, not closed, not a wall or the start
      and without a frontier node. */
  lemma VisitsAdmissible(e0: Expansion, s: Setting, ns: seq<Point>, i: nat)
    requires Formed(e0, s) && i <= |ns| && Around(e0, s, ns)
    ensures var e := Visits(e0, s, ns, i);
      forall k :: |e0.nodes| <= k < |e.nodes| ==> e.nodes[k].point in ns[..i] && Admissible(e0, s, e.nodes[k].point)
  {
    var e := Visits(e0, s, ns, i);
    var created := Created(e0, s, ns, i);
    VisitsGrown(e0, s, ns, i);
    CreatedMembers(e0, s, ns, i);
    forall k | |e0.nodes| <= k < |e.nodes|
      ensures e.nodes[k].point in ns[..i] && Admissible(e0, s, e.nodes[k].point)
    {
      assert e.nodes[|e0.nodes| + (k - |e0.nodes|)].point == created[k - |e0.nodes|];
    }
  }

  /** No frontier node but those at ch's point has a child after the loop,
      when none had one before it. */
  lemma GrownLeaves(e0: Expansion, e: Expansion, s: Setting, ns: seq<Point>, i: nat)
    requires Formed(e0, s) && i <= |ns|
    requires GrownNodes(e0, e, s, ns, i) && GrownFrontier(e0, e, s, ns, i) && GrownNew(e0, e, s, ns, i)
    requires GrownChildren(e0, e, s) && LeavesBut(e0.nodes, e0.frontier, e0.nodes[s.ch].point)
    ensures LeavesBut(e.nodes, e.frontier, e0.nodes[s.ch].point)
  {
    var chp := e0.nodes[s.ch].point;
    forall j | 0 <= j < |e.frontier| && e.frontier[j] < |e.nodes| && e.nodes[e.frontier[j]].point != chp
      ensures e.nodes[e.frontier[j]].child.None?
    {
      var h := e.frontier[j];
      if j < |e0.frontier| {
        assert h == e0.frontier[j] && h < |e0.nodes| && e.nodes[h].point == e0.nodes[h].point;
      } else {
        var a := j - |e0.frontier|;
        assert a < |Added(e0, s, ns, i)| && e.nodes[e.frontier[|e0.frontier| + a]].point == Added(e0, s, ns, i)[a];
        var c := h - |e0.nodes|;
        assert 0 <= c < |Created(e0, s, ns, i)| && Created(e0, s, ns, i)[c] in Created(e0, s, ns, i);
      }
    }
  }

  lemma VisitsLeaves(e0: Expansion, s: Setting, ns: seq<Point>, i: nat)
    requires Formed(e0, s) && i <= |ns| && Around(e0, s, ns)
    requires LeavesBut(e0.nodes, e0.frontier, e0.nodes[s.ch].point)
    ensures var e := Visits(e0, s, ns, i); LeavesBut(e.nodes, e.frontier, e0.nodes[s.ch].point)
  {
    VisitsGrown(e0, s, ns, i);
    VisitsNodes(e0, s, ns, i);
    GrownLeaves(e0, Visits(e0, s, ns, i), s, ns, i);
  }

  /** The frontier holds each point at most once after the loop, when it
      did before it. */
  lemma VisitsDistinct(e0: Expansion, s: Setting, ns: seq<Point>, i: nat)
    requires Formed(e0, s) && i <= |ns| && Around(e0, s, ns) && Distinct(FrontierPts(e0))
    ensures Distinct(FrontierPts(Visits(e0, s, ns, i)))
  {
    var e := Visits(e0, s, ns, i);
    VisitsGrown(e0, s, ns, i);
    GrownFrontierPts(e0, e, s, ns, i);
    AddedDistinct(e0, s, ns, i);
    CreatedMembers(e0, s, ns, i);
    DistinctConcat(FrontierPts(e0), Added(e0, s, ns, i));
  }

  /** The loop moves no start, goal or wall marker. */
  lemma VisitsKeeps(e0: Expansion, s: Setting, ns: seq<Point>, i: nat)
    requires Formed(e0, s) && i <= |ns| && Around(e0, s, ns)
    ensures Keeps(e0.grid, Visits(e0, s, ns, i).grid)
  {
    var e := Visits(e0, s, ns, i);
    VisitsGrown(e0, s, ns, i);
    forall q | InGrid(e0.grid, q)
      ensures Count(e.grid, q, Start) == Count(e0.grid, q, Start)
      ensures Count(e.grid, q, Goal) == Count(e0.grid, q, Goal)
      ensures Count(e.grid, q, Wall) == Count(e0.grid, q, Wall)
    {
      var ms := Get(e0.grid, q).markers;
      OccurrencesSnoc(ms, Path, Start);
      OccurrencesSnoc(ms, Path, Goal);
      OccurrencesSnoc(ms, Path, Wall);
    }
  }

  /** When the goal got a node, the last track point is that node: at the
      goal, with ch as parent and the step from ch as length. */
  lemma VisitsTrack(e0: Expansion, s: Setting, ns: seq<Point>, i: nat)
    requires Formed(e0, s) && i <= |ns| && Around(e0, s, ns)
    requires s.goal in Created(e0, s, ns, i)
    ensures var e := Visits(e0, s, ns, i);
      e.found && e.track.Some? && e.track.value < |e.nodes|
      && e.nodes[e.track.value] == PathNode(s.goal, e0.nodes[s.ch].length
           + Offset(e0.nodes[s.ch].point, s.goal, s.diagonal), Some(s.ch), None)
  {
    var e := Visits(e0, s, ns, i);
    VisitsFlags(e0, s, ns, i);
    VisitsNodes(e0, s, ns, i);
    var c := e.track.value - |e0.nodes|;
    assert Created(e0, s, ns, i)[c] == s.goal;
  }

  // ---------------------------------------------------------------------
  // The parents the loop sets

  /** Node k's parent after the loop, against the state e0 it started from:
      an old node kept its parent, or is a frontier node other than ch that
      was reparented to ch; a new node has ch as parent. */
  predicate ParentFrom(e0: Expansion, e: Expansion, s: Setting, k: nat)
    requires |e0.nodes| <= |e.nodes| && k < |e.nodes|
  {
    if k < |e0.nodes|
    then e.nodes[k].parent == e0.nodes[k].parent || (e.nodes[k].parent == Some(s.ch) && k in e0.frontier && k != s.ch)
    else e.nodes[k].parent == Some(s.ch)
  }

  ghost predicate GrownParents(e0: Expansion, e: Expansion, s: Setting) {
    |e0.nodes| <= |e.nodes| && forall k :: 0 <= k < |e.nodes| ==> ParentFrom(e0, e, s, k)
  }

  /** A pass sets no parent but ch, and that only on frontier nodes and on
      the node it creates. */
  lemma StepParents(e0: Expansion, e: Expansion, v: Expansion, s: Setting, ns: seq<Point>, i: nat)
    requires Formed(e0, s) && i < |ns| && Around(e0, s, ns) && Formed(e, s)
    requires GrownNodes(e0, e, s, ns, i) && GrownFrontier(e0, e, s, ns, i) && GrownParents(e0, e, s)
    requires StepArena(e0, e, v, s, ns[i])
    ensures GrownParents(e0, v, s)
  {
    var n := ns[i];
    var offset := Offset(e.nodes[s.ch].point, n, s.diagonal);
    var rx := Relaxed(e.nodes, e.frontier, s.ch, n, offset, |e.frontier|);
    assert e.nodes[s.ch].point != n;
    assert e.frontier[..|e.frontier|] == e.frontier;
    forall k | 0 <= k < |v.nodes|
      ensures ParentFrom(e0, v, s, k)
    {
      if k < |e.nodes| {
        assert v.nodes[k].parent == rx.nodes[k].parent;
        assert ParentFrom(e0, e, s, k);
        RelaxedAt(e.nodes, e.frontier, s.ch, n, offset, |e.frontier|, k);
        if Relaxes(e.nodes, e.frontier, s.ch, n, offset, k) && k < |e0.nodes| {
          var j :| 0 <= j < |e.frontier| && e.frontier[j] == k;
          assert j < |e0.frontier| && e0.frontier[j] == k;
        }
      }
    }
  }

  lemma {:induction false} RunParents(e0: Expansion, s: Setting, ns: seq<Point>, es: seq<Expansion>, i: nat)
    requires Formed(e0, s) && Run(e0, s, ns, es) && i <= |ns| && Around(e0, s, ns)
    ensures GrownParents(e0, es[i], s)
    decreases i
  {
    if i == 0 {
      forall k | 0 <= k < |e0.nodes|
        ensures ParentFrom(e0, e0, s, k)
      {
      }
    } else {
      RunParents(e0, s, ns, es, i - 1);
      RunArena(e0, s, ns, es, i - 1);
      RunGrown(e0, s, ns, es, i - 1);
      assert Formed(es[i - 1], s);
      StepParents(e0, es[i - 1], es[i], s, ns, i - 1);
    }
  }

  /** After i passes every old node has kept its parent, or is a frontier
      node other than ch now reparented to ch, and every new node has ch as
      its parent. */
  lemma VisitsParents(e0: Expansion, s: Setting, ns: seq<Point>, i: nat)
    requires Formed(e0, s) && i <= |ns| && Around(e0, s, ns)
    ensures GrownParents(e0, Visits(e0, s, ns, i), s)
  {
    TraceRun(e0, s, ns);
    RunParents(e0, s, ns, Trace(e0, s, ns), i);
  }
}
