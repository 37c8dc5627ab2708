/** find_path on values: one step of the best-first search over the maze's
    search fields, and the invariant of those fields the step keeps. */
module Searches {
  import opened Cells
  import opened Grids
  import opened PathPoints
  import opened Expansions

  /** The maze fields find_path reads and writes: the arena of PathPoint
      nodes, the handles of search_area and worked_points, the grid,
      is_path_found, last_track_point and closest. */
  datatype SearchState = SearchState(nodes: seq<PathNode>, frontier: seq<nat>, worked: seq<nat>, grid: Grid,
                           found: bool, track: Option<nat>, closest: Option<Point>)

  /** What find_path reads and never changes: the start and goal, the
      field's size and the cost of a diagonal step. */
  datatype Field = Field(start: Point, goal: Point, height: nat, width: nat, diagonal: real)

  /** The bounds under which a step is defined. */
  predicate Ready(st: SearchState, f: Field) {
    Below(st.frontier, |st.nodes|) && Below(st.worked, |st.nodes|) && Shaped(st.grid, f.height, f.width)
    && (st.closest.Some? ==> Inside(st.closest.value, f.height, f.width))
    && AllInside(NodePoints(st.nodes), f.height, f.width)
  }

  /** The points of the frontier nodes. */
  function FrontierPoints(st: SearchState): seq<Point>
    requires Below(st.frontier, |st.nodes|)
  {
    PointsAt(NodePoints(st.nodes), st.frontier)
  }

  /** The points of the expanded nodes. */
  function WorkedPoints(st: SearchState): seq<Point>
    requires Below(st.worked, |st.nodes|)
  {
    PointsAt(NodePoints(st.nodes), st.worked)
  }

  /** The invariant of the search fields: the bounds, consistent links, a
      last track point naming a node, exactly one start marker and one goal
      marker where they belong, a node for the start and none for the goal
      among the frontier and the expanded nodes, no point twice in the
      frontier, and no frontier node with a child. */
  ghost predicate Sound(st: SearchState, f: Field) {
    Ready(st, f) && Linked(st.nodes) && (st.track.Some? ==> st.track.value < |st.nodes|)
    && Unique(st.grid, Start, f.start) && Unique(st.grid, Goal, f.goal)
    && f.start in FrontierPoints(st) + WorkedPoints(st) && f.goal !in FrontierPoints(st) + WorkedPoints(st)
    && Distinct(FrontierPoints(st)) && Leaves(st.nodes, st.frontier)
  }

  /** The grid once the old closest cell has lost a current_closest marker. */
  function Unmarked(st: SearchState, f: Field): (g: Grid)
    requires Ready(st, f)
    ensures Shaped(g, f.height, f.width)
  {
    if st.closest.Some? then RemoveIfMarker(st.grid, st.closest.value, CurrentClosest) else st.grid
  }

  /** The point of the frontier node at position sel. */
  function Chosen(st: SearchState, sel: nat): Point
    requires Below(st.frontier, |st.nodes|) && sel < |st.frontier|
  {
    st.nodes[st.frontier[sel]].point
  }

  /** The setting of the loop over the neighbours of the frontier node at
      position sel: that node, the expanded points as the loop starts, the
      goal, the field's size and the diagonal cost. */
  function Selected(st: SearchState, f: Field, sel: nat): (s: Setting)
    requires Ready(st, f) && sel < |st.frontier|
  {
    Setting(st.frontier[sel], WorkedPoints(st), f.goal, f.height, f.width, f.diagonal)
  }

  /** The state the loop over the neighbours starts from: the chosen cell
      has gained a current_closest marker, both flags are false. */
  function Entry(st: SearchState, f: Field, sel: nat): (e: Expansion)
    requires Ready(st, f) && sel < |st.frontier|
    ensures Formed(e, Selected(st, f, sel))
  {
    var chp := Chosen(st, sel);
    var g := Unmarked(st, f);
    Expansion(st.nodes, st.frontier, Put(g, chp, AddMarker(Get(g, chp), CurrentClosest)), st.found, st.track,
              false, false)
  }

  /** The state the loop over the eight neighbours leaves. */
  function Looped(st: SearchState, f: Field, sel: nat): (e: Expansion)
    requires Ready(st, f) && sel < |st.frontier|
    ensures Formed(e, Selected(st, f, sel)) && |e.frontier| >= |st.frontier| && |e.nodes| >= |st.nodes|
  {
    Visits(Entry(st, f, sel), Selected(st, f, sel), Ring(Chosen(st, sel)), |Ring(Chosen(st, sel))|)
  }

  /** The end of find_path, from the state e the loop over the neighbours
      of the chosen node (at chp) left: a `wrong` marker on the chosen cell
      when the loop neither created nor improved a node, and the chosen node
      moved from the frontier to the expanded list. */
  function Closed(st: SearchState, sel: nat, e: Expansion, chp: Point): (r: SearchState)
    requires sel < |st.frontier| && sel < |e.frontier| && InGrid(e.grid, chp)
  {
    var g := if e.successful || e.useful then e.grid else Put(e.grid, chp, AddMarker(Get(e.grid, chp), Wrong));
    SearchState(e.nodes, e.frontier[..sel] + e.frontier[sel + 1..], st.worked + [st.frontier[sel]], g,
                e.found, e.track, Some(chp))
  }

  /** find_path once get_closest has chosen the frontier node at position
      sel: the loop over its neighbours, then the end above. */
  function Expand(st: SearchState, f: Field, sel: nat): (r: SearchState)
    requires Ready(st, f) && sel < |st.frontier|
  {
    assert NodePoints(st.nodes)[st.frontier[sel]] == Chosen(st, sel);
    Closed(st, sel, Looped(st, f, sel), Chosen(st, sel))
  }

  /** find_path: the old closest cell loses its current_closest marker;
      with an empty frontier nothing else happens, otherwise the node
      get_closest chooses is expanded. */
  function Step(st: SearchState, f: Field): SearchState
    requires Ready(st, f)
  {
    var sel := GetClosest(st.nodes, st.frontier, f.goal);
    if sel.None? then st.(grid := Unmarked(st, f)) else Expand(st, f, sel.value)
  }

  // ---------------------------------------------------------------------
  // The invariant a step keeps
  //
  // Each lemma about the loop draws on one fact about Visits, which keeps
  // what the verifier has to consider at a time small.

  lemma RingAround(st: SearchState, f: Field, sel: nat)
    requires Ready(st, f) && sel < |st.frontier|
    ensures Around(Entry(st, f, sel), Selected(st, f, sel), Ring(Chosen(st, sel)))
  {
    RingFacts(Chosen(st, sel));
  }

  /** The loop keeps the old nodes' points. */
  lemma LoopedPoints(st: SearchState, f: Field, sel: nat)
    requires Ready(st, f) && sel < |st.frontier|
    ensures forall k :: 0 <= k < |st.nodes| ==> Looped(st, f, sel).nodes[k].point == st.nodes[k].point
  {
    var e0, s, ns := Entry(st, f, sel), Selected(st, f, sel), Ring(Chosen(st, sel));
    assert Looped(st, f, sel) == Visits(e0, s, ns, |ns|);
    RingAround(st, f, sel);
    VisitsGrown(e0, s, ns, |ns|);
  }

  /** The loop creates nodes only at points inside the field. */
  lemma LoopedInside(st: SearchState, f: Field, sel: nat)
    requires Ready(st, f) && sel < |st.frontier|
    ensures AllInside(NodePoints(Looped(st, f, sel).nodes), f.height, f.width)
  {
    var e0, s, ns := Entry(st, f, sel), Selected(st, f, sel), Ring(Chosen(st, sel));
    var e := Looped(st, f, sel);
    assert e == Visits(e0, s, ns, |ns|);
    assert |e0.nodes| == |st.nodes|;
    RingAround(st, f, sel);
    LoopedPoints(st, f, sel);
    VisitsAdmissible(e0, s, ns, |ns|);
    forall k | 0 <= k < |e.nodes|
      ensures Inside(NodePoints(e.nodes)[k], f.height, f.width)
    {
      if k < |st.nodes| {
        assert NodePoints(st.nodes)[k] == st.nodes[k].point;
      } else {
        assert Admissible(e0, s, e.nodes[k].point);
      }
    }
  }

  /** The loop keeps the links consistent and the last track point naming
      a node. */
  lemma LoopedLinked(st: SearchState, f: Field, sel: nat)
    requires Ready(st, f) && sel < |st.frontier| && Linked(st.nodes) && (st.track.Some? ==> st.track.value < |st.nodes|)
    ensures var e := Looped(st, f, sel); Linked(e.nodes) && (e.track.Some? ==> e.track.value < |e.nodes|)
  {
    var e0, s, ns := Entry(st, f, sel), Selected(st, f, sel), Ring(Chosen(st, sel));
    assert Looped(st, f, sel) == Visits(e0, s, ns, |ns|);
    RingAround(st, f, sel);
    VisitsGrown(e0, s, ns, |ns|);
    VisitsNodes(e0, s, ns, |ns|);
    VisitsFlags(e0, s, ns, |ns|);
  }

  /** The frontier's points after the loop: the old ones followed by the
      neighbours that got a node and are not the goal. */
  lemma LoopedFrontier(st: SearchState, f: Field, sel: nat)
    requires Ready(st, f) && sel < |st.frontier|
    ensures var e0, s, ns := Entry(st, f, sel), Selected(st, f, sel), Ring(Chosen(st, sel));
      FrontierPts(Looped(st, f, sel)) == FrontierPoints(st) + Added(e0, s, ns, |ns|)
  {
    var e0, s, ns := Entry(st, f, sel), Selected(st, f, sel), Ring(Chosen(st, sel));
    var e := Looped(st, f, sel);
    assert e == Visits(e0, s, ns, |ns|);
    assert FrontierPts(e0) == FrontierPoints(st);
    RingAround(st, f, sel);
    VisitsGrown(e0, s, ns, |ns|);
    GrownFrontierPts(e0, e, s, ns, |ns|);
  }

  /** The loop puts no point twice in the frontier. */
  lemma LoopedDistinct(st: SearchState, f: Field, sel: nat)
    requires Ready(st, f) && sel < |st.frontier| && Distinct(FrontierPoints(st))
    ensures Distinct(FrontierPts(Looped(st, f, sel)))
  {
    var e0, s, ns := Entry(st, f, sel), Selected(st, f, sel), Ring(Chosen(st, sel));
    assert Looped(st, f, sel) == Visits(e0, s, ns, |ns|);
    assert FrontierPts(e0) == FrontierPoints(st);
    RingAround(st, f, sel);
    VisitsDistinct(e0, s, ns, |ns|);
  }

  /** The loop gives a child to no frontier node but those at the chosen
      point. */
  lemma LoopedLeaves(st: SearchState, f: Field, sel: nat)
    requires Ready(st, f) && sel < |st.frontier| && Leaves(st.nodes, st.frontier)
    ensures var e := Looped(st, f, sel); LeavesBut(e.nodes, e.frontier, Chosen(st, sel))
  {
    var e0, s, ns := Entry(st, f, sel), Selected(st, f, sel), Ring(Chosen(st, sel));
    assert Looped(st, f, sel) == Visits(e0, s, ns, |ns|);
    RingAround(st, f, sel);
    VisitsLeaves(e0, s, ns, |ns|);
  }

  /** The loop adds no frontier node at the goal. */
  lemma LoopedNoGoal(st: SearchState, f: Field, sel: nat)
    requires Ready(st, f) && sel < |st.frontier| && f.goal !in FrontierPoints(st)
    ensures f.goal !in FrontierPts(Looped(st, f, sel))
  {
    var e0, s, ns := Entry(st, f, sel), Selected(st, f, sel), Ring(Chosen(st, sel));
    LoopedFrontier(st, f, sel);
    CreatedMembers(e0, s, ns, |ns|);
  }

  /** The chosen node keeps its place in the frontier during the loop. */
  lemma ExpandChosen(st: SearchState, f: Field, sel: nat)
    requires Ready(st, f) && sel < |st.frontier|
    ensures var pts := FrontierPts(Looped(st, f, sel)); sel < |pts| && pts[sel] == Chosen(st, sel)
  {
    LoopedFrontier(st, f, sel);
    assert FrontierPoints(st)[sel] == Chosen(st, sel);
  }

  /** An expansion removes the chosen node from the frontier. */
  lemma ExpandFrontier(st: SearchState, f: Field, sel: nat)
    requires Ready(st, f) && sel < |st.frontier|
    ensures var e, r := Looped(st, f, sel), Expand(st, f, sel);
      Below(r.frontier, |r.nodes|) && FrontierPoints(r) == FrontierPts(e)[..sel] + FrontierPts(e)[sel + 1..]
  {
    var e := Looped(st, f, sel);
    PointsAtRemove(NodePoints(e.nodes), e.frontier, sel);
  }

  /** An expansion appends the chosen node to the expanded list. */
  lemma ExpandWorked(st: SearchState, f: Field, sel: nat)
    requires Ready(st, f) && sel < |st.frontier|
    ensures var r := Expand(st, f, sel);
      Below(r.worked, |r.nodes|) && WorkedPoints(r) == WorkedPoints(st) + [Chosen(st, sel)]
  {
    var e := Looped(st, f, sel);
    LoopedPoints(st, f, sel);
    PointsAtConcat(NodePoints(e.nodes), st.worked, [st.frontier[sel]]);
    assert PointsAt(NodePoints(e.nodes), st.worked) == WorkedPoints(st);
  }

  /** After an expansion no frontier node has a child. */
  lemma ExpandLeaves(st: SearchState, f: Field, sel: nat)
    requires Ready(st, f) && sel < |st.frontier| && Distinct(FrontierPoints(st)) && Leaves(st.nodes, st.frontier)
    ensures var r := Expand(st, f, sel); Leaves(r.nodes, r.frontier)
  {
    var e, r := Looped(st, f, sel), Expand(st, f, sel);
    var pts := FrontierPts(e);
    LoopedLeaves(st, f, sel);
    LoopedDistinct(st, f, sel);
    ExpandChosen(st, f, sel);
    forall i | 0 <= i < |r.frontier| && r.frontier[i] < |r.nodes|
      ensures r.nodes[r.frontier[i]].child.None?
    {
      var j := if i < sel then i else i + 1;
      assert r.frontier[i] == e.frontier[j] && pts[j] != pts[sel];
    }
  }

  /** After an expansion the bounds hold, the links are consistent and the
      last track point names a node. */
  lemma ExpandReady(st: SearchState, f: Field, sel: nat)
    requires Ready(st, f) && sel < |st.frontier| && Linked(st.nodes) && (st.track.Some? ==> st.track.value < |st.nodes|)
    ensures var r := Expand(st, f, sel);
      Ready(r, f) && Linked(r.nodes) && (r.track.Some? ==> r.track.value < |r.nodes|)
  {
    LoopedInside(st, f, sel);
    LoopedLinked(st, f, sel);
    ExpandFrontier(st, f, sel);
    ExpandWorked(st, f, sel);
  }

  /** An expansion moves no start, goal or wall marker. */
  lemma ExpandKeeps(st: SearchState, f: Field, sel: nat)
    requires Ready(st, f) && sel < |st.frontier|
    ensures Keeps(st.grid, Expand(st, f, sel).grid)
  {
    var e0, s, ns := Entry(st, f, sel), Selected(st, f, sel), Ring(Chosen(st, sel));
    var e := Looped(st, f, sel);
    var chp, g := Chosen(st, sel), Unmarked(st, f);
    assert NodePoints(st.nodes)[st.frontier[sel]] == chp;
    if st.closest.Some? {
      RemoveKeeps(st.grid, st.closest.value, CurrentClosest);
    }
    AddMarkerKeeps(g, chp, CurrentClosest);
    KeepsTrans(st.grid, g, e0.grid);
    assert e == Visits(e0, s, ns, |ns|);
    RingAround(st, f, sel);
    VisitsKeeps(e0, s, ns, |ns|);
    KeepsTrans(st.grid, e0.grid, e.grid);
    if !(e.successful || e.useful) {
      AddMarkerKeeps(e.grid, chp, Wrong);
      KeepsTrans(st.grid, e.grid, Expand(st, f, sel).grid);
    }
  }

  /** After an expansion the frontier holds no point twice. */
  lemma ExpandDistinct(st: SearchState, f: Field, sel: nat)
    requires Ready(st, f) && sel < |st.frontier| && Distinct(FrontierPoints(st))
    ensures var r := Expand(st, f, sel); Below(r.frontier, |r.nodes|) && Distinct(FrontierPoints(r))
  {
    ExpandFrontier(st, f, sel);
    LoopedDistinct(st, f, sel);
    DistinctRemove(FrontierPts(Looped(st, f, sel)), sel);
  }

  /** After an expansion the frontier's points are the old ones and the
      new neighbours, less the chosen one. */
  lemma ExpandMembers(st: SearchState, f: Field, sel: nat)
    requires Ready(st, f) && sel < |st.frontier| && Distinct(FrontierPoints(st))
    ensures var r := Expand(st, f, sel);
      var e0, s, ns := Entry(st, f, sel), Selected(st, f, sel), Ring(Chosen(st, sel));
      Below(r.frontier, |r.nodes|)
      && forall x :: x in FrontierPoints(r) <==>
           (x in FrontierPoints(st) || x in Added(e0, s, ns, |ns|)) && x != Chosen(st, sel)
  {
    var e0, s, ns := Entry(st, f, sel), Selected(st, f, sel), Ring(Chosen(st, sel));
    ExpandFrontier(st, f, sel);
    LoopedFrontier(st, f, sel);
    LoopedDistinct(st, f, sel);
    assert FrontierPoints(st)[sel] == Chosen(st, sel);
    ConcatRemove(FrontierPoints(st), Added(e0, s, ns, |ns|), sel);
  }

  /** After an expansion the start still has a node among the frontier
      and the expanded nodes, and the goal still has none. */
  lemma ExpandEnds(st: SearchState, f: Field, sel: nat)
    requires Sound(st, f) && sel < |st.frontier|
    ensures var r := Expand(st, f, sel);
      Below(r.frontier, |r.nodes|) && Below(r.worked, |r.nodes|)
      && f.start in FrontierPoints(r) + WorkedPoints(r) && f.goal !in FrontierPoints(r) + WorkedPoints(r)
  {
    var r, chp := Expand(st, f, sel), Chosen(st, sel);
    var e0, s, ns := Entry(st, f, sel), Selected(st, f, sel), Ring(Chosen(st, sel));
    ExpandMembers(st, f, sel);
    ExpandWorked(st, f, sel);
    CreatedMembers(e0, s, ns, |ns|);
    assert chp == FrontierPoints(st)[sel];
    if f.start in WorkedPoints(st) || f.start == chp {
      assert f.start in WorkedPoints(r);
    } else {
      assert f.start in FrontierPoints(r);
    }
  }

  /** An expansion keeps the invariant. */
  lemma ExpandSound(st: SearchState, f: Field, sel: nat)
    requires Sound(st, f) && sel < |st.frontier|
    ensures Sound(Expand(st, f, sel), f)
  {
    var r := Expand(st, f, sel);
    ExpandReady(st, f, sel);
    ExpandKeeps(st, f, sel);
    KeepsUnique(st.grid, r.grid, Start, f.start);
    KeepsUnique(st.grid, r.grid, Goal, f.goal);
    ExpandEnds(st, f, sel);
    ExpandDistinct(st, f, sel);
    ExpandLeaves(st, f, sel);
  }

  /** find_path keeps the invariant. */
  lemma StepSound(st: SearchState, f: Field)
    requires Sound(st, f)
    ensures Sound(Step(st, f), f)
  {
    var sel := GetClosest(st.nodes, st.frontier, f.goal);
    if sel.Some? {
      ExpandSound(st, f, sel.value);
    } else if st.closest.Some? {
      RemoveKeeps(st.grid, st.closest.value, CurrentClosest);
      KeepsUnique(st.grid, Unmarked(st, f), Start, f.start);
      KeepsUnique(st.grid, Unmarked(st, f), Goal, f.goal);
    }
  }

  /** A step either leaves is_path_found and last_track_point alone, or
      finds the path: the last track point is then a node at the goal. */
  lemma StepTrack(st: SearchState, f: Field)
    requires Ready(st, f)
    ensures var r := Step(st, f);
      (r.found == st.found && r.track == st.track)
      || (r.found && r.track.Some? && r.track.value < |r.nodes| && r.nodes[r.track.value].point == f.goal)
  {
    var sel := GetClosest(st.nodes, st.frontier, f.goal);
    if sel.Some? {
      var e0, s, ns := Entry(st, f, sel.value), Selected(st, f, sel.value), Ring(Chosen(st, sel.value));
      assert Looped(st, f, sel.value) == Visits(e0, s, ns, |ns|);
      RingAround(st, f, sel.value);
      VisitsFlags(e0, s, ns, |ns|);
      if f.goal in Created(e0, s, ns, |ns|) {
        VisitsTrack(e0, s, ns, |ns|);
      }
    }
  }

  // ---------------------------------------------------------------------
  // The order of expansion
  //
  // The parent links of the expanded nodes only ever point back along the
  // closed list, which is what keeps backtrack_path from visiting a point
  // twice.

  /** p names no node, or one of the first k handles of hs. */
  predicate Earlier(p: Option<nat>, hs: seq<nat>, k: nat)
    requires k <= |hs|
  {
    p.None? || p.value in hs[..k]
  }

  /** The order the search keeps: no point is expanded twice, the parent of
      each expanded node was expanded before it, the parent of each frontier
      node was expanded, and no frontier point has been expanded. */
  ghost predicate Ranked(nodes: seq<PathNode>, frontier: seq<nat>, worked: seq<nat>) {
    Below(frontier, |nodes|) && Below(worked, |nodes|)
    && Distinct(PointsAt(NodePoints(nodes), worked))
    && (forall k :: 0 <= k < |worked| ==> Earlier(nodes[worked[k]].parent, worked, k))
    && (forall i :: 0 <= i < |frontier| ==> Earlier(nodes[frontier[i]].parent, worked, |worked|))
    && (forall x :: x in PointsAt(NodePoints(nodes), frontier) ==> x !in PointsAt(NodePoints(nodes), worked))
  }

  /** The loop sets parents to the chosen node alone; it keeps the old
      frontier's handles and puts only new nodes after them. */
  lemma LoopedParents(st: SearchState, f: Field, sel: nat)
    requires Ready(st, f) && sel < |st.frontier|
    ensures var e, s := Looped(st, f, sel), Selected(st, f, sel);
      |st.nodes| <= |e.nodes| && |st.frontier| <= |e.frontier|
      && (forall k :: 0 <= k < |e.nodes| ==> ParentFrom(Entry(st, f, sel), e, s, k))
      && (forall j :: 0 <= j < |e.frontier| ==>
            if j < |st.frontier| then e.frontier[j] == st.frontier[j] else |st.nodes| <= e.frontier[j])
  {
    var e0, s, ns := Entry(st, f, sel), Selected(st, f, sel), Ring(Chosen(st, sel));
    assert Looped(st, f, sel) == Visits(e0, s, ns, |ns|);
    RingAround(st, f, sel);
    VisitsGrown(e0, s, ns, |ns|);
    VisitsParents(e0, s, ns, |ns|);
  }

  /** A node of the arena the loop left that lies in the frontier after an
      expansion: an old frontier node other than the chosen one, or a new
      node. */
  lemma ExpandFrontierHandle(st: SearchState, f: Field, sel: nat, i: nat)
    requires Ready(st, f) && sel < |st.frontier| && i < |Expand(st, f, sel).frontier|
    ensures var e, h := Looped(st, f, sel), Expand(st, f, sel).frontier[i];
      h < |e.nodes| && ParentFrom(Entry(st, f, sel), e, Selected(st, f, sel), h)
      && (h < |st.nodes| ==> h in st.frontier)
  {
    var e := Looped(st, f, sel);
    LoopedParents(st, f, sel);
    var j := if i < sel then i else i + 1;
    assert Expand(st, f, sel).frontier[i] == e.frontier[j];
  }

  /** The loop leaves the parent alone of a node outside the frontier, and
      of the chosen node. */
  lemma LoopedKeepsParent(st: SearchState, f: Field, sel: nat, h: nat)
    requires Ready(st, f) && sel < |st.frontier| && h < |st.nodes|
    requires h !in st.frontier || h == st.frontier[sel]
    ensures var e := Looped(st, f, sel); h < |e.nodes| && e.nodes[h].parent == st.nodes[h].parent
  {
    LoopedParents(st, f, sel);
    assert ParentFrom(Entry(st, f, sel), Looped(st, f, sel), Selected(st, f, sel), h);
  }

  /** No expanded node is in the frontier. */
  lemma WorkedOutside(st: SearchState, k: nat)
    requires Ranked(st.nodes, st.frontier, st.worked) && k < |st.worked|
    ensures st.worked[k] !in st.frontier
  {
    var h := st.worked[k];
    assert WorkedPoints(st)[k] == st.nodes[h].point && st.nodes[h].point in WorkedPoints(st);
    forall j | 0 <= j < |st.frontier|
      ensures st.frontier[j] != h
    {
      assert FrontierPoints(st)[j] == st.nodes[st.frontier[j]].point && FrontierPoints(st)[j] in FrontierPoints(st);
    }
  }

  /** An expansion keeps the expanded points distinct and each expanded
      node's parent before it. */
  lemma ExpandRankedWorked(st: SearchState, f: Field, sel: nat)
    requires Sound(st, f) && Ranked(st.nodes, st.frontier, st.worked) && sel < |st.frontier|
    ensures var r := Expand(st, f, sel);
      Below(r.worked, |r.nodes|) && Distinct(WorkedPoints(r))
      && forall k :: 0 <= k < |r.worked| ==> Earlier(r.nodes[r.worked[k]].parent, r.worked, k)
  {
    var r := Expand(st, f, sel);
    var ch, chp := st.frontier[sel], Chosen(st, sel);
    ExpandWorked(st, f, sel);
    assert chp == FrontierPoints(st)[sel];
    DistinctConcat(WorkedPoints(st), [chp]);
    assert r.worked == st.worked + [ch];
    forall k | 0 <= k < |r.worked|
      ensures Earlier(r.nodes[r.worked[k]].parent, r.worked, k)
    {
      assert r.worked[..k] == st.worked[..k];
      if k < |st.worked| {
        WorkedOutside(st, k);
        LoopedKeepsParent(st, f, sel, st.worked[k]);
      } else {
        LoopedKeepsParent(st, f, sel, ch);
        assert st.worked[..|st.worked|] == st.worked;
      }
    }
  }

  /** After an expansion every frontier node's parent has been expanded. */
  lemma ExpandRankedFrontier(st: SearchState, f: Field, sel: nat)
    requires Sound(st, f) && Ranked(st.nodes, st.frontier, st.worked) && sel < |st.frontier|
    ensures var r := Expand(st, f, sel);
      Below(r.frontier, |r.nodes|) && Below(r.worked, |r.nodes|)
      && forall i :: 0 <= i < |r.frontier| ==> Earlier(r.nodes[r.frontier[i]].parent, r.worked, |r.worked|)
  {
    var e0, e, s, r := Entry(st, f, sel), Looped(st, f, sel), Selected(st, f, sel), Expand(st, f, sel);
    ExpandFrontier(st, f, sel);
    ExpandWorked(st, f, sel);
    assert r.worked == st.worked + [st.frontier[sel]] && r.nodes == e.nodes;
    assert r.worked[..|r.worked|] == r.worked && st.worked[..|st.worked|] == st.worked;
    forall i | 0 <= i < |r.frontier|
      ensures Earlier(r.nodes[r.frontier[i]].parent, r.worked, |r.worked|)
    {
      var h := r.frontier[i];
      ExpandFrontierHandle(st, f, sel, i);
      if h < |st.nodes| && e.nodes[h].parent == st.nodes[h].parent {
        var j :| 0 <= j < |st.frontier| && st.frontier[j] == h;
        assert Earlier(st.nodes[st.frontier[j]].parent, st.worked, |st.worked|);
      }
    }
  }

  /** After an expansion no frontier point has been expanded. */
  lemma ExpandRankedApart(st: SearchState, f: Field, sel: nat)
    requires Sound(st, f) && Ranked(st.nodes, st.frontier, st.worked) && sel < |st.frontier|
    ensures var r := Expand(st, f, sel);
      Below(r.frontier, |r.nodes|) && Below(r.worked, |r.nodes|)
      && forall x :: x in FrontierPoints(r) ==> x !in WorkedPoints(r)
  {
    var e0, s, ns := Entry(st, f, sel), Selected(st, f, sel), Ring(Chosen(st, sel));
    ExpandMembers(st, f, sel);
    ExpandWorked(st, f, sel);
    CreatedMembers(e0, s, ns, |ns|);
  }

  /** find_path keeps the order of expansion. */
  lemma StepRanked(st: SearchState, f: Field)
    requires Sound(st, f) && Ranked(st.nodes, st.frontier, st.worked)
    ensures var r := Step(st, f); Ranked(r.nodes, r.frontier, r.worked)
  {
    var sel := GetClosest(st.nodes, st.frontier, f.goal);
    if sel.Some? {
      ExpandRankedWorked(st, f, sel.value);
      ExpandRankedFrontier(st, f, sel.value);
      ExpandRankedApart(st, f, sel.value);
    } else {
      assert FrontierPoints(Step(st, f)) == FrontierPoints(st) && WorkedPoints(Step(st, f)) == WorkedPoints(st);
    }
  }

  /** The step that finds the path leaves as last track point a node at the
      goal whose parent has been expanded. */
  lemma StepFinds(st: SearchState, f: Field)
    requires Ready(st, f) && !st.found
    ensures var r := Step(st, f);
      r.found ==> r.track.Some? && r.track.value < |r.nodes| && r.nodes[r.track.value].point == f.goal
                  && Below(r.worked, |r.nodes|) && Earlier(r.nodes[r.track.value].parent, r.worked, |r.worked|)
  {
    var sel := GetClosest(st.nodes, st.frontier, f.goal);
    if sel.Some? {
      var e0, s, ns := Entry(st, f, sel.value), Selected(st, f, sel.value), Ring(Chosen(st, sel.value));
      var r := Step(st, f);
      assert Looped(st, f, sel.value) == Visits(e0, s, ns, |ns|);
      RingAround(st, f, sel.value);
      VisitsFlags(e0, s, ns, |ns|);
      ExpandWorked(st, f, sel.value);
      if f.goal in Created(e0, s, ns, |ns|) {
        VisitsTrack(e0, s, ns, |ns|);
        assert r.worked == st.worked + [s.ch] && r.worked[..|r.worked|] == r.worked;
      }
    }
  }
}
