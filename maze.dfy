/** The Maze of test.py: a grid of cells with frame walls and Eller walls,
    a start and a goal, and an incremental best-first search whose frontier
    (`searchArea`) and closed list (`workedPoints`) are lists of PathPoint
    handles into an arena. */
module Mazes {
  import opened Cells
  import opened Grids
  import opened PathPoints
  import opened Expansions
  import opened Searches
  import opened Gradients
  import Eller

  /** Lines 109-112 of the constructor: an even dimension is raised by one. */
  function ForcedOdd(n: nat): (r: nat)
    ensures r % 2 == 1
    ensures n % 2 == 1 ==> r == n
    ensures n % 2 == 0 ==> r == n + 1
  {
    if n % 2 == 0 then n + 1 else n
  }

  /** A border matrix of generate_labyrinth: h rows of w booleans. */
  predicate Sized(m: seq<seq<bool>>, h: nat, w: nat) {
    |m| == h && forall r :: 0 <= r < h ==> |m[r]| == w
  }

  /** Whether generate_walls makes cell q a wall: the first row and the first
      column always, a cell in an even column when the right border of the
      labyrinth cell to its upper left is set, a cell in an even row when that
      cell's down border is set. */
  predicate WallAt(q: Point, right: seq<seq<bool>>, down: seq<seq<bool>>, h: nat, w: nat)
    requires Sized(right, h, w) && Sized(down, h, w)
    requires 0 <= q.row <= 2 * h && 0 <= q.col <= 2 * w
  {
    q.row == 0 || q.col == 0 ||
    (q.col % 2 == 0 && right[(q.row - 1) / 2][(q.col - 1) / 2]) ||
    (q.row % 2 == 0 && down[(q.row - 1) / 2][(q.col - 1) / 2])
  }

  /** A freshly walled field carries no start and no goal marker. */
  lemma WalledFieldUnmarked(g: Grid, right: seq<seq<bool>>, down: seq<seq<bool>>, h: nat, w: nat)
    requires WalledUpTo(g, 2 * h + 1, 0, right, down, h, w)
    ensures Absent(g, Start) && Absent(g, Goal)
  {
    forall q | InGrid(g, q)
      ensures Count(g, q, Start) == 0 && Count(g, q, Goal) == 0
    {
      assert Before(q, 2 * h + 1, 0);
      var m := if WallAt(q, right, down, h, w) then Wall else Empty;
      assert Get(g, q).markers == [m];
      OccurrencesOne(m, Start);
      OccurrencesOne(m, Goal);
    }
  }

  /** The field generate_walls writes for the labyrinth right, down of h by
      w cells: WallCell at every position. */
  ghost function WallGrid(right: seq<seq<bool>>, down: seq<seq<bool>>, h: nat, w: nat): (g: Grid)
    requires Sized(right, h, w) && Sized(down, h, w)
    ensures Shaped(g, 2 * h + 1, 2 * w + 1)
  {
    seq(2 * h + 1, r requires 0 <= r < 2 * h + 1 =>
      seq(2 * w + 1, c requires 0 <= c < 2 * w + 1 => WallCell(Point(r, c), right, down, h, w)))
  }

  /** A field the generate_walls loops have finished is WallGrid. */
  lemma WalledIsWallGrid(g: Grid, right: seq<seq<bool>>, down: seq<seq<bool>>, h: nat, w: nat)
    requires WalledUpTo(g, 2 * h + 1, 0, right, down, h, w)
    ensures g == WallGrid(right, down, h, w)
  {
    var m := WallGrid(right, down, h, w);
    forall r | 0 <= r < |g|
      ensures g[r] == m[r]
    {
      forall c | 0 <= c < |g[r]|
        ensures g[r][c] == m[r][c]
      {
        assert Before(Point(r, c), 2 * h + 1, 0) && Get(g, Point(r, c)) == g[r][c];
      }
    }
  }

  /** What the walls of WallGrid mean, for a labyrinth closed on the right of
      its last column and below its last row. */
  lemma WallGridMeaning(right: seq<seq<bool>>, down: seq<seq<bool>>, h: nat, w: nat)
    requires Sized(right, h, w) && Sized(down, h, w)
    requires w > 0 ==> forall r :: 0 <= r < h ==> right[r][w - 1]
    requires h > 0 ==> down[h - 1] == seq(w, _ => true)
    ensures WallsMeaning(WallGrid(right, down, h, w), right, down, h, w)
  {
    var m := WallGrid(right, down, h, w);
    forall q | InGrid(m, q)
      ensures Get(m, q) == if Before(q, 2 * h + 1, 0) then WallCell(q, right, down, h, w) else Cell([Empty], None)
    {
      assert Before(q, 2 * h + 1, 0);
    }
    WallsHaveMeaning(m, right, down, h, w);
  }

  /** Appending the start marker at s and the goal marker at t (s != t) to a
      grid with neither makes each unique. */
  lemma PlacedUnique(g: Grid, s: Point, t: Point)
    requires Absent(g, Start) && Absent(g, Goal) && InGrid(g, s) && InGrid(g, t) && s != t
    ensures var g1 := Put(g, s, AddMarker(Get(g, s), Start));
      var g2 := Put(g1, t, AddMarker(Get(g1, t), Goal));
      Unique(g2, Start, s) && Unique(g2, Goal, t)
  {
    var g1 := Put(g, s, AddMarker(Get(g, s), Start));
    var g2 := Put(g1, t, AddMarker(Get(g1, t), Goal));
    forall q | InGrid(g2, q)
      ensures Count(g2, q, Start) == (if q == s then 1 else 0)
      ensures Count(g2, q, Goal) == (if q == t then 1 else 0)
    {
      assert Count(g, q, Start) == 0 && Count(g, q, Goal) == 0;
      if q == t {
        assert Get(g2, q).markers == Get(g, q).markers + [Goal];
        OccurrencesSnoc(Get(g, q).markers, Goal, Start);
        OccurrencesSnoc(Get(g, q).markers, Goal, Goal);
      } else if q == s {
        assert Get(g2, q).markers == Get(g, q).markers + [Start];
        OccurrencesSnoc(Get(g, q).markers, Start, Start);
        OccurrencesSnoc(Get(g, q).markers, Start, Goal);
      } else {
        assert Get(g2, q) == Get(g, q);
      }
    }
  }

  /** The candidate positions set_path_coords tries in turn: first the middle
      of the left and right columns, then the random draws. */
  function Candidate(draws: seq<(Point, Point)>, k: nat, height: nat, width: nat): (Point, Point)
    requires k <= |draws|
  {
    if k == 0 then (Point(height / 2, 0), Point(height / 2, width - 1)) else draws[k - 1]
  }

  /** set_path_coords accepts two distinct cells that are not walls. */
  predicate Acceptable(g: Grid, s: Point, t: Point) {
    InGrid(g, s) && InGrid(g, t) && Wall !in Get(g, s).markers && Wall !in Get(g, t).markers && s != t
  }

  /** Row-major order of the generate_walls loops: q is visited before (row, col). */
  predicate Before(q: Point, row: int, col: int) {
    q.row < row || (q.row == row && q.col < col)
  }

  /** What generate_walls leaves in cell q. */
  ghost function WallCell(q: Point, right: seq<seq<bool>>, down: seq<seq<bool>>, h: nat, w: nat): Cell
    requires Sized(right, h, w) && Sized(down, h, w)
    requires 0 <= q.row <= 2 * h && 0 <= q.col <= 2 * w
  {
    Cell(if WallAt(q, right, down, h, w) then [Wall] else [Empty], None)
  }

  /** The generate_walls loops have done every cell before (row, col); the
      others still hold a fresh `[empty]`. */
  ghost predicate WalledUpTo(g: Grid, row: int, col: int, right: seq<seq<bool>>, down: seq<seq<bool>>, h: nat, w: nat) {
    Sized(right, h, w) && Sized(down, h, w) && Shaped(g, 2 * h + 1, 2 * w + 1) &&
    forall q :: InGrid(g, q) ==>
      Get(g, q) == if Before(q, row, col) then WallCell(q, right, down, h, w) else Cell([Empty], None)
  }

  lemma WallStep(g: Grid, row: nat, col: nat, right: seq<seq<bool>>, down: seq<seq<bool>>, h: nat, w: nat)
    requires WalledUpTo(g, row, col, right, down, h, w) && row <= 2 * h && col <= 2 * w
    ensures var p := Point(row, col);
      WalledUpTo(if WallAt(p, right, down, h, w) then Put(g, p, Get(g, p).(markers := [Wall])) else g,
                 row, col + 1, right, down, h, w)
  {
  }

  lemma WallRow(g: Grid, row: nat, right: seq<seq<bool>>, down: seq<seq<bool>>, h: nat, w: nat)
    requires WalledUpTo(g, row, 2 * w + 1, right, down, h, w)
    ensures WalledUpTo(g, row + 1, 0, right, down, h, w)
  {
  }

  /** What the walls mean for the grid: the outer frame is wall, the
      labyrinth's own cells (odd row, odd column) are open, and a cell between
      two labyrinth cells is a wall exactly when the border between them is. */
  ghost predicate WallsMeaning(g: Grid, right: seq<seq<bool>>, down: seq<seq<bool>>, h: nat, w: nat)
    requires Sized(right, h, w) && Sized(down, h, w) && Shaped(g, 2 * h + 1, 2 * w + 1)
  {
    (forall q :: InGrid(g, q) && (q.row == 0 || q.col == 0 || q.row == 2 * h || q.col == 2 * w) ==>
       Get(g, q).markers == [Wall]) &&
    (forall q :: InGrid(g, q) && q.row % 2 == 1 && q.col % 2 == 1 ==> Get(g, q).markers == [Empty]) &&
    (forall q :: InGrid(g, q) && q.row % 2 == 1 && q.col % 2 == 0 && 0 < q.col < 2 * w ==>
       (Get(g, q).markers == [Wall] <==> right[q.row / 2][q.col / 2 - 1])) &&
    (forall q :: InGrid(g, q) && q.row % 2 == 0 && q.col % 2 == 1 && 0 < q.row < 2 * h ==>
       (Get(g, q).markers == [Wall] <==> down[q.row / 2 - 1][q.col / 2]))
  }

  lemma WallsHaveMeaning(g: Grid, right: seq<seq<bool>>, down: seq<seq<bool>>, h: nat, w: nat)
    requires WalledUpTo(g, 2 * h + 1, 0, right, down, h, w)
    requires w > 0 ==> forall r :: 0 <= r < h ==> right[r][w - 1]
    requires h > 0 ==> down[h - 1] == seq(w, _ => true)
    ensures WallsMeaning(g, right, down, h, w)
  {
    forall q | InGrid(g, q) && (q.row == 0 || q.col == 0 || q.row == 2 * h || q.col == 2 * w)
      ensures Get(g, q).markers == [Wall]
    {
      assert Before(q, 2 * h + 1, 0);
      if q.row > 0 && q.col > 0 {
        if q.row == 2 * h {
          assert down[h - 1][(q.col - 1) / 2];
        } else {
          assert right[(q.row - 1) / 2][w - 1];
        }
      }
    }
    forall q | InGrid(g, q) && q.row % 2 == 1 && q.col % 2 == 1
      ensures Get(g, q).markers == [Empty]
    {
      assert Before(q, 2 * h + 1, 0);
    }
    forall q | InGrid(g, q) && q.row % 2 == 1 && q.col % 2 == 0 && 0 < q.col < 2 * w
      ensures Get(g, q).markers == [Wall] <==> right[q.row / 2][q.col / 2 - 1]
    {
      assert Before(q, 2 * h + 1, 0);
      assert (q.row - 1) / 2 == q.row / 2 && (q.col - 1) / 2 == q.col / 2 - 1;
    }
    forall q | InGrid(g, q) && q.row % 2 == 0 && q.col % 2 == 1 && 0 < q.row < 2 * h
      ensures Get(g, q).markers == [Wall] <==> down[q.row / 2 - 1][q.col / 2]
    {
      assert Before(q, 2 * h + 1, 0);
      assert (q.row - 1) / 2 == q.row / 2 - 1 && (q.col - 1) / 2 == q.col / 2;
    }
  }

  /** restate_solution's three remove_if_marker calls: `custom` off the start
      cell s, then `custom` and `confirmed` off the goal cell t. */
  function Stripped(g: Grid, s: Point, t: Point): Grid
    requires InGrid(g, s) && InGrid(g, t)
  {
    RemoveIfMarker(RemoveIfMarker(RemoveIfMarker(g, s, Custom), t, Custom), t, Confirmed)
  }

  lemma StrippedKeeps(g: Grid, s: Point, t: Point)
    requires InGrid(g, s) && InGrid(g, t)
    ensures Keeps(g, Stripped(g, s, t))
  {
    var g1 := RemoveIfMarker(g, s, Custom);
    var g2 := RemoveIfMarker(g1, t, Custom);
    RemoveKeeps(g, s, Custom);
    RemoveKeeps(g1, t, Custom);
    KeepsTrans(g, g1, g2);
    RemoveKeeps(g2, t, Confirmed);
    KeepsTrans(g, g2, RemoveIfMarker(g2, t, Confirmed));
  }

  /** Stripping markers keeps every cell's colour. */
  lemma StrippedColours(g: Grid, s: Point, t: Point)
    requires InGrid(g, s) && InGrid(g, t)
    ensures SameShape(g, Stripped(g, s, t))
    ensures forall q :: InGrid(g, q) ==> Get(Stripped(g, s, t), q).color == Get(g, q).color
  {
    var g1 := RemoveIfMarker(g, s, Custom);
    var g2 := RemoveIfMarker(g1, t, Custom);
    RemoveColours(g, s, Custom);
    RemoveColours(g1, t, Custom);
    RemoveColours(g2, t, Confirmed);
  }

  /** One remove_if_marker keeps every cell's colour. */
  lemma RemoveColours(g: Grid, p: Point, m: Marker)
    requires InGrid(g, p)
    ensures forall q :: InGrid(g, q) ==> InGrid(RemoveIfMarker(g, p, m), q)
    ensures forall q :: InGrid(g, q) ==> Get(RemoveIfMarker(g, p, m), q).color == Get(g, q).color
  {
    var r := RemoveIfMarker(g, p, m);
    forall q | InGrid(g, q)
      ensures InGrid(r, q) && Get(r, q).color == Get(g, q).color
    {
      if q != p {
        assert Get(r, q) == Get(g, q);
      }
    }
  }

  /** move_start's grid: restate_solution's edits for the new start p, then
      p becomes `[empty, start]`. */
  function StartMoved(g: Grid, p: Point, t: Point, ps: seq<Point>): Grid
    requires InGrid(g, p) && InGrid(g, t)
  {
    var g1 := Cleared(Stripped(g, p, t), ps, p);
    Put(g1, p, Get(g1, p).(markers := [Empty, Start]))
  }

  /** move_start keeps one start marker, now on p, and the goal marker where
      it was: the old start s0 is cleared because it has a node, and the goal
      t is spared because it has none. */
  lemma StartMovedUnique(g: Grid, s0: Point, p: Point, t: Point, ps: seq<Point>)
    requires Unique(g, Start, s0) && Unique(g, Goal, t) && s0 in ps && t !in ps
    requires InGrid(g, p) && p != s0 && p != t
    ensures Unique(StartMoved(g, p, t, ps), Start, p) && Unique(StartMoved(g, p, t, ps), Goal, t)
  {
    var g1 := Stripped(g, p, t);
    StrippedKeeps(g, p, t);
    KeepsUnique(g, g1, Start, s0);
    KeepsUnique(g, g1, Goal, t);
    var g2 := Cleared(g1, ps, p);
    var g3 := Put(g2, p, Get(g2, p).(markers := [Empty, Start]));
    forall q | InGrid(g3, q)
      ensures Count(g3, q, Start) == (if q == p then 1 else 0)
      ensures Count(g3, q, Goal) == (if q == t then 1 else 0)
    {
      assert InGrid(g1, q);
      if q == p {
        assert Get(g3, q).markers == [Empty, Start];
      } else if q in ps {
        assert Get(g3, q).markers == [Empty];
      } else {
        assert Get(g3, q) == Get(g1, q);
      }
    }
  }

  /** move_goal's edits after restate_solution keep the start marker where it
      was and leave one goal marker, on p. */
  lemma MoveGoalUnique(g: Grid, s: Point, t: Point, p: Point)
    requires Unique(g, Start, s) && Unique(g, Goal, t) && InGrid(g, p) && p != s && p != t
    ensures var g1 := RemoveIfMarker(RemoveIfMarker(RemoveIfMarker(g, t, Goal), t, Custom), s, Custom);
      Unique(Put(g1, p, Get(g1, p).(markers := [Empty, Goal])), Start, s) &&
      Unique(Put(g1, p, Get(g1, p).(markers := [Empty, Goal])), Goal, p)
  {
    var g0 := RemoveIfMarker(g, t, Goal);
    assert Absent(g0, Goal) && SameCount(g, g0, Start) by {
      forall q | InGrid(g0, q)
        ensures Count(g0, q, Goal) == 0 && Count(g0, q, Start) == Count(g, q, Start)
      {
        assert InGrid(g, q);
        if q == t {
          OccurrencesIn(Get(g, t).markers, Goal);
          RemoveFirstCounts(Get(g, t).markers, Goal, Goal);
          RemoveFirstCounts(Get(g, t).markers, Goal, Start);
        }
      }
    }
    var ga := RemoveIfMarker(g0, t, Custom);
    var g1 := RemoveIfMarker(ga, s, Custom);
    RemoveKeeps(g0, t, Custom);
    RemoveKeeps(ga, s, Custom);
    var g2 := Put(g1, p, Get(g1, p).(markers := [Empty, Goal]));
    forall q | InGrid(g2, q)
      ensures Count(g2, q, Start) == (if q == s then 1 else 0)
      ensures Count(g2, q, Goal) == (if q == p then 1 else 0)
    {
      assert InGrid(g, q) && InGrid(g0, q) && InGrid(ga, q);
      if q == p {
        assert Get(g2, q).markers == [Empty, Goal];
      } else {
        assert Get(g2, q) == Get(g1, q);
      }
    }
  }

  /** move_goal's grid: restate_solution's edits, then the old goal cell t
      loses its goal and custom markers, the start cell s its custom marker,
      and p becomes `[empty, goal]`. */
  function GoalMoved(g: Grid, s: Point, t: Point, p: Point, ps: seq<Point>): (r: Grid)
    requires InGrid(g, s) && InGrid(g, t) && InGrid(g, p)
  {
    Replaced(Cleared(Stripped(g, s, t), ps, s), s, t, p)
  }

  function Replaced(g: Grid, s: Point, t: Point, p: Point): (r: Grid)
    requires InGrid(g, s) && InGrid(g, t) && InGrid(g, p)
  {
    var g1 := RemoveIfMarker(RemoveIfMarker(RemoveIfMarker(g, t, Goal), t, Custom), s, Custom);
    Put(g1, p, Get(g1, p).(markers := [Empty, Goal]))
  }

  /** move_goal keeps one start marker where it was and leaves one goal
      marker, on p. */
  lemma GoalMovedUnique(g: Grid, s: Point, t: Point, p: Point, ps: seq<Point>)
    requires Unique(g, Start, s) && Unique(g, Goal, t) && t !in ps
    requires InGrid(g, p) && p != s && p != t
    ensures Unique(GoalMoved(g, s, t, p, ps), Start, s) && Unique(GoalMoved(g, s, t, p, ps), Goal, p)
  {
    StrippedKeeps(g, s, t);
    var g1 := Stripped(g, s, t);
    KeepsUnique(g, g1, Start, s);
    KeepsUnique(g, g1, Goal, t);
    ClearedUnique(g1, ps, s, t);
    MoveGoalUnique(Cleared(g1, ps, s), s, t, p);
  }

  /** The field g (height by width) that generate_walls builds: WallGrid of
      the labyrinth right, down of height/2 by width/2 cells that Eller's
      algorithm, in the rows given, draws from the coins, with its last column
      closed on the right and its last row closed below. */
  ghost predicate WalledBy(g: Grid, right: seq<seq<bool>>, down: seq<seq<bool>>, rows: seq<Eller.RowTrace>,
                           height: nat, width: nat, rightCoin: (nat, nat) -> bool, downCoin: (nat, nat) -> bool)
  {
    height % 2 == 1 && width % 2 == 1 &&
    Eller.TraceOk(rows, right, down, width / 2, height / 2, rightCoin, downCoin) &&
    Sized(right, height / 2, width / 2) && Sized(down, height / 2, width / 2) &&
    (width / 2 > 0 ==> forall r :: 0 <= r < height / 2 ==> right[r][width / 2 - 1]) &&
    (height / 2 > 0 ==> down[height / 2 - 1] == seq(width / 2, _ => true)) &&
    g == WallGrid(right, down, height / 2, width / 2)
  }

  /** How far backtrack_path has got, on the search's values: before the
      path is found there is no path; while it is traced, an empty path has
      as last track point a node at the goal whose parent was expanded, and
      a non-empty one starts at the goal, holds no point twice, holds past
      the goal only points expanded at or after position bound of the closed
      list, and has a last track point expanded before bound; a complete
      path holds no point twice. */
  ghost predicate Traced(nodes: seq<PathNode>, worked: seq<nat>, found: bool, track: Option<nat>, goal: Point,
                         path: seq<Point>, complete: bool, bound: nat)
  {
    Below(worked, |nodes|)
    && (!found ==> path == [] && !complete)
    && (found && !complete && path == [] ==>
          track.Some? && track.value < |nodes| && nodes[track.value].point == goal
          && Earlier(nodes[track.value].parent, worked, |worked|))
    && (found && !complete && path != [] ==>
          bound <= |worked| && path[0] == goal && Distinct(path) && Earlier(track, worked, bound)
          && forall i :: 1 <= i < |path| ==> path[i] in PointsAt(NodePoints(nodes), worked)[bound..])
    && (complete ==> Distinct(path))
  }

  /** The position in the closed list tracing has reached after a hop from
      track: the end of the list after the hop from the goal's node, else the
      position of the node hopped from. */
  function HopBound(worked: seq<nat>, track: Option<nat>, path: seq<Point>): nat
  {
    if path == [] || track.None? || track.value !in worked then |worked| else IndexOf(worked, track.value)
  }

  /** The first position of a handle found before bound is before bound. */
  lemma IndexBefore(worked: seq<nat>, t: nat, bound: nat)
    requires bound <= |worked| && t in worked[..bound]
    ensures t in worked && IndexOf(worked, t) < bound
  {
    var i :| 0 <= i < bound && worked[i] == t;
  }

  /** A point expanded at position j, before bound, is not on a path that
      holds past its first point only points expanded at or after bound;
      appended to it, the path holds past its first point only points
      expanded at or after j. */
  lemma HopFresh(pts: seq<Point>, path: seq<Point>, bound: nat, j: nat)
    requires Distinct(pts) && j < bound <= |pts| && |path| > 0 && path[0] !in pts
    requires forall i :: 1 <= i < |path| ==> path[i] in pts[bound..]
    ensures pts[j] !in path
    ensures forall i :: 1 <= i < |path| + 1 ==> (path + [pts[j]])[i] in pts[j..]
  {
    var x := pts[j];
    forall a | 0 <= a < |path|
      ensures path[a] != x
    {
      if a > 0 {
        var m :| 0 <= m < |pts[bound..]| && pts[bound..][m] == path[a];
        assert pts[bound + m] == path[a];
      } else {
        assert x in pts;
      }
    }
    forall a | 1 <= a < |path| + 1
      ensures (path + [x])[a] in pts[j..]
    {
      if a < |path| {
        var m :| 0 <= m < |pts[bound..]| && pts[bound..][m] == path[a];
        assert pts[j..][bound - j + m] == path[a];
      } else {
        assert pts[j..][0] == x;
      }
    }
  }

  /** A hop of backtrack_path keeps the path free of repeats: the node it
      leaves was expanded before every point already past the goal, and its
      parent before it. */
  lemma HopTraced(nodes: seq<PathNode>, frontier: seq<nat>, worked: seq<nat>, track: Option<nat>, goal: Point,
                  path: seq<Point>, bound: nat)
    requires Ranked(nodes, frontier, worked) && Traced(nodes, worked, true, track, goal, path, false, bound)
    requires track.Some? && track.value < |nodes| && goal !in PointsAt(NodePoints(nodes), worked)
    ensures Traced(nodes, worked, true, nodes[track.value].parent, goal, path + [nodes[track.value].point], false,
                   HopBound(worked, track, path))
  {
    var t := track.value;
    var pts := PointsAt(NodePoints(nodes), worked);
    if path != [] {
      IndexBefore(worked, t, bound);
      var j := IndexOf(worked, t);
      assert pts[j] == nodes[t].point;
      assert Earlier(nodes[worked[j]].parent, worked, j);
      HopFresh(pts, path, bound, j);
      DistinctConcat(path, [pts[j]]);
    }
  }

  /** Completing the traced path, by reversing it, keeps it free of repeats. */
  lemma EndTraced(nodes: seq<PathNode>, worked: seq<nat>, track: Option<nat>, goal: Point, path: seq<Point>,
                  complete: bool, bound: nat)
    requires Traced(nodes, worked, true, track, goal, path, complete, bound) && path != []
    ensures Traced(nodes, worked, true, track, goal, Reverse(path), true, bound)
  {
    var r := Reverse(path);
    forall a, b | 0 <= a < b < |r|
      ensures r[a] != r[b]
    {
      assert r[a] == path[|path| - 1 - a] && r[b] == path[|path| - 1 - b];
    }
  }

  class Maze {
    const height: nat
    const width: nat
    /** The cost of a diagonal step (math.sqrt(2) in the source). */
    const diagonal: real
    const startColor: Color := Color(0x00, 0xF2, 0x60)
    const endColor: Color := Color(0x05, 0x75, 0xE6)
    const arena: Arena

    var grid: Grid
    var lastChanged: Option<Point>
    var start: Point
    var goal: Point
    var closest: Option<Point>
    var lastTrackPoint: Option<nat>
    var path: seq<Point>
    var isAlternative: bool
    var working: bool
    var isPathFound: bool
    var pathComplete: bool
    var searchArea: seq<nat>
    var workedPoints: seq<nat>
    /** Whether set_path_coords found a start and a goal among the draws. */
    ghost var placed: bool
    /** The labyrinth generate_walls drew: its right and down borders and
        the rows of Eller's algorithm that produced them. */
    ghost var rightBorders: seq<seq<bool>>
    ghost var downBorders: seq<seq<bool>>
    ghost var rows: seq<Eller.RowTrace>
    /** The field as generate_walls left it, before set_path_coords. */
    ghost var walled: Grid
    /** How many draws set_path_coords consumed. */
    ghost var drawsUsed: nat
    /** How far backtrack_path has got in the closed list (see Traced). */
    ghost var traceBound: nat

    /** is_point_inbounds. */
    predicate IsPointInbounds(p: Point) {
      Inside(p, height, width)
    }

    predicate AllInbounds(ps: seq<Point>) {
      AllInside(ps, height, width)
    }

    /** The field's shape, and start and goal: two distinct cells of it. */
    ghost predicate Shape()
      reads this`grid, this`start, this`goal
    {
      Shaped(grid, height, width) && IsPointInbounds(start) && IsPointInbounds(goal) && start != goal
    }

    /** Exactly one start marker, on `start`, and exactly one goal marker, on
        `goal`. */
    ghost predicate Marks()
      reads this`grid, this`start, this`goal
    {
      Unique(grid, Start, start) && Unique(grid, Goal, goal)
    }

    /** The search state's bounds: every handle names a node, every point
        lies on the field, and a complete or half-traced path is not empty. */
    ghost predicate Search()
      reads this`searchArea, this`workedPoints, this`lastTrackPoint, this`closest, this`path,
        this`pathComplete, this`isPathFound, arena
    {
      0.0 < diagonal && arena.Valid()
      && Below(searchArea, |arena.nodes|) && Below(workedPoints, |arena.nodes|)
      && (lastTrackPoint.Some? ==> lastTrackPoint.value < |arena.nodes|)
      && (closest.Some? ==> IsPointInbounds(closest.value))
      && AllInbounds(NodePoints(arena.nodes)) && AllInbounds(path)
      && (pathComplete ==> |path| > 0)
      && (isPathFound && !pathComplete && lastTrackPoint.None? ==> |path| > 0)
    }

    /** Shapes and bounds every method relies on. */
    ghost predicate Core()
      reads this`grid, this`start, this`goal, this`searchArea, this`workedPoints, this`lastTrackPoint,
        this`closest, this`path, this`pathComplete, this`isPathFound, arena
    {
      Shape() && Search()
    }

    /** The points of the frontier nodes. */
    function SearchPts(): seq<Point>
      reads this`searchArea, arena
      requires Below(searchArea, |arena.nodes|)
    {
      PointsAt(NodePoints(arena.nodes), searchArea)
    }

    /** The points of the expanded nodes. */
    function WorkedPts(): seq<Point>
      reads this`workedPoints, arena
      requires Below(workedPoints, |arena.nodes|)
    {
      PointsAt(NodePoints(arena.nodes), workedPoints)
    }

    /** The start cell always has a node in the frontier or the closed list
        and the goal cell never has one; the frontier holds each point at
        most once. */
    ghost predicate Frontier()
      reads this`start, this`goal, this`searchArea, this`workedPoints, arena
    {
      Below(searchArea, |arena.nodes|) && Below(workedPoints, |arena.nodes|)
      && start in SearchPts() + WorkedPts() && goal !in SearchPts() + WorkedPts()
      && Distinct(SearchPts())
    }

    /** The maze invariant; besides the above, no frontier node has a child (a
        child link is only made when its parent is expanded). */
    ghost predicate Valid()
      reads this`grid, this`start, this`goal, this`searchArea, this`workedPoints, this`lastTrackPoint,
        this`closest, this`path, this`pathComplete, this`isPathFound, arena
    {
      Core() && Marks() && Frontier() && Leaves(arena.nodes, searchArea)
    }

    /** The order of the search and of backtrack_path (see Ranked and
        Traced), which keeps the path free of repeats. */
    ghost predicate Ordered()
      reads this`searchArea, this`workedPoints, this`isPathFound, this`lastTrackPoint, this`goal, this`path,
        this`pathComplete, this`traceBound, arena
    {
      Ranked(arena.nodes, searchArea, workedPoints)
      && Traced(arena.nodes, workedPoints, isPathFound, lastTrackPoint, goal, path, pathComplete, traceBound)
    }

    /** Valid while node ch is being expanded: ch is the only frontier node
        that may have gained a child. */
    ghost predicate Expanding(ch: nat)
      reads this`grid, this`start, this`goal, this`searchArea, this`workedPoints, this`lastTrackPoint,
        this`closest, this`path, this`pathComplete, this`isPathFound, arena
    {
      Core() && Marks() && Frontier() && ch < |arena.nodes| && LeavesBut(arena.nodes, searchArea, arena.nodes[ch].point)
    }

    /** The search state restate_solution leaves: no flag set, no path, no
        closest point, nothing expanded and one node in the frontier, the
        newest of the arena. */
    ghost predicate Restated()
      reads this`working, this`isPathFound, this`pathComplete, this`path, this`closest,
        this`searchArea, this`workedPoints, arena
    {
      !working && !isPathFound && !pathComplete && path == [] && closest.None? && workedPoints == [] &&
      |arena.nodes| > 0 && searchArea == [|arena.nodes| - 1]
    }

    /** set_path_coords on the walled field: every candidate before the one
        taken was rejected; when one was accepted (found) it is the start and
        the goal and their cells gained the start and goal markers, otherwise
        the draws ran out and the field is as it was walled. */
    ghost predicate PlacedBy(draws: seq<(Point, Point)>, found: bool)
      reads this`walled, this`drawsUsed, this`start, this`goal, this`grid
    {
      drawsUsed <= |draws| &&
      (forall k :: 0 <= k < drawsUsed ==>
        !Acceptable(walled, Candidate(draws, k, height, width).0, Candidate(draws, k, height, width).1)) &&
      (found ==>
         (start, goal) == Candidate(draws, drawsUsed, height, width) && Acceptable(walled, start, goal) &&
         grid == Put(Put(walled, start, AddMarker(Get(walled, start), Start)), goal, AddMarker(Get(walled, goal), Goal))) &&
      (!found ==>
         drawsUsed == |draws| && grid == walled &&
         !Acceptable(walled, Candidate(draws, drawsUsed, height, width).0, Candidate(draws, drawsUsed, height, width).1))
    }

    /** __init__: forces odd dimensions, builds the field and its walls,
        places start and goal from the draws, and seeds the frontier with the
        start node.  `placed` is false when the draws ran out first. */
    constructor(height0: nat, width0: nat, diagonal: real,
                rightCoin: (nat, nat) -> bool, downCoin: (nat, nat) -> bool,
                draws: seq<(Point, Point)>)
      requires 0.0 < diagonal
      requires ForcedOdd(height0) / 2 > 0 ==> ForcedOdd(width0) / 2 > 0
      requires forall k :: 0 <= k < |draws| ==>
        0 <= draws[k].0.row < ForcedOdd(height0) && 0 <= draws[k].0.col < ForcedOdd(width0) &&
        0 <= draws[k].1.row < ForcedOdd(height0) && 0 <= draws[k].1.col < ForcedOdd(width0)
      ensures height == ForcedOdd(height0) && width == ForcedOdd(width0)
      ensures fresh(arena)
      ensures placed ==> Valid() && Ordered()
      ensures placed ==> arena.nodes == [PathNode(start, 0.0, None, None)] && searchArea == [0] && workedPoints == []
      ensures lastChanged.None? && closest.None? && lastTrackPoint.None? && path == []
      ensures isAlternative && !working && !isPathFound && !pathComplete
      ensures WalledBy(walled, rightBorders, downBorders, rows, height, width, rightCoin, downCoin) && PlacedBy(draws, placed)
    {
      this.height := ForcedOdd(height0);
      this.width := ForcedOdd(width0);
      this.diagonal := diagonal;
      arena := new Arena();
      grid := EmptyField(ForcedOdd(height0), ForcedOdd(width0));
      lastChanged, closest, lastTrackPoint, path := None, None, None, [];
      start, goal := Point(0, 0), Point(0, 0);
      isAlternative, working, isPathFound, pathComplete := true, false, false, false;
      searchArea, workedPoints := [], [];
      placed := false;
      new;
      Build(rightCoin, downCoin, draws);
    }

    /** The constructor's calls once the fields are set: generate_walls,
        set_path_coords, and the first frontier when a start was placed. */
    method Build(rightCoin: (nat, nat) -> bool, downCoin: (nat, nat) -> bool, draws: seq<(Point, Point)>)
      requires Shaped(grid, height, width) && height % 2 == 1 && width % 2 == 1
      requires height / 2 > 0 ==> width / 2 > 0
      requires forall q :: InGrid(grid, q) ==> Get(grid, q) == Cell([Empty], None)
      requires forall k :: 0 <= k < |draws| ==> IsPointInbounds(draws[k].0) && IsPointInbounds(draws[k].1)
      requires 0.0 < diagonal && arena.Valid() && arena.nodes == [] && lastTrackPoint.None?
      requires !working && !isPathFound && !pathComplete && closest.None? && path == []
      modifies this`grid, this`start, this`goal, this`searchArea, this`workedPoints, this`path, this`closest,
        this`working, this`isPathFound, this`pathComplete, arena, this`drawsUsed, this`placed,
        this`rightBorders, this`downBorders, this`rows, this`walled
      ensures placed ==> Valid() && Ordered()
      ensures placed ==> arena.nodes == [PathNode(start, 0.0, None, None)] && searchArea == [0] && workedPoints == []
      ensures !working && !isPathFound && !pathComplete && closest.None? && path == []
      ensures WalledBy(walled, rightBorders, downBorders, rows, height, width, rightCoin, downCoin) && PlacedBy(draws, placed)
    {
      WallField(rightCoin, downCoin);
      ghost var labyrinth := (walled, rightBorders, downBorders, rows);
      Populate(draws);
      assert WalledBy(walled, rightBorders, downBorders, rows, height, width, rightCoin, downCoin) by {
        assert labyrinth == (walled, rightBorders, downBorders, rows);
      }
    }

    /** The constructor's calls once the walls stand: set_path_coords, and
        the first frontier when a start was placed. */
    method Populate(draws: seq<(Point, Point)>)
      requires Shaped(grid, height, width) && height > 0 && width > 0 && grid == walled
      requires Absent(grid, Start) && Absent(grid, Goal)
      requires forall k :: 0 <= k < |draws| ==> IsPointInbounds(draws[k].0) && IsPointInbounds(draws[k].1)
      requires 0.0 < diagonal && arena.Valid() && arena.nodes == [] && lastTrackPoint.None?
      requires !working && !isPathFound && !pathComplete && closest.None? && path == []
      modifies this`grid, this`start, this`goal, this`searchArea, this`workedPoints, this`path, this`closest,
        this`working, this`isPathFound, this`pathComplete, arena, this`drawsUsed, this`placed
      ensures placed ==> Valid() && Ordered()
      ensures placed ==> arena.nodes == [PathNode(start, 0.0, None, None)] && searchArea == [0] && workedPoints == []
      ensures !working && !isPathFound && !pathComplete && closest.None? && path == []
      ensures PlacedBy(draws, placed)
    {
      var found := PlaceStartGoal(draws);
      placed := found;
      if found {
        FirstFrontier();
      }
    }

    /** The constructor's first frontier, once a start and a goal are placed. */
    method FirstFrontier()
      requires Shaped(grid, height, width) && height > 0 && width > 0
      requires IsPointInbounds(start) && IsPointInbounds(goal) && start != goal
      requires Unique(grid, Start, start) && Unique(grid, Goal, goal)
      requires 0.0 < diagonal && arena.Valid() && arena.nodes == [] && lastTrackPoint.None?
      modifies this`searchArea, this`workedPoints, this`path, this`closest,
        this`working, this`isPathFound, this`pathComplete, arena
      ensures Valid() && Ordered()
      ensures unchanged(this`grid, this`start, this`goal, this`drawsUsed, this`walled)
      ensures arena.nodes == [PathNode(start, 0.0, None, None)] && searchArea == [0] && workedPoints == []
      ensures !working && !isPathFound && !pathComplete && closest.None? && path == []
    {
      Reseed();
    }

    /** set_path_coords on the freshly walled field, as the constructor needs it. */
    method PlaceStartGoal(draws: seq<(Point, Point)>) returns (found: bool)
      requires Shaped(grid, height, width) && height > 0 && width > 0 && grid == walled
      requires Absent(grid, Start) && Absent(grid, Goal)
      requires forall k :: 0 <= k < |draws| ==> IsPointInbounds(draws[k].0) && IsPointInbounds(draws[k].1)
      modifies this`grid, this`start, this`goal, this`drawsUsed
      ensures Shaped(grid, height, width)
      ensures PlacedBy(draws, found)
      ensures found ==> IsPointInbounds(start) && IsPointInbounds(goal) && start != goal
      ensures found ==> Unique(grid, Start, start) && Unique(grid, Goal, goal)
      ensures !found ==> start == old(start) && goal == old(goal)
    {
      ghost var used;
      found, used := SetPathCoords(draws);
      drawsUsed := used;
      if found {
        PlacedUnique(walled, start, goal);
      }
    }

    /** The end of restate_solution (and of __init__): a new search whose
        frontier is a fresh start node, with every flag reset. */
    method Reseed()
      requires Shape() && 0.0 < diagonal && arena.Valid() && AllInbounds(NodePoints(arena.nodes))
      requires lastTrackPoint.Some? ==> lastTrackPoint.value < |arena.nodes|
      modifies this`searchArea, this`workedPoints, this`path, this`closest,
        this`working, this`isPathFound, this`pathComplete, arena
      ensures Core() && Frontier() && Leaves(arena.nodes, searchArea) && Restated() && Ordered()
      ensures arena.nodes == old(arena.nodes) + [PathNode(start, 0.0, None, None)]
      ensures SearchPts() == [start] && WorkedPts() == []
    {
      var h := arena.NewNode(start, 0.0, None);
      searchArea, workedPoints, path, closest := [h], [], [], None;
      working, isPathFound, pathComplete := false, false, false;
      assert SearchPts() == [start];
    }

    /** The walls of a fresh field, as the constructor needs them. */
    method WallField(rightCoin: (nat, nat) -> bool, downCoin: (nat, nat) -> bool)
      requires Shaped(grid, height, width) && height % 2 == 1 && width % 2 == 1
      requires height / 2 > 0 ==> width / 2 > 0
      requires forall q :: InGrid(grid, q) ==> Get(grid, q) == Cell([Empty], None)
      modifies this`grid, this`rightBorders, this`downBorders, this`rows, this`walled
      ensures Shaped(grid, height, width) && Absent(grid, Start) && Absent(grid, Goal)
      ensures WalledBy(walled, rightBorders, downBorders, rows, height, width, rightCoin, downCoin) && walled == grid
    {
      ghost var right, down, trace := GenerateWalls(rightCoin, downCoin);
      rightBorders, downBorders, rows, walled := right, down, trace, grid;
    }

    /** generate_walls: the cells generate_labyrinth's borders (on a labyrinth
        of height/2 by width/2 cells) turn into walls, on a fresh field.  The
        source's `continue` after the first row and column and its two
        separate border tests all write the same `[wall]`, so one test of
        WallAt stands for them. */
    method GenerateWalls(rightCoin: (nat, nat) -> bool, downCoin: (nat, nat) -> bool)
      returns (ghost right: seq<seq<bool>>, ghost down: seq<seq<bool>>, ghost trace: seq<Eller.RowTrace>)
      requires Shaped(grid, height, width) && height % 2 == 1 && width % 2 == 1
      requires height / 2 > 0 ==> width / 2 > 0
      requires forall q :: InGrid(grid, q) ==> Get(grid, q) == Cell([Empty], None)
      modifies this`grid
      ensures Sized(right, height / 2, width / 2) && Sized(down, height / 2, width / 2)
      ensures Eller.TraceOk(trace, right, down, width / 2, height / 2, rightCoin, downCoin)
      ensures grid == WallGrid(right, down, height / 2, width / 2)
      ensures width / 2 > 0 ==> forall r :: 0 <= r < height / 2 ==> right[r][width / 2 - 1]
      ensures height / 2 > 0 ==> down[height / 2 - 1] == seq(width / 2, _ => true)
      ensures Absent(grid, Start) && Absent(grid, Goal)
      ensures WallsMeaning(grid, right, down, height / 2, width / 2)
    {
      var h, w := height / 2, width / 2;
      var r, d;
      r, d, trace := Eller.GenerateLabyrinth(w, h, rightCoin, downCoin);
      right, down := r, d;
      WallsFrom(r, d, h, w);
      WalledFieldUnmarked(grid, r, d, h, w);
      WalledIsWallGrid(grid, r, d, h, w);
    }

    /** The walls of the labyrinth r, d (h by w cells) written on a fresh field. */
    method WallsFrom(r: seq<seq<bool>>, d: seq<seq<bool>>, h: nat, w: nat)
      requires Sized(r, h, w) && Sized(d, h, w) && height == 2 * h + 1 && width == 2 * w + 1
      requires w > 0 ==> forall k :: 0 <= k < h ==> r[k][w - 1]
      requires h > 0 ==> d[h - 1] == seq(w, _ => true)
      requires Shaped(grid, height, width) && forall q :: InGrid(grid, q) ==> Get(grid, q) == Cell([Empty], None)
      modifies this`grid
      ensures WalledUpTo(grid, height, 0, r, d, h, w)
      ensures WallsMeaning(grid, r, d, h, w)
    {
      FillWalls(r, d, h, w);
      WallsHaveMeaning(grid, r, d, h, w);
    }

    /** The two loops of generate_walls over the whole field. */
    method FillWalls(r: seq<seq<bool>>, d: seq<seq<bool>>, h: nat, w: nat)
      requires Sized(r, h, w) && Sized(d, h, w) && height == 2 * h + 1 && width == 2 * w + 1
      requires WalledUpTo(grid, 0, 0, r, d, h, w)
      modifies this`grid
      ensures WalledUpTo(grid, height, 0, r, d, h, w)
    {
      for row := 0 to height
        invariant WalledUpTo(grid, row, 0, r, d, h, w)
      {
        for col := 0 to width
          invariant WalledUpTo(grid, row, col, r, d, h, w)
        {
          var p := Point(row, col);
          WallStep(grid, row, col, r, d, h, w);
          if WallAt(p, r, d, h, w) {
            grid := Put(grid, p, Get(grid, p).(markers := [Wall]));
          }
        }
        WallRow(grid, row, r, d, h, w);
      }
    }

    /** set_path_coords: tries the middle of the outer columns, then the draws
        in order, and marks the first acceptable pair as start and goal. */
    method SetPathCoords(draws: seq<(Point, Point)>) returns (placed: bool, ghost used: nat)
      requires Shaped(grid, height, width) && height > 0 && width > 0
      requires forall k :: 0 <= k < |draws| ==> IsPointInbounds(draws[k].0) && IsPointInbounds(draws[k].1)
      modifies this`grid, this`start, this`goal
      ensures Shaped(grid, height, width)
      ensures used <= |draws|
      ensures forall k :: 0 <= k < used ==>
        !Acceptable(old(grid), Candidate(draws, k, height, width).0, Candidate(draws, k, height, width).1)
      ensures placed ==> (start, goal) == Candidate(draws, used, height, width) && Acceptable(old(grid), start, goal)
      ensures placed ==> grid == Put(Put(old(grid), start, AddMarker(Get(old(grid), start), Start)),
                                     goal, AddMarker(Get(old(grid), goal), Goal))
      ensures !placed ==> used == |draws| && grid == old(grid) && start == old(start) && goal == old(goal)
      ensures !placed ==> !Acceptable(old(grid), Candidate(draws, used, height, width).0, Candidate(draws, used, height, width).1)
    {
      var s, t := Point(height / 2, 0), Point(height / 2, |grid[0]| - 1);
      var k := 0;
      while !(Wall !in Get(grid, s).markers && Wall !in Get(grid, t).markers && s != t) && k < |draws|
        invariant k <= |draws|
        invariant IsPointInbounds(s) && IsPointInbounds(t) && grid == old(grid)
        invariant (s, t) == Candidate(draws, k, height, width)
        invariant forall j :: 0 <= j < k ==>
          !Acceptable(grid, Candidate(draws, j, height, width).0, Candidate(draws, j, height, width).1)
        decreases |draws| - k
      {
        s, t := draws[k].0, draws[k].1;
        k := k + 1;
      }
      used := k;
      placed := Acceptable(grid, s, t);
      if placed {
        grid := Put(grid, s, AddMarker(Get(grid, s), Start));
        grid := Put(grid, t, AddMarker(Get(grid, t), Goal));
        start, goal := s, t;
      }
    }

    /** One loop of clear_pathfind over the points of a node list: every
        cell there except the start cell is reset to `[empty]`. */
    method ClearList(ps: seq<Point>)
      requires Shaped(grid, height, width) && AllInbounds(ps)
      modifies this`grid
      ensures grid == Cleared(old(grid), ps, start)
    {
      for i := 0 to |ps|
        invariant Shaped(grid, height, width)
        invariant forall q :: InGrid(grid, q) ==> Get(grid, q) == Get(Cleared(old(grid), ps[..i], start), q)
      {
        assert ps[..i + 1] == ps[..i] + [ps[i]];
        if start != ps[i] {
          grid := Put(grid, ps[i], Get(grid, ps[i]).(markers := [Empty]));
        }
      }
      assert ps[..|ps|] == ps;
      SameCells(grid, Cleared(old(grid), ps, start));
    }

    /** clear_pathfind: the cells of every frontier and closed node except the
        start cell are reset to `[empty]`. */
    method ClearPathfind()
      requires Core()
      modifies this`grid
      ensures grid == Cleared(old(grid), SearchPts() + WorkedPts(), start)
    {
      ghost var g0 := grid;
      ClearList(SearchPts());
      ClearList(WorkedPts());
      ClearedTwice(g0, SearchPts(), WorkedPts(), start);
    }

    /** The grid edits of restate_solution: custom off the start cell, custom
        and confirmed off the goal cell, then clear_pathfind. */
    method StripAndClear()
      requires Core()
      modifies this`grid
      ensures Core()
      ensures grid == Cleared(Stripped(old(grid), start, goal), SearchPts() + WorkedPts(), start)
      ensures old(Marks()) && Frontier() ==> Marks()
    {
      ghost var g0, ps := grid, SearchPts() + WorkedPts();
      grid := Stripped(grid, start, goal);
      ghost var g1 := grid;
      ClearPathfind();
      if old(Marks()) && Frontier() {
        StrippedKeeps(g0, start, goal);
        KeepsUnique(g0, g1, Start, start);
        KeepsUnique(g0, g1, Goal, goal);
        ClearedUnique(g1, ps, start, goal);
      }
    }

    /** restate_solution: strips the colour markers off start and goal, resets
        the flags, clears the search's cells, and starts a new search whose
        frontier is a fresh start node. */
    method RestateSolution()
      requires Core()
      modifies this`grid, this`working, this`isPathFound, this`pathComplete, this`searchArea,
        this`workedPoints, this`path, this`closest, arena
      ensures Core() && Frontier() && Leaves(arena.nodes, searchArea) && Restated() && Ordered()
      ensures arena.nodes == old(arena.nodes) + [PathNode(start, 0.0, None, None)]
      ensures SearchPts() == [start] && WorkedPts() == []
      ensures grid == Cleared(Stripped(old(grid), start, goal), old(SearchPts() + WorkedPts()), start)
      ensures old(Marks() && Frontier()) ==> Marks()
    {
      StripAndClear();
      Reseed();
    }

    /** move_start: a cell in bounds that is neither start nor goal becomes
        the start; the search restarts from it. */
    method MoveStart(p: Point)
      requires Valid()
      modifies this`start, this`grid, this`working, this`isPathFound, this`pathComplete, this`searchArea,
        this`workedPoints, this`path, this`closest, arena
      ensures Valid()
      ensures !old(IsPointInbounds(p) && goal != p && start != p) ==> unchanged(this) && unchanged(arena)
      ensures old(IsPointInbounds(p) && goal != p && start != p) ==>
        start == p && goal == old(goal) && Restated() && Ordered() &&
        arena.nodes == old(arena.nodes) + [PathNode(p, 0.0, None, None)] &&
        grid == StartMoved(old(grid), p, goal, old(SearchPts() + WorkedPts()))
    {
      if IsPointInbounds(p) && goal != p && start != p {
        ghost var g0, ps := grid, SearchPts() + WorkedPts();
        StartMovedUnique(g0, start, p, goal, ps);
        Restart(p, g0, ps);
      }
    }

    /** The body of move_start once its guard has passed. */
    method Restart(p: Point, ghost g0: Grid, ghost ps: seq<Point>)
      requires Core() && IsPointInbounds(p) && p != goal
      requires g0 == grid && ps == SearchPts() + WorkedPts()
      modifies this`start, this`grid, this`working, this`isPathFound, this`pathComplete, this`searchArea,
        this`workedPoints, this`path, this`closest, arena
      ensures Core() && Frontier() && Leaves(arena.nodes, searchArea) && Restated() && Ordered() && start == p
      ensures arena.nodes == old(arena.nodes) + [PathNode(p, 0.0, None, None)]
      ensures grid == StartMoved(g0, p, goal, ps)
    {
      start := p;
      RestateSolution();
      PlaceStart();
    }

    /** The last statement of move_start: the new start cell becomes
        `[empty, start]`. */
    method PlaceStart()
      requires Core() && Frontier() && Leaves(arena.nodes, searchArea) && Restated()
      modifies this`grid
      ensures Core() && Frontier() && Leaves(arena.nodes, searchArea) && Restated()
      ensures grid == Put(old(grid), start, Get(old(grid), start).(markers := [Empty, Start]))
    {
      grid := Put(grid, start, Get(grid, start).(markers := [Empty, Start]));
    }

    /** move_goal: a cell in bounds that is neither start nor goal becomes the
        goal, after the search is restated and the old goal cell loses its
        goal and custom markers (and the start cell its custom marker). */
    method MoveGoal(p: Point)
      requires Valid()
      modifies this`goal, this`grid, this`working, this`isPathFound, this`pathComplete, this`searchArea,
        this`workedPoints, this`path, this`closest, arena
      ensures Valid()
      ensures !old(IsPointInbounds(p) && goal != p && start != p) ==> unchanged(this) && unchanged(arena)
      ensures old(IsPointInbounds(p) && goal != p && start != p) ==>
        goal == p && start == old(start) && Restated() && Ordered() &&
        arena.nodes == old(arena.nodes) + [PathNode(start, 0.0, None, None)] &&
        grid == GoalMoved(old(grid), start, old(goal), p, old(SearchPts() + WorkedPts()))
    {
      if IsPointInbounds(p) && goal != p && start != p {
        ghost var g0, ps := grid, SearchPts() + WorkedPts();
        GoalMovedUnique(g0, start, goal, p, ps);
        Regoal(p, g0, ps);
      }
    }

    /** The body of move_goal once its guard has passed. */
    method Regoal(p: Point, ghost g0: Grid, ghost ps: seq<Point>)
      requires Core() && IsPointInbounds(p) && p != start && p != goal
      requires g0 == grid && ps == SearchPts() + WorkedPts()
      modifies this`goal, this`grid, this`working, this`isPathFound, this`pathComplete, this`searchArea,
        this`workedPoints, this`path, this`closest, arena
      ensures Core() && Frontier() && Leaves(arena.nodes, searchArea) && Restated() && Ordered() && goal == p
      ensures arena.nodes == old(arena.nodes) + [PathNode(start, 0.0, None, None)]
      ensures grid == GoalMoved(g0, start, old(goal), p, ps)
    {
      RestateSolution();
      ReplaceGoal(p);
    }

    /** The grid edits of move_goal after restate_solution. */
    method ReplaceGoal(p: Point)
      requires Core() && Frontier() && Leaves(arena.nodes, searchArea) && Restated()
      requires IsPointInbounds(p) && p != start && SearchPts() == [start] && Ordered()
      modifies this`grid, this`goal
      ensures Core() && Frontier() && Leaves(arena.nodes, searchArea) && Restated() && Ordered() && goal == p
      ensures grid == Replaced(old(grid), start, old(goal), p)
    {
      grid := RemoveIfMarker(RemoveIfMarker(RemoveIfMarker(grid, goal, Goal), goal, Custom), start, Custom);
      goal := p;
      grid := Put(grid, p, Get(grid, p).(markers := [Empty, Goal]));
    }

    // -------------------------------------------------------------------
    // find_path

    /** The search fields find_path reads and writes. */
    ghost function Snapshot(): SearchState
      reads this`grid, this`searchArea, this`workedPoints, this`isPathFound, this`lastTrackPoint, this`closest, arena
    {
      SearchState(arena.nodes, searchArea, workedPoints, grid, isPathFound, lastTrackPoint, closest)
    }

    /** What find_path reads and never changes. */
    function Fixed(): Field
      reads this`start, this`goal
    {
      Field(start, goal, height, width, diagonal)
    }

    /** The maze invariant holds of the search fields. */
    lemma ValidSound()
      requires Valid()
      ensures Sound(Snapshot(), Fixed())
    {
    }

    /** The search invariant and the rest of the maze invariant make the
        whole of it. */
    lemma SoundValid()
      requires Sound(Snapshot(), Fixed()) && start != goal && 0.0 < diagonal && AllInbounds(path)
      requires pathComplete ==> |path| > 0
      requires isPathFound && !pathComplete && lastTrackPoint.None? ==> |path| > 0
      ensures Valid()
    {
    }

    /** One step of find_path from a sound state st keeps the maze invariant:
        the bounds on the path it does not touch still hold. */
    lemma StepValid(st: SearchState)
      requires Sound(st, Fixed()) && Snapshot() == Step(st, Fixed())
      requires start != goal && 0.0 < diagonal && AllInbounds(path)
      requires pathComplete ==> |path| > 0
      requires st.found && !pathComplete && st.track.None? ==> |path| > 0
      ensures Valid()
    {
      StepSound(st, Fixed());
      StepTrack(st, Fixed());
      SoundValid();
    }

    /** find_path: see Step. */
    method FindPath()
      requires Valid()
      modifies this`grid, this`closest, this`searchArea, this`workedPoints, this`isPathFound, this`lastTrackPoint, arena
      ensures Valid()
      ensures Snapshot() == Step(old(Snapshot()), Fixed())
      ensures old(Ordered() && !isPathFound) ==> Ordered()
    {
      ghost var st := Snapshot();
      ghost var ordered := Ordered() && !isPathFound;
      ValidSound();
      StepFrom(st);
      StepValid(st);
      if ordered {
        StepOrdered(st);
      }
    }

    /** A step of find_path from a state where no path has been found keeps
        the order: see StepRanked and StepFinds. */
    lemma StepOrdered(st: SearchState)
      requires Sound(st, Fixed()) && Snapshot() == Step(st, Fixed()) && !st.found
      requires Ranked(st.nodes, st.frontier, st.worked) && path == [] && !pathComplete
      ensures Ordered()
    {
      StepRanked(st, Fixed());
      StepFinds(st, Fixed());
    }

    /** find_path on the search state st. */
    method StepFrom(ghost st: SearchState)
      requires Sound(st, Fixed()) && Snapshot() == st
      modifies this`grid, this`closest, this`searchArea, this`workedPoints, this`isPathFound, this`lastTrackPoint, arena
      ensures Snapshot() == Step(st, Fixed())
    {
      if closest.Some? {
        grid := RemoveIfMarker(grid, closest.value, CurrentClosest);
      }
      var sel := FindClosest(arena.nodes, searchArea, goal);
      if sel.Some? {
        ExpandClosest(sel.value, st);
      }
    }

    /** find_path once get_closest has chosen the frontier node at position
        sel: see Expand. */
    method ExpandClosest(sel: nat, ghost st: SearchState)
      requires Ready(st, Fixed()) && Linked(st.nodes) && Leaves(st.nodes, st.frontier) && Distinct(FrontierPoints(st))
      requires sel < |st.frontier| && Snapshot() == st.(grid := Unmarked(st, Fixed()))
      modifies this`grid, this`closest, this`searchArea, this`workedPoints, this`isPathFound, this`lastTrackPoint, arena
      ensures Snapshot() == Expand(st, Fixed(), sel)
    {
      var ch := searchArea[sel];
      var chp := arena.nodes[ch].point;
      assert NodePoints(arena.nodes)[ch] == chp;
      closest := Some(chp);
      grid := Put(grid, chp, AddMarker(Get(grid, chp), CurrentClosest));
      assert View(false, false) == Entry(st, Fixed(), sel);
      var successful, useful := ExpandNeighbours(ch);
      ghost var e := Looped(st, Fixed(), sel);
      LoopedDistinct(st, Fixed(), sel);
      ExpandChosen(st, Fixed(), sel);
      Close(sel, ch, chp, successful, useful, st, e);
    }

    /** The end of find_path: see Closed. */
    method Close(sel: nat, ch: nat, chp: Point, successful: bool, useful: bool, ghost st: SearchState, ghost e: Expansion)
      requires View(successful, useful) == e && Below(e.frontier, |e.nodes|) && Shaped(grid, height, width)
      requires sel < |st.frontier| && sel < |e.frontier| && ch == st.frontier[sel] && workedPoints == st.worked
      requires IsPointInbounds(chp) && closest == Some(chp)
      requires Distinct(FrontierPts(e)) && FrontierPts(e)[sel] == chp
      modifies this`grid, this`searchArea, this`workedPoints
      ensures Snapshot() == Closed(st, sel, e, chp)
    {
      if !successful && !useful {
        grid := Put(grid, chp, AddMarker(Get(grid, chp), Wrong));
      }
      workedPoints := workedPoints + [ch];
      IndexOfDistinct(SearchPts(), sel);
      var k := IndexOf(SearchPts(), chp);
      searchArea := searchArea[..k] + searchArea[k + 1..];
    }

    /** The part of the maze find_path's loop over the neighbours changes,
        with its two local flags. */
    ghost function View(successful: bool, useful: bool): Expansion
      reads this`grid, this`searchArea, this`isPathFound, this`lastTrackPoint, arena
    {
      Expansion(arena.nodes, searchArea, grid, isPathFound, lastTrackPoint, successful, useful)
    }

    /** The inner loop of find_path for the neighbour n of node ch: every
        frontier node at n that is dearer than a step from ch is reparented
        to ch (is_useful is set), and `possible` is cleared when a frontier
        node lies at n. */
    method Relax(ch: nat, n: Point, offset: real, possible: bool, useful: bool)
      returns (possible': bool, useful': bool)
      requires arena.Valid() && ch < |arena.nodes| && Below(searchArea, |arena.nodes|)
      requires LeavesBut(arena.nodes, searchArea, arena.nodes[ch].point) && arena.nodes[ch].point != n
      modifies arena
      ensures arena.Valid() && NodePoints(arena.nodes) == NodePoints(old(arena.nodes))
      ensures var rx := Relaxed(old(arena.nodes), searchArea, ch, n, offset, |searchArea|);
        arena.nodes == rx.nodes && possible' == (possible && !rx.seen) && useful' == (useful || rx.useful)
    {
      ghost var nodes0 := arena.nodes;
      ghost var rx := Relaxation(nodes0, false, false);
      possible', useful' := possible, useful;
      for j := 0 to |searchArea|
        invariant arena.Valid() && rx == Relaxed(nodes0, searchArea, ch, n, offset, j)
        invariant arena.nodes == rx.nodes && possible' == (possible && !rx.seen) && useful' == (useful || rx.useful)
      {
        var pp := searchArea[j];
        RelaxedChildren(nodes0, searchArea, ch, n, offset, j);
        RelaxedPoint(nodes0, searchArea, ch, n, offset, j, pp);
        var seen, improved := RelaxNode(pp, ch, n, offset, rx);
        rx := RelaxOne(rx, pp, ch, n, offset);
        possible' := possible' && !seen;
        useful' := useful' || improved;
      }
      forall k | 0 <= k < |nodes0|
        ensures arena.nodes[k].point == nodes0[k].point
      {
        RelaxedPoint(nodes0, searchArea, ch, n, offset, |searchArea|, k);
      }
    }

    /** The body of find_path's inner loop for the frontier node h: the pass
        RelaxOne states, on the relaxation r done so far. */
    method RelaxNode(h: nat, ch: nat, n: Point, offset: real, ghost r: Relaxation) returns (seen: bool, improved: bool)
      requires arena.Valid() && h < |arena.nodes| && ch < |arena.nodes| && r.nodes == arena.nodes
      requires arena.nodes[h].point == n ==> arena.nodes[h].child.None?
      modifies arena
      ensures arena.Valid()
      ensures var r' := RelaxOne(r, h, ch, n, offset);
        arena.nodes == r'.nodes && r'.seen == (r.seen || seen) && r'.useful == (r.useful || improved)
    {
      seen, improved := false, false;
      if arena.nodes[h].point == n {
        if arena.nodes[h].length > arena.nodes[ch].length + offset {
          arena.ChangeLeafParent(h, ch, arena.nodes[ch].length + offset);
          improved := true;
        }
        seen := true;
      }
    }

    /** One pass of find_path's loop over the neighbours, for the neighbour n
        of node ch: the pass Visit states on values. */
    method VisitNeighbour(ch: nat, n: Point, successful: bool, useful: bool, ghost s: Setting)
      returns (successful': bool, useful': bool)
      requires arena.Valid() && Below(workedPoints, |arena.nodes|)
      requires s == Setting(ch, WorkedPts(), goal, height, width, diagonal) && Formed(View(successful, useful), s)
      requires LeavesBut(arena.nodes, searchArea, arena.nodes[ch].point) && arena.nodes[ch].point != n
      modifies this`grid, this`searchArea, this`isPathFound, this`lastTrackPoint, arena
      ensures arena.Valid() && Below(workedPoints, |arena.nodes|) && WorkedPts() == s.worked
      ensures View(successful', useful') == Visit(old(View(successful, useful)), s, n)
    {
      ghost var e := View(successful, useful);
      var offset, possible;
      offset, possible, useful' := Examine(ch, n, useful, s);
      successful' := Settle(ch, n, offset, possible, successful, useful', e, s);
    }

    /** The end of a pass of find_path's loop over the neighbours, once the
        frontier has been searched: a node for n when is_possible holds. */
    method Settle(ch: nat, n: Point, offset: real, possible: bool, successful: bool, useful: bool,
                  ghost e: Expansion, ghost s: Setting)
      returns (successful': bool)
      requires Formed(e, s) && s.ch == ch && s.height == height && s.width == width && s.diagonal == diagonal
      requires arena.Valid() && Below(workedPoints, |arena.nodes|) && s.worked == WorkedPts() && s.goal == goal
      requires e.frontier == searchArea && e.grid == grid && e.found == isPathFound && e.track == lastTrackPoint
      requires offset == Offset(e.nodes[ch].point, n, diagonal)
      requires var rx := Relaxed(e.nodes, e.frontier, ch, n, offset, |e.frontier|);
        arena.nodes == rx.nodes && possible == (Open(grid, s, n) && !rx.seen) && useful == (e.useful || rx.useful)
      requires successful == e.successful
      modifies this`grid, this`searchArea, this`isPathFound, this`lastTrackPoint, arena
      ensures arena.Valid() && Below(workedPoints, |arena.nodes|) && WorkedPts() == s.worked
      ensures View(successful', useful) == Visit(e, s, n)
    {
      successful' := successful;
      if possible {
        successful' := true;
        CreateNode(ch, n, arena.nodes[ch].length + offset);
      }
    }

    /** The start of a pass of find_path's loop over the neighbours: the step
        cost to n, is_possible, and the inner loop over the frontier. */
    method Examine(ch: nat, n: Point, useful: bool, ghost s: Setting) returns (offset: real, possible: bool, useful': bool)
      requires arena.Valid() && Below(workedPoints, |arena.nodes|) && Below(searchArea, |arena.nodes|)
      requires s == Setting(ch, WorkedPts(), goal, height, width, diagonal) && ch < |arena.nodes|
      requires Shaped(grid, height, width)
      requires LeavesBut(arena.nodes, searchArea, arena.nodes[ch].point) && arena.nodes[ch].point != n
      modifies arena
      ensures arena.Valid() && Below(workedPoints, |arena.nodes|) && WorkedPts() == s.worked
      ensures offset == Offset(old(arena.nodes[ch].point), n, diagonal)
      ensures var rx := Relaxed(old(arena.nodes), searchArea, ch, n, offset, |searchArea|);
        arena.nodes == rx.nodes && possible == (Open(grid, s, n) && !rx.seen) && useful' == (useful || rx.useful)
    {
      var chp := arena.nodes[ch].point;
      offset := if ManhattanDistance(chp, n) == 2 then diagonal else 1.0;
      possible := IsPointInbounds(n) && n !in WorkedPts() && Wall !in Get(grid, n).markers
        && Start !in Get(grid, n).markers;
      possible, useful' := Relax(ch, n, offset, possible, useful);
    }

    /** The end of a pass of find_path's loop when is_possible holds: a node
        for n with parent ch and length len becomes the last track point when
        n is the goal, and joins the frontier, its cell marked `path`,
        otherwise. */
    method CreateNode(ch: nat, n: Point, len: real)
      requires arena.Valid() && ch < |arena.nodes| && Below(searchArea, |arena.nodes|)
      requires Below(workedPoints, |arena.nodes|) && Shaped(grid, height, width) && IsPointInbounds(n)
      modifies this`grid, this`searchArea, this`isPathFound, this`lastTrackPoint, arena
      ensures arena.Valid() && Below(workedPoints, |arena.nodes|) && WorkedPts() == old(WorkedPts())
      ensures arena.nodes == Appended(old(arena.nodes), n, len, Some(ch))
      ensures n == goal ==>
        isPathFound && lastTrackPoint == Some(old(|arena.nodes|)) && searchArea == old(searchArea) && grid == old(grid)
      ensures n != goal ==>
        isPathFound == old(isPathFound) && lastTrackPoint == old(lastTrackPoint) &&
        searchArea == old(searchArea) + [old(|arena.nodes|)] && grid == Put(old(grid), n, AddMarker(Get(old(grid), n), Path))
    {
      PointsAtPrefix(NodePoints(arena.nodes), [n], workedPoints);
      if n == goal {
        isPathFound := true;
        var h := arena.NewNode(n, len, Some(ch));
        lastTrackPoint := Some(h);
      } else {
        var h := arena.NewNode(n, len, Some(ch));
        searchArea := searchArea + [h];
        grid := Put(grid, n, AddMarker(Get(grid, n), Path));
      }
    }

    /** find_path's loop over the eight neighbours of node ch: the passes
        Visits folds, from the state the loop starts in. */
    method ExpandNeighbours(ch: nat) returns (successful: bool, useful: bool)
      requires arena.Valid() && ch < |arena.nodes| && Below(searchArea, |arena.nodes|)
      requires Below(workedPoints, |arena.nodes|) && Shaped(grid, height, width)
      requires LeavesBut(arena.nodes, searchArea, arena.nodes[ch].point)
      modifies this`grid, this`searchArea, this`isPathFound, this`lastTrackPoint, arena
      ensures arena.Valid() && Below(workedPoints, |arena.nodes|) && WorkedPts() == old(WorkedPts())
      ensures var s := Setting(ch, old(WorkedPts()), goal, height, width, diagonal);
        View(successful, useful) == Visits(old(View(false, false)), s, Ring(old(arena.nodes[ch].point)), |Ring(old(arena.nodes[ch].point))|)
    {
      ghost var e0 := View(false, false);
      ghost var s := Setting(ch, WorkedPts(), goal, height, width, diagonal);
      var chp := arena.nodes[ch].point;
      var ns := GetNeighbors(chp);
      RingFacts(chp);
      assert Around(e0, s, ns);
      successful, useful := false, false;
      for i := 0 to |ns|
        invariant arena.Valid() && Below(workedPoints, |arena.nodes|) && WorkedPts() == s.worked
        invariant View(successful, useful) == Visits(e0, s, ns, i)
      {
        assert Formed(View(successful, useful), s) && arena.nodes[ch].point == chp by {
          VisitsGrown(e0, s, ns, i);
        }
        assert LeavesBut(arena.nodes, searchArea, chp) by {
          VisitsLeaves(e0, s, ns, i);
        }
        assert chp != ns[i];
        successful, useful := VisitNeighbour(ch, ns[i], successful, useful, s);
      }
    }

    /** clear_pathpoint_list: the cells of the nodes hs are reset, a goal
        cell to `[goal]`, a start cell to `[start]`, any other to `[empty]`. */
    method ClearPathPointList(hs: seq<nat>)
      requires Shaped(grid, height, width) && Below(hs, |arena.nodes|) && AllInbounds(NodePoints(arena.nodes))
      modifies this`grid
      ensures grid == ResetAt(old(grid), PointsAt(NodePoints(arena.nodes), hs))
    {
      ghost var pts := PointsAt(NodePoints(arena.nodes), hs);
      for i := 0 to |hs|
        invariant Shaped(grid, height, width)
        invariant forall q :: InGrid(grid, q) ==> Get(grid, q) == Get(ResetAt(old(grid), pts[..i]), q)
      {
        var p := arena.nodes[hs[i]].point;
        assert pts[i] == p;
        assert pts[..i + 1] == pts[..i] + [p];
        ResetIdempotent(Get(old(grid), p).markers);
        var cell := Get(grid, p);
        grid := Put(grid, p, cell.(markers := Reset(cell.markers)));
      }
      assert pts[..|hs|] == pts;
      SameCells(grid, ResetAt(old(grid), pts));
    }

    /** apply_gradient_first_time: along the path, each cell gets a `custom`
        marker and the next colour of the gradient from the start colour in
        |path| equal steps towards the end colour (see Painted and
        GradientApproaches). */
    method ApplyGradientFirstTime()
      requires Shaped(grid, height, width) && AllInbounds(path) && |path| > 0
      modifies this`grid
      ensures grid == Painted(old(grid), path, startColor, Change(startColor, endColor, |path|))
    {
      var change := AddColors(endColor, startColor, true);
      change := Color(change.red / |path|, change.green / |path|, change.blue / |path|);
      var current := startColor;
      for i := 0 to |path|
        invariant SameShape(old(grid), grid)
        invariant grid == Painted(old(grid), path[..i], startColor, change)
        invariant current == Shade(startColor, change, i)
      {
        assert path[..i + 1][..i] == path[..i];
        var cell := AddMarker(Get(grid, path[i]), Custom);
        grid := Put(grid, path[i], SetColor(cell, current));
        current := AddColors(current, change, false);
      }
      assert path[..|path|] == path;
    }

    /** shift_gradient: one pass over the path swapping a carried colour,
        first that of the last cell, with each cell's colour (see Shifted and
        ShiftRotates). */
    method ShiftGradient()
      requires Shaped(grid, height, width) && AllInbounds(path) && |path| > 0
      modifies this`grid
      ensures grid == Shifted(old(grid), path)
    {
      var lastColor := Get(grid, path[|path| - 1]).color;
      ghost var last0 := lastColor;
      for i := 0 to |path|
        invariant (grid, lastColor) == Shifting(old(grid), path, last0, i)
      {
        var c := Get(grid, path[i]).color;
        grid := Put(grid, path[i], Get(grid, path[i]).(color := lastColor));
        lastColor := c;
      }
    }

    /** shift_gradient on the maze's complete path, which has no repeats:
        the path's colours are rotated right by one place. */
    method ShiftPath()
      requires Valid() && pathComplete && Distinct(path)
      modifies this`grid
      ensures Valid()
      ensures unchanged(this`closest, this`searchArea, this`workedPoints, this`isPathFound, this`lastTrackPoint,
        this`path, this`pathComplete, arena)
      ensures grid == Shifted(old(grid), path)
      ensures OnGrid(old(grid), path) && OnGrid(grid, path)
      ensures Colours(grid, path) == RotateRight(Colours(old(grid), path))
    {
      ghost var g0 := grid;
      assert OnGrid(g0, path);
      ShiftKept();
      ShiftRotates(g0, path);
    }

    /** shift_gradient keeps the maze invariant. */
    method ShiftKept()
      requires Valid() && pathComplete
      modifies this`grid
      ensures Valid()
      ensures grid == Shifted(old(grid), path)
    {
      ghost var g0 := grid;
      ShiftGradient();
      ShiftedKeeps(g0, path);
      KeepsUnique(g0, grid, Start, start);
      KeepsUnique(g0, grid, Goal, goal);
    }

    /** backtrack_path while a node is left to trace: its cell is marked
        `confirmed` and appended to the path, and tracing moves to its
        parent. */
    method TraceHop()
      requires Valid() && lastTrackPoint.Some?
      modifies this`grid, this`path, this`lastTrackPoint, this`traceBound
      ensures Valid()
      ensures var n := arena.nodes[old(lastTrackPoint).value];
        path == old(path) + [n.point] && lastTrackPoint == n.parent
        && grid == Put(old(grid), n.point, AddMarker(Get(old(grid), n.point), Confirmed))
      ensures old(Ordered()) && isPathFound && !pathComplete ==> Ordered()
    {
      ghost var ordered := Ordered() && isPathFound && !pathComplete;
      ghost var track0, path0, bound0 := lastTrackPoint, path, traceBound;
      MarkHop();
      if ordered {
        HopOrdered(track0, path0, bound0);
      }
    }

    /** The hop itself: the node's cell is marked, its point appended, and
        traceBound moved to the node's place in the closed list. */
    method MarkHop()
      requires Valid() && lastTrackPoint.Some?
      modifies this`grid, this`path, this`lastTrackPoint, this`traceBound
      ensures Valid()
      ensures var n := arena.nodes[old(lastTrackPoint).value];
        path == old(path) + [n.point] && lastTrackPoint == n.parent
        && grid == Put(old(grid), n.point, AddMarker(Get(old(grid), n.point), Confirmed))
      ensures traceBound == HopBound(workedPoints, old(lastTrackPoint), old(path))
    {
      var h := lastTrackPoint.value;
      var p := arena.nodes[h].point;
      assert NodePoints(arena.nodes)[h] == p;
      ghost var g0 := grid;
      AddMarkerKeeps(grid, p, Confirmed);
      grid := Put(grid, p, AddMarker(Get(grid, p), Confirmed));
      KeepsUnique(g0, grid, Start, start);
      KeepsUnique(g0, grid, Goal, goal);
      traceBound := HopBound(workedPoints, lastTrackPoint, path);
      path := path + [p];
      lastTrackPoint := arena.nodes[h].parent;
    }

    /** A hop keeps the order: see HopTraced. */
    lemma HopOrdered(track0: Option<nat>, path0: seq<Point>, bound0: nat)
      requires Frontier() && Ranked(arena.nodes, searchArea, workedPoints) && isPathFound && !pathComplete
      requires Traced(arena.nodes, workedPoints, true, track0, goal, path0, false, bound0)
      requires track0.Some? && track0.value < |arena.nodes|
      requires path == path0 + [arena.nodes[track0.value].point] && lastTrackPoint == arena.nodes[track0.value].parent
      requires traceBound == HopBound(workedPoints, track0, path0)
      ensures Ordered()
    {
      assert goal !in WorkedPts() by {
        assert goal !in SearchPts() + WorkedPts();
      }
      HopTraced(arena.nodes, searchArea, workedPoints, track0, goal, path0, bound0);
    }

    /** backtrack_path once tracing has ended: the path is complete and
        reversed (so it runs from the start side to the goal), the search's
        cells are cleared and the gradient is painted along the path. */
    method TraceEnd()
      requires Valid() && |path| > 0
      modifies this`grid, this`path, this`pathComplete
      ensures Valid()
      ensures pathComplete && path == Reverse(old(path))
      ensures grid == Painted(Cleared(old(grid), SearchPts() + WorkedPts(), start), path, startColor,
                              Change(startColor, endColor, |path|))
      ensures old(Ordered()) && isPathFound ==> Ordered()
    {
      CompletePath();
      PaintPath();
    }

    /** The path becomes complete and is reversed. */
    method CompletePath()
      requires Valid() && |path| > 0
      modifies this`path, this`pathComplete
      ensures Valid()
      ensures pathComplete && path == Reverse(old(path))
      ensures old(Ordered()) && isPathFound ==> Ordered()
    {
      ghost var ordered := Ordered() && isPathFound;
      ghost var path0, complete0 := path, pathComplete;
      pathComplete := true;
      path := Reverse(path);
      if ordered {
        EndTraced(arena.nodes, workedPoints, lastTrackPoint, goal, path0, complete0, traceBound);
      }
    }

    /** clear_pathfind, then apply_gradient_first_time. */
    method PaintPath()
      requires Valid() && |path| > 0
      modifies this`grid
      ensures Valid()
      ensures grid == Painted(Cleared(old(grid), SearchPts() + WorkedPts(), start), path, startColor,
                              Change(startColor, endColor, |path|))
    {
      ClearSearch();
      PaintGradient();
    }

    /** clear_pathfind keeps the maze invariant. */
    method ClearSearch()
      requires Valid()
      modifies this`grid
      ensures Valid()
      ensures grid == Cleared(old(grid), SearchPts() + WorkedPts(), start)
    {
      ghost var g0 := grid;
      ClearPathfind();
      ClearedUnique(g0, SearchPts() + WorkedPts(), start, goal);
    }

    /** apply_gradient_first_time keeps the maze invariant. */
    method PaintGradient()
      requires Valid() && |path| > 0
      modifies this`grid
      ensures Valid()
      ensures grid == Painted(old(grid), path, startColor, Change(startColor, endColor, |path|))
    {
      ghost var g0 := grid;
      ApplyGradientFirstTime();
      PaintedKeeps(g0, path, startColor, Change(startColor, endColor, |path|));
      KeepsUnique(g0, grid, Start, start);
      KeepsUnique(g0, grid, Goal, goal);
    }

    /** backtrack_path: one hop along the parent links per call, then, once
        they run out, the end above. The source divides by the path's length
        at the end, so an empty path there is excluded. */
    method BacktrackPath()
      requires Valid() && (lastTrackPoint.None? ==> |path| > 0)
      modifies this`grid, this`path, this`lastTrackPoint, this`pathComplete, this`traceBound
      ensures Valid()
      ensures old(Ordered()) && isPathFound && !old(pathComplete) ==> Ordered()
      ensures old(lastTrackPoint).Some? ==>
        var n := arena.nodes[old(lastTrackPoint).value];
        path == old(path) + [n.point] && lastTrackPoint == n.parent && pathComplete == old(pathComplete)
        && grid == Put(old(grid), n.point, AddMarker(Get(old(grid), n.point), Confirmed))
      ensures old(lastTrackPoint).None? ==>
        pathComplete && lastTrackPoint.None? && path == Reverse(old(path))
        && grid == Painted(Cleared(old(grid), SearchPts() + WorkedPts(), start), path, startColor,
                           Change(startColor, endColor, |path|))
    {
      if lastTrackPoint.Some? {
        TraceHop();
      } else {
        TraceEnd();
      }
    }

    /** What a call of backtrack_path on an incomplete path leaves, from the
        path, last track point and grid it found: a hop to the parent of the
        node the last track point names (that node's point appended to the
        path and its cell marked confirmed), or, once the links have run out,
        the path completed, reversed, and painted over the cleared search. */
    ghost predicate Backtracked(path0: seq<Point>, track0: Option<nat>, grid0: Grid)
      reads this`path, this`lastTrackPoint, this`pathComplete, this`grid, this`searchArea, this`workedPoints,
        this`start, arena
    {
      match track0
      case Some(t) =>
        t < |arena.nodes| && InGrid(grid0, arena.nodes[t].point) &&
        path == path0 + [arena.nodes[t].point] && lastTrackPoint == arena.nodes[t].parent && !pathComplete &&
        grid == Put(grid0, arena.nodes[t].point, AddMarker(Get(grid0, arena.nodes[t].point), Confirmed))
      case None =>
        Below(searchArea, |arena.nodes|) && Below(workedPoints, |arena.nodes|) && |path| > 0 &&
        OnGrid(Cleared(grid0, SearchPts() + WorkedPts(), start), path) &&
        pathComplete && lastTrackPoint.None? && path == Reverse(path0) &&
        grid == Painted(Cleared(grid0, SearchPts() + WorkedPts(), start), path, startColor,
                        Change(startColor, endColor, |path|))
    }

    /** next_step: while the solver is working, a step of Advance, otherwise
        nothing. */
    method NextStep()
      requires Valid() && Ordered()
      modifies this`grid, this`closest, this`searchArea, this`workedPoints, this`isPathFound, this`lastTrackPoint,
        arena, this`path, this`pathComplete, this`traceBound
      ensures Valid() && Ordered()
      ensures !old(working) ==> unchanged(this`grid, this`closest, this`searchArea, this`workedPoints, this`isPathFound,
        this`lastTrackPoint, arena, this`path, this`pathComplete, this`traceBound)
      ensures old(working) && !old(isPathFound) ==>
        Snapshot() == Step(old(Snapshot()), Fixed()) && path == old(path) && pathComplete == old(pathComplete)
      ensures old(working) && old(isPathFound && !pathComplete) ==>
        unchanged(this`closest, this`searchArea, this`workedPoints, this`isPathFound, arena)
        && Backtracked(old(path), old(lastTrackPoint), old(grid))
      ensures old(working) && old(isPathFound && pathComplete) ==>
        unchanged(this`closest, this`searchArea, this`workedPoints, this`isPathFound, this`lastTrackPoint,
          this`path, this`pathComplete, arena)
        && grid == Shifted(old(grid), path)
    {
      if working {
        Advance();
      }
    }

    /** The body of next_step while the solver is working: a search step
        until a path is found, then a tracing step until the path is
        complete, then a rotation of the path's colours. */
    method Advance()
      requires Valid() && Ordered()
      modifies this`grid, this`closest, this`searchArea, this`workedPoints, this`isPathFound, this`lastTrackPoint,
        arena, this`path, this`pathComplete, this`traceBound
      ensures Valid() && Ordered()
      ensures !old(isPathFound) ==>
        Snapshot() == Step(old(Snapshot()), Fixed()) && path == old(path) && pathComplete == old(pathComplete)
      ensures old(isPathFound && !pathComplete) ==>
        unchanged(this`closest, this`searchArea, this`workedPoints, this`isPathFound, arena)
        && Backtracked(old(path), old(lastTrackPoint), old(grid))
      ensures old(isPathFound && pathComplete) ==>
        unchanged(this`closest, this`searchArea, this`workedPoints, this`isPathFound, this`lastTrackPoint,
          this`path, this`pathComplete, arena)
        && grid == Shifted(old(grid), path)
    {
      if !isPathFound {
        FindPath();
      } else {
        Conclude();
      }
    }

    /** next_step once a path is found: a tracing step until the path is
        complete, then a rotation of its colours. */
    method Conclude()
      requires Valid() && isPathFound && Ordered()
      modifies this`grid, this`lastTrackPoint, this`path, this`pathComplete, this`traceBound
      ensures Valid() && Ordered()
      ensures unchanged(this`closest, this`searchArea, this`workedPoints, this`isPathFound, arena)
      ensures !old(pathComplete) ==> Backtracked(old(path), old(lastTrackPoint), old(grid))
      ensures old(pathComplete) ==>
        unchanged(this`lastTrackPoint, this`path, this`pathComplete) && grid == Shifted(old(grid), path)
        && OnGrid(old(grid), path) && OnGrid(grid, path) && Colours(grid, path) == RotateRight(Colours(old(grid), path))
    {
      if !pathComplete {
        Retrace();
      } else {
        assert Distinct(path);
        ShiftPath();
      }
    }

    /** Conclude's tracing step, on an incomplete path. */
    method Retrace()
      requires Valid() && isPathFound && Ordered() && !pathComplete
      modifies this`grid, this`lastTrackPoint, this`path, this`pathComplete, this`traceBound
      ensures Valid() && Ordered()
      ensures unchanged(this`closest, this`searchArea, this`workedPoints, this`isPathFound, arena)
      ensures Backtracked(old(path), old(lastTrackPoint), old(grid))
    {
      BacktrackPath();
    }

    /** is_cell_drawable. */
    predicate IsCellDrawable(p: Point)
      reads this`grid, this`lastChanged
      requires Shaped(grid, height, width)
    {
      IsPointInbounds(p) && Goal !in Get(grid, p).markers && Start !in Get(grid, p).markers
      && lastChanged.Some? && lastChanged.value != p
    }

    /** A drawable cell is neither the start nor the goal. */
    lemma DrawableIsNotStartOrGoal(p: Point)
      requires Valid() && IsCellDrawable(p)
      ensures p != start && p != goal
    {
      assert Count(grid, start, Start) == 1 && Count(grid, goal, Goal) == 1;
      OccurrencesIn(Get(grid, p).markers, Start);
      OccurrencesIn(Get(grid, p).markers, Goal);
    }

    /** The cell at p, neither start nor goal, gets markers without a start or
        goal marker. */
    method SetMarkers(p: Point, ms: seq<Marker>)
      requires Valid() && IsPointInbounds(p) && p != start && p != goal && Start !in ms && Goal !in ms
      modifies this`grid
      ensures Valid()
      ensures grid == Put(old(grid), p, Get(old(grid), p).(markers := ms))
    {
      PutOtherUnique(grid, p, Get(grid, p).(markers := ms), Start, start);
      PutOtherUnique(grid, p, Get(grid, p).(markers := ms), Goal, goal);
      grid := Put(grid, p, Get(grid, p).(markers := ms));
    }

    /** draw_cell: a drawable cell becomes `[wall]`; the cell is remembered as
        the last one changed either way. */
    method DrawCell(p: Point)
      requires Valid()
      modifies this`grid, this`lastChanged
      ensures Valid()
      ensures lastChanged == Some(p)
      ensures grid == if old(IsCellDrawable(p)) then Put(old(grid), p, Get(old(grid), p).(markers := [Wall])) else old(grid)
      ensures old(lastChanged).None? || old(lastChanged) == Some(p) ==> grid == old(grid)
      ensures Get(grid, start) == Get(old(grid), start) && Get(grid, goal) == Get(old(grid), goal)
    {
      if IsCellDrawable(p) {
        DrawableIsNotStartOrGoal(p);
        SetMarkers(p, [Wall]);
      }
      lastChanged := Some(p);
    }

    /** clear_cell: a drawable cell becomes `[empty]`; the cell is remembered
        as the last one changed either way. */
    method ClearCell(p: Point)
      requires Valid()
      modifies this`grid, this`lastChanged
      ensures Valid()
      ensures lastChanged == Some(p)
      ensures grid == if old(IsCellDrawable(p)) then Put(old(grid), p, Get(old(grid), p).(markers := [Empty])) else old(grid)
      ensures old(lastChanged).None? || old(lastChanged) == Some(p) ==> grid == old(grid)
      ensures Get(grid, start) == Get(old(grid), start) && Get(grid, goal) == Get(old(grid), goal)
    {
      if IsCellDrawable(p) {
        DrawableIsNotStartOrGoal(p);
        SetMarkers(p, [Empty]);
      }
      lastChanged := Some(p);
    }
  }
}
