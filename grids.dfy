/** The maze's `map`: rows of cells, addressed by Point (test.py's
    get_point), with the value-level edits the Maze methods make on it. */
module Grids {
  import opened Cells

  type Grid = seq<seq<Cell>>

  predicate InGrid(g: Grid, p: Point) {
    0 <= p.row < |g| && 0 <= p.col < |g[p.row]|
  }

  /** is_point_inbounds for a field of the given size. */
  predicate Inside(p: Point, height: int, width: int) {
    0 <= p.row < height && 0 <= p.col < width
  }

  /** Every point of the list is inside the field. */
  predicate AllInside(ps: seq<Point>, height: int, width: int) {
    forall i :: 0 <= i < |ps| ==> Inside(ps[i], height, width)
  }

  predicate Shaped(g: Grid, height: nat, width: nat) {
    |g| == height && forall r :: 0 <= r < |g| ==> |g[r]| == width
  }

  predicate SameShape(g0: Grid, g1: Grid) {
    |g1| == |g0| && forall r :: 0 <= r < |g0| ==> |g1[r]| == |g0[r]|
  }

  /** get_point. */
  function Get(g: Grid, p: Point): Cell
    requires InGrid(g, p)
  {
    g[p.row][p.col]
  }

  /** The grid with the cell at p replaced. */
  function Put(g: Grid, p: Point, c: Cell): (r: Grid)
    requires InGrid(g, p)
    ensures SameShape(g, r)
    ensures forall q {:trigger Get(r, q)} :: InGrid(g, q) ==> Get(r, q) == if q == p then c else Get(g, q)
  {
    g[p.row := g[p.row][p.col := c]]
  }

  /** generate_field: every cell holds just `empty` and no colour. */
  function EmptyField(height: nat, width: nat): (g: Grid)
    ensures Shaped(g, height, width)
    ensures forall q :: InGrid(g, q) ==> Get(g, q) == Cell([Empty], None)
  {
    seq(height, _ => seq(width, _ => Cell([Empty], None)))
  }

  /** A fresh field holds no start, goal or wall marker and no colour. */
  lemma EmptyFieldBlank(height: nat, width: nat)
    ensures Shaped(EmptyField(height, width), height, width)
    ensures Absent(EmptyField(height, width), Start) && Absent(EmptyField(height, width), Goal)
    ensures Absent(EmptyField(height, width), Wall)
    ensures forall q :: InGrid(EmptyField(height, width), q) ==> Get(EmptyField(height, width), q).color.None?
  {
    var g := EmptyField(height, width);
    forall q | InGrid(g, q)
      ensures Count(g, q, Start) == 0 && Count(g, q, Goal) == 0 && Count(g, q, Wall) == 0
    {
      OccurrencesOne(Empty, Start);
      OccurrencesOne(Empty, Goal);
      OccurrencesOne(Empty, Wall);
    }
  }

  /** remove_if_marker: drops the first `m` of the cell at p, if it has one. */
  function RemoveIfMarker(g: Grid, p: Point, m: Marker): (r: Grid)
    requires InGrid(g, p)
    ensures SameShape(g, r)
    ensures Get(r, p).color == Get(g, p).color
    ensures m in Get(g, p).markers ==> Get(r, p).markers == RemoveFirst(Get(g, p).markers, m)
    ensures m !in Get(g, p).markers ==> r == g
    ensures forall q {:trigger Get(r, q)} :: InGrid(g, q) && q != p ==> Get(r, q) == Get(g, q)
  {
    var c := Get(g, p);
    if m in c.markers then Put(g, p, c.(markers := RemoveFirst(c.markers, m))) else g
  }

  /** Number of `m` markers on the cell at q. */
  function Count(g: Grid, q: Point, m: Marker): nat
    requires InGrid(g, q)
  {
    Occurrences(Get(g, q).markers, m)
  }

  /** Exactly one marker `m` in the whole grid, on the cell at p. */
  ghost predicate Unique(g: Grid, m: Marker, p: Point) {
    InGrid(g, p) && forall q :: InGrid(g, q) ==> Count(g, q, m) == if q == p then 1 else 0
  }

  /** No cell carries `m`. */
  ghost predicate Absent(g: Grid, m: Marker) {
    forall q :: InGrid(g, q) ==> Count(g, q, m) == 0
  }

  /** g1 has g0's shape and the same number of `m` markers on every cell. */
  ghost predicate SameCount(g0: Grid, g1: Grid, m: Marker) {
    SameShape(g0, g1) && forall q :: InGrid(g0, q) ==> Count(g1, q, m) == Count(g0, q, m)
  }

  /** An edit that leaves start, goal and wall markers where they were. */
  ghost predicate Keeps(g0: Grid, g1: Grid) {
    SameCount(g0, g1, Start) && SameCount(g0, g1, Goal) && SameCount(g0, g1, Wall)
  }

  lemma KeepsRefl(g: Grid)
    ensures Keeps(g, g)
  {
  }

  lemma KeepsTrans(g0: Grid, g1: Grid, g2: Grid)
    requires Keeps(g0, g1) && Keeps(g1, g2)
    ensures Keeps(g0, g2)
  {
  }

  lemma KeepsUnique(g0: Grid, g1: Grid, m: Marker, p: Point)
    requires SameCount(g0, g1, m) && Unique(g0, m, p)
    ensures Unique(g1, m, p)
  {
  }

  /** Replacing one cell by one with as many start, goal and wall markers. */
  lemma PutKeeps(g: Grid, p: Point, c: Cell)
    requires InGrid(g, p)
    requires Occurrences(c.markers, Start) == Count(g, p, Start)
    requires Occurrences(c.markers, Goal) == Count(g, p, Goal)
    requires Occurrences(c.markers, Wall) == Count(g, p, Wall)
    ensures Keeps(g, Put(g, p, c))
  {
  }

  /** Replacing a cell other than s by one without `m` keeps `m` unique at s. */
  lemma PutOtherUnique(g: Grid, p: Point, c: Cell, m: Marker, s: Point)
    requires Unique(g, m, s) && InGrid(g, p) && p != s && m !in c.markers
    ensures Unique(Put(g, p, c), m, s)
  {
    OccurrencesIn(c.markers, m);
  }

  /** add_marker of anything but start, goal or wall. */
  lemma AddMarkerKeeps(g: Grid, p: Point, m: Marker)
    requires InGrid(g, p) && m != Start && m != Goal && m != Wall
    ensures Keeps(g, Put(g, p, AddMarker(Get(g, p), m)))
  {
    var ms := Get(g, p).markers;
    OccurrencesAppend(ms, [m], Start);
    OccurrencesAppend(ms, [m], Goal);
    OccurrencesAppend(ms, [m], Wall);
    PutKeeps(g, p, AddMarker(Get(g, p), m));
  }

  /** remove_if_marker of anything but start, goal or wall. */
  lemma RemoveKeeps(g: Grid, p: Point, m: Marker)
    requires InGrid(g, p) && m != Start && m != Goal && m != Wall
    ensures Keeps(g, RemoveIfMarker(g, p, m))
  {
    var ms := Get(g, p).markers;
    if m in ms {
      RemoveFirstCounts(ms, m, Start);
      RemoveFirstCounts(ms, m, Goal);
      RemoveFirstCounts(ms, m, Wall);
      PutKeeps(g, p, Get(g, p).(markers := RemoveFirst(ms, m)));
    }
  }

  /** The colours of the cells at ps, in order. */
  function Colours(g: Grid, ps: seq<Point>): (r: seq<Option<Color>>)
    requires forall i :: 0 <= i < |ps| ==> InGrid(g, ps[i])
    ensures |r| == |ps|
    ensures forall i :: 0 <= i < |ps| ==> r[i] == Get(g, ps[i]).color
  {
    seq(|ps|, i requires 0 <= i < |ps| => Get(g, ps[i]).color)
  }

  /** clear_pathpoint_list's rule for one cell: a goal keeps only its goal
      marker, a start only its start marker, anything else becomes empty. */
  function Reset(markers: seq<Marker>): (r: seq<Marker>)
    ensures Goal in markers ==> r == [Goal]
    ensures Goal !in markers && Start in markers ==> r == [Start]
    ensures Goal !in markers && Start !in markers ==> r == [Empty]
  {
    if Goal in markers then [Goal] else if Start in markers then [Start] else [Empty]
  }

  /** Resetting twice is resetting once. */
  lemma ResetIdempotent(markers: seq<Marker>)
    ensures Reset(Reset(markers)) == Reset(markers)
  {
  }

  /** Grids with the same shape and the same cells are equal. */
  lemma SameCells(g0: Grid, g1: Grid)
    requires SameShape(g0, g1)
    requires forall q :: InGrid(g0, q) ==> Get(g0, q) == Get(g1, q)
    ensures g0 == g1
  {
    forall r | 0 <= r < |g0|
      ensures g0[r] == g1[r]
    {
      forall c | 0 <= c < |g0[r]|
        ensures g0[r][c] == g1[r][c]
      {
        assert InGrid(g0, Point(r, c));
      }
    }
  }

  /** clear_pathfind's effect on the grid: every cell at a point of ps other
      than s has its markers replaced by `[empty]`, keeping its colour. */
  function Cleared(g: Grid, ps: seq<Point>, s: Point): (r: Grid)
    ensures SameShape(g, r)
    ensures forall q {:trigger Get(r, q)} :: InGrid(g, q) ==>
      Get(r, q) == if q != s && q in ps then Get(g, q).(markers := [Empty]) else Get(g, q)
  {
    seq(|g|, i requires 0 <= i < |g| =>
      seq(|g[i]|, j requires 0 <= j < |g[i]| =>
        if Point(i, j) != s && Point(i, j) in ps then g[i][j].(markers := [Empty]) else g[i][j]))
  }

  /** Clearing one list and then another is clearing both at once. */
  lemma ClearedTwice(g: Grid, a: seq<Point>, b: seq<Point>, s: Point)
    ensures Cleared(Cleared(g, a, s), b, s) == Cleared(g, a + b, s)
  {
    SameCells(Cleared(Cleared(g, a, s), b, s), Cleared(g, a + b, s));
  }

  /** Clearing is idempotent. */
  lemma ClearedIdempotent(g: Grid, ps: seq<Point>, s: Point)
    ensures Cleared(Cleared(g, ps, s), ps, s) == Cleared(g, ps, s)
  {
    SameCells(Cleared(Cleared(g, ps, s), ps, s), Cleared(g, ps, s));
  }

  /** Clearing spares the start cell s and a goal cell t outside ps, so both
      markers stay unique. */
  lemma ClearedUnique(g: Grid, ps: seq<Point>, s: Point, t: Point)
    requires Unique(g, Start, s) && Unique(g, Goal, t) && t !in ps
    ensures Unique(Cleared(g, ps, s), Start, s) && Unique(Cleared(g, ps, s), Goal, t)
  {
    var r := Cleared(g, ps, s);
    forall q | InGrid(r, q)
      ensures Count(r, q, Start) == (if q == s then 1 else 0)
      ensures Count(r, q, Goal) == (if q == t then 1 else 0)
    {
      assert InGrid(g, q);
      if q != s && q in ps {
        assert Get(r, q).markers == [Empty];
      }
    }
  }

  /** clear_pathpoint_list's effect: every cell at a point of ps has its
      markers reset by the rule above, keeping its colour. */
  function ResetAt(g: Grid, ps: seq<Point>): (r: Grid)
    ensures SameShape(g, r)
    ensures forall q {:trigger Get(r, q)} :: InGrid(g, q) ==>
      Get(r, q) == if q in ps then Get(g, q).(markers := Reset(Get(g, q).markers)) else Get(g, q)
  {
    seq(|g|, i requires 0 <= i < |g| =>
      seq(|g[i]|, j requires 0 <= j < |g[i]| =>
        if Point(i, j) in ps then g[i][j].(markers := Reset(g[i][j].markers)) else g[i][j]))
  }

  /** Resetting a list of cells twice is resetting them once. */
  lemma ResetAtIdempotent(g: Grid, ps: seq<Point>)
    ensures ResetAt(ResetAt(g, ps), ps) == ResetAt(g, ps)
  {
    forall q | InGrid(g, q)
      ensures Get(ResetAt(ResetAt(g, ps), ps), q) == Get(ResetAt(g, ps), q)
    {
      ResetIdempotent(Get(g, q).markers);
    }
    SameCells(ResetAt(ResetAt(g, ps), ps), ResetAt(g, ps));
  }

  /** A reset cell holds exactly one marker, never a wall: the start and the
      goal keep their markers (so both stay unique) and everything else the
      search or the editor put there is gone. */
  lemma ResetAtUnique(g: Grid, ps: seq<Point>, s: Point, t: Point)
    requires Unique(g, Start, s) && Unique(g, Goal, t) && s != t
    ensures Unique(ResetAt(g, ps), Start, s) && Unique(ResetAt(g, ps), Goal, t)
    ensures forall q :: InGrid(g, q) && q in ps ==> |Get(ResetAt(g, ps), q).markers| == 1
    ensures forall q :: InGrid(g, q) && q in ps ==> Wall !in Get(ResetAt(g, ps), q).markers
  {
    var r := ResetAt(g, ps);
    forall q | InGrid(r, q)
      ensures Count(r, q, Start) == (if q == s then 1 else 0)
      ensures Count(r, q, Goal) == (if q == t then 1 else 0)
    {
      assert InGrid(g, q);
      var ms := Get(g, q).markers;
      OccurrencesIn(ms, Start);
      OccurrencesIn(ms, Goal);
      OccurrencesOne(Goal, Start);
      OccurrencesOne(Goal, Goal);
      OccurrencesOne(Start, Start);
      OccurrencesOne(Start, Goal);
      OccurrencesOne(Empty, Start);
      OccurrencesOne(Empty, Goal);
    }
  }
}
