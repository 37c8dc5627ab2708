/** Grid coordinates, colours and cell markers of the pathfinder (test.py),
    with the small list helpers the maze needs (Python's list.remove and
    slicing with a step of -1). */
module Cells {

  datatype Option<T> = None | Some(value: T)

  // ---------------------------------------------------------------------
  // Colours

  /** An RGB triple; components are unbounded integers, as in Python. */
  datatype Color = Color(red: int, green: int, blue: int)

  /** add_colors: componentwise sum, or difference when `subtract` is set. */
  function AddColors(c1: Color, c2: Color, subtract: bool): (r: Color)
    ensures !subtract ==> r.red - c1.red == c2.red && r.green - c1.green == c2.green && r.blue - c1.blue == c2.blue
    ensures subtract ==> c1.red - r.red == c2.red && c1.green - r.green == c2.green && c1.blue - r.blue == c2.blue
  {
    var d := if subtract then Color(-c2.red, -c2.green, -c2.blue) else c2;
    Color(c1.red + d.red, c1.green + d.green, c1.blue + d.blue)
  }

  /** Adding and then subtracting the same colour (in either order) is the identity. */
  lemma AddColorsRoundTrip(c1: Color, c2: Color, subtract: bool)
    ensures AddColors(AddColors(c1, c2, subtract), c2, !subtract) == c1
  {
  }

  // ---------------------------------------------------------------------
  // Markers and cells

  /** The Marker enumeration; `custom` marks a cell whose colour is set. */
  datatype Marker = Empty | Wall | Start | Goal | Path | Confirmed | Wrong | CurrentClosest | Custom

  /** What a grid Point carries besides its coordinates: its marker list and
      the colour Python keeps as `None` until set_color is called. */
  datatype Cell = Cell(markers: seq<Marker>, color: Option<Color>)

  /** set_color: only a cell marked `custom` takes a colour (Python raises
      TypeError otherwise). */
  function SetColor(c: Cell, color: Color): (r: Cell)
    requires Custom in c.markers
    ensures r.color == Some(color) && r.markers == c.markers
  {
    c.(color := Some(color))
  }

  /** add_marker: the marker goes to the end of the list. */
  function AddMarker(c: Cell, m: Marker): (r: Cell)
    ensures r.markers == c.markers + [m] && r.color == c.color
  {
    c.(markers := c.markers + [m])
  }

  /** set_color only recolours: the cell stays `custom`, so it can be
      recoloured again, the last colour set wins, and no marker changes. */
  lemma SetColorOverwrites(c: Cell, a: Color, b: Color)
    requires Custom in c.markers
    ensures Custom in SetColor(c, a).markers
    ensures SetColor(SetColor(c, a), b) == SetColor(c, b)
    ensures forall x :: Occurrences(SetColor(c, a).markers, x) == Occurrences(c.markers, x)
  {
  }

  /** add_marker adds one `m` and leaves the count of every other marker,
      and the colour, as they were. */
  lemma AddMarkerCounts(c: Cell, m: Marker, x: Marker)
    ensures Occurrences(AddMarker(c, m).markers, x) == Occurrences(c.markers, x) + (if x == m then 1 else 0)
    ensures AddMarker(c, m).color == c.color
    ensures AddMarker(c, m).markers[|c.markers|] == m
  {
    OccurrencesSnoc(c.markers, m, x);
  }

  // ---------------------------------------------------------------------
  // Coordinates

  /** The coordinates of a Point; Point.__eq__ compares exactly these. */
  datatype Point = Point(row: int, col: int)

  function Abs(x: int): (r: nat)
    ensures r == x || r == -x
  {
    if x < 0 then -x else x
  }

  /** get_manh_distance. */
  function ManhattanDistance(p: Point, q: Point): (d: nat)
    ensures d == 0 <==> p == q
    ensures d >= Abs(q.row - p.row) && d >= Abs(q.col - p.col)
  {
    Abs(q.row - p.row) + Abs(q.col - p.col)
  }

  /** The distance is a metric: symmetric and obeying the triangle inequality. */
  lemma ManhattanMetric(p: Point, q: Point, s: Point)
    ensures ManhattanDistance(p, q) == ManhattanDistance(q, p)
    ensures ManhattanDistance(p, s) <= ManhattanDistance(p, q) + ManhattanDistance(q, s)
  {
  }

  /** q is one of the eight cells around p. */
  predicate IsNeighbour(p: Point, q: Point) {
    q != p && Abs(q.row - p.row) <= 1 && Abs(q.col - p.col) <= 1
  }

  /** Row-major order, the order in which get_neighbors produces points. */
  predicate Precedes(a: Point, b: Point) {
    a.row < b.row || (a.row == b.row && a.col < b.col)
  }

  /** A neighbour is at distance 1 when it shares a row or a column with p,
      and at distance 2 (a diagonal step) otherwise. */
  lemma {:induction false} NeighbourDistance(p: Point, q: Point)
    requires IsNeighbour(p, q)
    ensures ManhattanDistance(p, q) == 1 || ManhattanDistance(p, q) == 2
    ensures ManhattanDistance(p, q) == 2 <==> (q.row != p.row && q.col != p.col)
  {
  }

  /** The eight neighbours of p in row-major order. */
  function Ring(p: Point): seq<Point> {
    [Point(p.row - 1, p.col - 1), Point(p.row - 1, p.col), Point(p.row - 1, p.col + 1),
     Point(p.row, p.col - 1), Point(p.row, p.col + 1),
     Point(p.row + 1, p.col - 1), Point(p.row + 1, p.col), Point(p.row + 1, p.col + 1)]
  }

  /** How many neighbours come before offset (dRow, dCol) in row-major order. */
  function Slots(dRow: int, dCol: int): int {
    3 * (dRow + 1) + (dCol + 1) - (if dRow > 0 || (dRow == 0 && dCol > 0) then 1 else 0)
  }

  lemma RingAt(p: Point, dRow: int, dCol: int)
    requires -1 <= dRow <= 1 && -1 <= dCol <= 1 && (dRow != 0 || dCol != 0)
    ensures 0 <= Slots(dRow, dCol) < 8
    ensures Ring(p)[Slots(dRow, dCol)] == Point(p.row + dRow, p.col + dCol)
  {
  }

  lemma {:induction false} RingFacts(p: Point)
    ensures |Ring(p)| == 8
    ensures forall i, j :: 0 <= i < j < 8 ==> Precedes(Ring(p)[i], Ring(p)[j])
    ensures forall q :: q in Ring(p) <==> IsNeighbour(p, q)
  {
    forall q | IsNeighbour(p, q)
      ensures q in Ring(p)
    {
      var dRow, dCol := q.row - p.row, q.col - p.col;
      RingAt(p, dRow, dCol);
      assert q == Ring(p)[Slots(dRow, dCol)];
    }
  }

  /** get_neighbors: the eight surrounding points, row by row. */
  method GetNeighbors(p: Point) returns (ns: seq<Point>)
    ensures |ns| == 8
    ensures forall i, j :: 0 <= i < j < |ns| ==> Precedes(ns[i], ns[j])
    ensures forall i, j :: 0 <= i < j < |ns| ==> ns[i] != ns[j]
    ensures forall q :: q in ns <==> IsNeighbour(p, q)
    ensures ns == Ring(p)
  {
    ns := [];
    for dRow := -1 to 2
      invariant ns == Ring(p)[..Slots(dRow, -1)]
    {
      for dCol := -1 to 2
        invariant ns == Ring(p)[..Slots(dRow, dCol)]
      {
        if dRow != 0 || dCol != 0 {
          RingAt(p, dRow, dCol);
          ns := ns + [Point(p.row + dRow, p.col + dCol)];
        }
      }
    }
    RingFacts(p);
    assert ns == Ring(p);
  }

  // ---------------------------------------------------------------------
  // List helpers

  /** Position of the first element equal to x. */
  function IndexOf<T(==)>(s: seq<T>, x: T): (i: nat)
    requires x in s
    ensures i < |s| && s[i] == x && x !in s[..i]
  {
    if s[0] == x then 0 else 1 + IndexOf(s[1..], x)
  }

  /** The elements of a concatenation are those of its parts. */
  lemma ConcatIn<T>(a: seq<T>, b: seq<T>)
    ensures forall x :: x in a + b <==> x in a || x in b
  {
    forall x | x in b
      ensures x in a + b
    {
      var i :| 0 <= i < |b| && b[i] == x;
      assert (a + b)[|a| + i] == x;
    }
  }

  /** Removing position k, inside a, from a concatenation without repeats. */
  lemma ConcatRemove<T>(a: seq<T>, b: seq<T>, k: nat)
    requires Distinct(a + b) && k < |a|
    ensures forall x :: x in (a + b)[..k] + (a + b)[k + 1..] <==> (x in a || x in b) && x != a[k]
  {
    var s := a + b;
    assert s[k] == a[k];
    DistinctRemove(s, k);
    ConcatIn(a, b);
    forall x
      ensures x in s[..k] + s[k + 1..] <==> (x in a || x in b) && x != a[k]
    {
      assert x in s <==> x in a || x in b;
    }
  }

  /** In a list without repeats the element at i is first found at i. */
  lemma IndexOfDistinct<T>(s: seq<T>, i: nat)
    requires Distinct(s) && i < |s|
    ensures IndexOf(s, s[i]) == i
  {
    var k := IndexOf(s, s[i]);
    assert s[k] == s[i];
  }

  /** list.pop(k) on a list without repeats: what remains has no repeats and
      holds every element but the one removed. */
  lemma DistinctRemove<T>(s: seq<T>, k: nat)
    requires Distinct(s) && k < |s|
    ensures Distinct(s[..k] + s[k + 1..])
    ensures forall x :: x in s[..k] + s[k + 1..] <==> x in s && x != s[k]
  {
    var r := s[..k] + s[k + 1..];
    assert forall i :: 0 <= i < |r| ==> r[i] == s[if i < k then i else i + 1];
    forall x | x in s && x != s[k]
      ensures x in r
    {
      var i :| 0 <= i < |s| && s[i] == x;
      assert r[if i < k then i else i - 1] == x;
    }
  }

  /** list.count: the number of elements equal to x. */
  function Occurrences<T(==)>(s: seq<T>, x: T): nat
  {
    if |s| == 0 then 0 else (if s[0] == x then 1 else 0) + Occurrences(s[1..], x)
  }

  lemma {:induction false} OccurrencesAppend<T>(s: seq<T>, t: seq<T>, x: T)
    ensures Occurrences(s + t, x) == Occurrences(s, x) + Occurrences(t, x)
  {
    if |s| == 0 {
      assert s + t == t;
    } else {
      assert (s + t)[1..] == s[1..] + t;
      OccurrencesAppend(s[1..], t, x);
    }
  }

  lemma OccurrencesOne<T>(x: T, y: T)
    ensures Occurrences([x], y) == if x == y then 1 else 0
  {
    assert [x][1..] == [];
  }

  lemma OccurrencesSnoc<T>(s: seq<T>, x: T, y: T)
    ensures Occurrences(s + [x], y) == Occurrences(s, y) + (if x == y then 1 else 0)
  {
    OccurrencesAppend(s, [x], y);
    assert [x][1..] == [];
  }

  /** An element occurs when it is counted at least once. */
  lemma {:induction false} OccurrencesIn<T>(s: seq<T>, x: T)
    ensures x in s <==> Occurrences(s, x) > 0
  {
    if |s| > 0 {
      assert s == [s[0]] + s[1..];
      OccurrencesIn(s[1..], x);
    }
  }

  /** list.remove: drops the first element equal to x. */
  function RemoveFirst<T(==)>(s: seq<T>, x: T): (r: seq<T>)
    requires x in s
    ensures |r| == |s| - 1
  {
    var i := IndexOf(s, x);
    s[..i] + s[i + 1..]
  }

  /** list.remove takes away one x and nothing else. */
  lemma RemoveFirstCounts<T>(s: seq<T>, x: T, y: T)
    requires x in s
    ensures Occurrences(RemoveFirst(s, x), y) == Occurrences(s, y) - (if y == x then 1 else 0)
  {
    var i := IndexOf(s, x);
    assert s == s[..i] + ([x] + s[i + 1..]);
    OccurrencesAppend(s[..i], [x] + s[i + 1..], y);
    OccurrencesAppend([x], s[i + 1..], y);
    OccurrencesAppend(s[..i], s[i + 1..], y);
  }

  /** The same, as multisets. */
  lemma RemoveFirstMultiset<T>(s: seq<T>, x: T)
    requires x in s
    ensures multiset(RemoveFirst(s, x)) == multiset(s) - multiset{x}
  {
    var i := IndexOf(s, x);
    assert s == s[..i] + [x] + s[i + 1..];
  }

  /** Slicing with step -1. */
  function Reverse<T>(s: seq<T>): (r: seq<T>)
    ensures |r| == |s|
    ensures forall i :: 0 <= i < |s| ==> r[i] == s[|s| - 1 - i]
  {
    if |s| == 0 then [] else [s[|s| - 1]] + Reverse(s[..|s| - 1])
  }

  lemma ReverseInvolution<T>(s: seq<T>)
    ensures Reverse(Reverse(s)) == s
  {
  }

  /** Rotation right by one place: the last element moves to the front. */
  function RotateRight<T>(s: seq<T>): (r: seq<T>)
    ensures |r| == |s|
    ensures |s| > 0 ==> r[0] == s[|s| - 1]
    ensures forall i :: 0 < i < |s| ==> r[i] == s[i - 1]
  {
    if |s| == 0 then s else [s[|s| - 1]] + s[..|s| - 1]
  }

  /** Rotation only reorders. */
  lemma RotateRightPermutes<T>(s: seq<T>)
    ensures multiset(RotateRight(s)) == multiset(s)
  {
    if |s| > 0 {
      assert s == s[..|s| - 1] + [s[|s| - 1]];
    }
  }

  /** No two positions hold the same element. */
  predicate Distinct<T(==)>(s: seq<T>) {
    forall i, j :: 0 <= i < j < |s| ==> s[i] != s[j]
  }

  /** Two lists without repeats and without a common element concatenate
      into a list without repeats. */
  lemma DistinctConcat<T>(a: seq<T>, b: seq<T>)
    requires Distinct(a) && Distinct(b) && forall x :: x in b ==> x !in a
    ensures Distinct(a + b)
  {
    forall i, j | 0 <= i < j < |a + b|
      ensures (a + b)[i] != (a + b)[j]
    {
      if i < |a| <= j {
        assert (a + b)[j] == b[j - |a|] && (a + b)[j] in b;
      }
    }
  }
}
