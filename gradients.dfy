/** The colours painted along a found path (test.py's
    apply_gradient_first_time and shift_gradient), as edits on a Grid. The
    path holds points of the grid; each edit goes to the grid cell at the
    point, so a point listed twice is edited twice, as the shared Point
    objects are in the source. */
module Gradients {
  import opened Cells
  import opened Grids

  /** Every point of ps addresses a cell of g. */
  predicate OnGrid(g: Grid, ps: seq<Point>) {
    forall i :: 0 <= i < |ps| ==> InGrid(g, ps[i])
  }

  lemma OnSameShape(g0: Grid, g1: Grid, ps: seq<Point>)
    requires OnGrid(g0, ps) && SameShape(g0, g1)
    ensures OnGrid(g1, ps)
  {
  }

  // ---------------------------------------------------------------------
  // apply_gradient_first_time

  /** The per-cell colour step: each component of end - start divided by n
      and rounded down (Python's //, which for a positive n is Dafny's /). */
  function Change(start: Color, end: Color, n: nat): (d: Color)
    requires n > 0
  {
    var diff := AddColors(end, start, true);
    Color(diff.red / n, diff.green / n, diff.blue / n)
  }

  /** The colour after i additions of d to c. */
  function Shade(c: Color, d: Color, i: nat): Color {
    if i == 0 then c else AddColors(Shade(c, d, i - 1), d, false)
  }

  /** i additions of d add i times d to every component. */
  lemma {:induction false} ShadeLinear(c: Color, d: Color, i: nat)
    ensures Shade(c, d, i) == Color(c.red + i * d.red, c.green + i * d.green, c.blue + i * d.blue)
  {
    if i > 0 {
      ShadeLinear(c, d, i - 1);
    }
  }

  /** One rounded-down component step, taken n times, stops short of the
      target by less than n. */
  lemma StepApproaches(s: int, e: int, n: nat)
    requires n > 0
    ensures 0 <= e - (s + n * ((e - s) / n)) < n
  {
  }

  /** The gradient runs from the start colour towards the end colour: n
      steps of Change(start, end, n) land on the end colour up to a
      remainder below n in every component. */
  lemma GradientApproaches(start: Color, end: Color, n: nat)
    requires n > 0
    ensures var c := Shade(start, Change(start, end, n), n);
      0 <= end.red - c.red < n && 0 <= end.green - c.green < n && 0 <= end.blue - c.blue < n
  {
    ShadeLinear(start, Change(start, end, n), n);
    StepApproaches(start.red, end.red, n);
    StepApproaches(start.green, end.green, n);
    StepApproaches(start.blue, end.blue, n);
  }

  /** One turn of the painting loop: the cell at p gains a `custom` marker
      and then takes colour c. */
  function Paint(g: Grid, p: Point, c: Color): (r: Grid)
    requires InGrid(g, p)
    ensures SameShape(g, r)
  {
    Put(g, p, SetColor(AddMarker(Get(g, p), Custom), c))
  }

  /** The grid after painting the points of ps in order, the i-th with
      Shade(c, d, i). */
  function Painted(g: Grid, ps: seq<Point>, c: Color, d: Color): (r: Grid)
    requires OnGrid(g, ps)
    ensures SameShape(g, r)
  {
    if |ps| == 0 then g
    else Paint(Painted(g, ps[..|ps| - 1], c, d), ps[|ps| - 1], Shade(c, d, |ps| - 1))
  }

  /** On a path without repeats, the i-th cell ends with one more `custom`
      marker and colour Shade(c, d, i); cells off the path are untouched. */
  lemma {:induction false} PaintedCells(g: Grid, ps: seq<Point>, c: Color, d: Color)
    requires OnGrid(g, ps) && Distinct(ps)
    ensures forall i :: 0 <= i < |ps| ==>
      Get(Painted(g, ps, c, d), ps[i]) == Cell(Get(g, ps[i]).markers + [Custom], Some(Shade(c, d, i)))
    ensures forall q :: InGrid(g, q) && q !in ps ==> Get(Painted(g, ps, c, d), q) == Get(g, q)
  {
    if |ps| > 0 {
      var n := |ps| - 1;
      var front := ps[..n];
      assert Distinct(front);
      PaintedCells(g, front, c, d);
      var h := Painted(g, front, c, d);
      assert ps[n] !in front;
      forall i | 0 <= i < |ps|
        ensures Get(Painted(g, ps, c, d), ps[i]) == Cell(Get(g, ps[i]).markers + [Custom], Some(Shade(c, d, i)))
      {
        if i < n {
          assert front[i] == ps[i];
        }
      }
      forall q | InGrid(g, q) && q !in ps
        ensures Get(Painted(g, ps, c, d), q) == Get(g, q)
      {
        assert q !in front;
      }
    }
  }

  /** Painting adds `custom` markers only, so it keeps start, goal and wall
      markers where they were, whatever the path. */
  lemma {:induction false} PaintedKeeps(g: Grid, ps: seq<Point>, c: Color, d: Color)
    requires OnGrid(g, ps)
    ensures Keeps(g, Painted(g, ps, c, d))
  {
    if |ps| == 0 {
      KeepsRefl(g);
    } else {
      var n := |ps| - 1;
      PaintedKeeps(g, ps[..n], c, d);
      var h := Painted(g, ps[..n], c, d);
      var ms := Get(h, ps[n]).markers;
      OccurrencesAppend(ms, [Custom], Start);
      OccurrencesAppend(ms, [Custom], Goal);
      OccurrencesAppend(ms, [Custom], Wall);
      PutKeeps(h, ps[n], SetColor(AddMarker(Get(h, ps[n]), Custom), Shade(c, d, n)));
      KeepsTrans(g, h, Painted(g, ps, c, d));
    }
  }

  // ---------------------------------------------------------------------
  // shift_gradient

  /** The grid and the carried colour after the first i turns of the
      shift loop, each of which swaps the carried colour with the colour of
      the cell at the next point. */
  function Shifting(g: Grid, ps: seq<Point>, last: Option<Color>, i: nat): (r: (Grid, Option<Color>))
    requires OnGrid(g, ps) && i <= |ps|
    ensures SameShape(g, r.0)
  {
    if i == 0 then (g, last)
    else
      var (h, l) := Shifting(g, ps, last, i - 1);
      (Put(h, ps[i - 1], Get(h, ps[i - 1]).(color := l)), Get(h, ps[i - 1]).color)
  }

  /** shift_gradient's effect: the loop over the whole path, carrying the
      colour of its last cell in. */
  function Shifted(g: Grid, ps: seq<Point>): (r: Grid)
    requires OnGrid(g, ps) && |ps| > 0
    ensures SameShape(g, r)
  {
    Shifting(g, ps, Get(g, ps[|ps| - 1]).color, |ps|).0
  }

  /** Shifting changes colours only, whatever the path. */
  lemma {:induction false} ShiftingMarkers(g: Grid, ps: seq<Point>, last: Option<Color>, i: nat)
    requires OnGrid(g, ps) && i <= |ps|
    ensures forall q :: InGrid(g, q) ==> Get(Shifting(g, ps, last, i).0, q).markers == Get(g, q).markers
  {
    if i > 0 {
      ShiftingMarkers(g, ps, last, i - 1);
    }
  }

  /** One turn of the shift loop: the cell at ps[i - 1] takes the carried
      colour, its own colour is carried on, and every other cell stays. */
  lemma ShiftingTurn(g: Grid, ps: seq<Point>, last: Option<Color>, i: nat)
    requires OnGrid(g, ps) && 0 < i <= |ps|
    ensures var (h, l) := Shifting(g, ps, last, i - 1);
      Shifting(g, ps, last, i).1 == Get(h, ps[i - 1]).color
      && Get(Shifting(g, ps, last, i).0, ps[i - 1]) == Get(h, ps[i - 1]).(color := l)
      && forall q :: InGrid(g, q) && q != ps[i - 1] ==> Get(Shifting(g, ps, last, i).0, q) == Get(h, q)
  {
  }

  /** Turns k + 1 to i leave alone every cell they do not visit. */
  lemma {:induction false} ShiftingFrom(g: Grid, ps: seq<Point>, last: Option<Color>, k: nat, i: nat, q: Point)
    requires OnGrid(g, ps) && k <= i <= |ps| && InGrid(g, q) && q !in ps[k..i]
    ensures Get(Shifting(g, ps, last, i).0, q) == Get(Shifting(g, ps, last, k).0, q)
  {
    if k < i {
      assert ps[k..i] == ps[k..i - 1] + [ps[i - 1]];
      ShiftingFrom(g, ps, last, k, i - 1, q);
      ShiftingTurn(g, ps, last, i);
    }
  }

  /** On a path without repeats, the colour carried out of turn i is the
      colour cell i - 1 had at the start. */
  lemma ShiftingCarried(g: Grid, ps: seq<Point>, last: Option<Color>, i: nat)
    requires OnGrid(g, ps) && Distinct(ps) && 0 < i <= |ps|
    ensures Shifting(g, ps, last, i).1 == Get(g, ps[i - 1]).color
  {
    ShiftingTurn(g, ps, last, i);
    assert ps[i - 1] !in ps[0..i - 1];
    ShiftingFrom(g, ps, last, 0, i - 1, ps[i - 1]);
  }

  /** After i turns on a path without repeats, the j-th cell (j < i) holds
      the colour the previous cell had, the carried colour for the first. */
  lemma ShiftingEarlier(g: Grid, ps: seq<Point>, last: Option<Color>, i: nat, j: nat)
    requires OnGrid(g, ps) && Distinct(ps) && j < i <= |ps|
    ensures Get(Shifting(g, ps, last, i).0, ps[j]).color == (if j == 0 then last else Get(g, ps[j - 1]).color)
  {
    assert Get(Shifting(g, ps, last, j + 1).0, ps[j]).color == Shifting(g, ps, last, j).1 by {
      ShiftingTurn(g, ps, last, j + 1);
    }
    assert Get(Shifting(g, ps, last, i).0, ps[j]) == Get(Shifting(g, ps, last, j + 1).0, ps[j]) by {
      assert ps[j] !in ps[j + 1..i];
      ShiftingFrom(g, ps, last, j + 1, i, ps[j]);
    }
    if j > 0 {
      assert Shifting(g, ps, last, j).1 == Get(g, ps[j - 1]).color by {
        ShiftingCarried(g, ps, last, j);
      }
    }
  }

  /** After i turns on a path without repeats, the cells the loop has not
      reached yet, and the cells off the path, are untouched. */
  lemma ShiftingUntouched(g: Grid, ps: seq<Point>, last: Option<Color>, i: nat)
    requires OnGrid(g, ps) && Distinct(ps) && i <= |ps|
    ensures forall j :: i <= j < |ps| ==> Get(Shifting(g, ps, last, i).0, ps[j]) == Get(g, ps[j])
    ensures forall q :: InGrid(g, q) && q !in ps ==> Get(Shifting(g, ps, last, i).0, q) == Get(g, q)
  {
    forall j | i <= j < |ps|
      ensures Get(Shifting(g, ps, last, i).0, ps[j]) == Get(g, ps[j])
    {
      assert ps[j] !in ps[0..i];
      ShiftingFrom(g, ps, last, 0, i, ps[j]);
    }
    forall q | InGrid(g, q) && q !in ps
      ensures Get(Shifting(g, ps, last, i).0, q) == Get(g, q)
    {
      assert ps[0..i] <= ps;
      ShiftingFrom(g, ps, last, 0, i, q);
    }
  }

  /** shift_gradient rotates the colours of a path without repeats right by
      one place (so it only reorders them), and changes nothing else. */
  lemma ShiftRotates(g: Grid, ps: seq<Point>)
    requires OnGrid(g, ps) && Distinct(ps) && |ps| > 0
    ensures OnGrid(Shifted(g, ps), ps)
    ensures Colours(Shifted(g, ps), ps) == RotateRight(Colours(g, ps))
    ensures multiset(Colours(Shifted(g, ps), ps)) == multiset(Colours(g, ps))
    ensures forall q :: InGrid(g, q) ==> Get(Shifted(g, ps), q).markers == Get(g, q).markers
    ensures forall q :: InGrid(g, q) && q !in ps ==> Get(Shifted(g, ps), q) == Get(g, q)
  {
    var last := Get(g, ps[|ps| - 1]).color;
    var h := Shifted(g, ps);
    OnSameShape(g, h, ps);
    var before, after := Colours(g, ps), Colours(h, ps);
    forall j | 0 <= j < |ps|
      ensures after[j] == RotateRight(before)[j]
    {
      ShiftingEarlier(g, ps, last, |ps|, j);
    }
    assert after == RotateRight(before);
    RotateRightPermutes(before);
    assert forall q :: InGrid(g, q) ==> Get(h, q).markers == Get(g, q).markers by {
      ShiftingMarkers(g, ps, last, |ps|);
    }
    assert forall q :: InGrid(g, q) && q !in ps ==> Get(h, q) == Get(g, q) by {
      ShiftingUntouched(g, ps, last, |ps|);
    }
  }

  /** shift_gradient keeps start, goal and wall markers where they were. */
  lemma ShiftedKeeps(g: Grid, ps: seq<Point>)
    requires OnGrid(g, ps) && |ps| > 0
    ensures Keeps(g, Shifted(g, ps))
  {
    ShiftingMarkers(g, ps, Get(g, ps[|ps| - 1]).color, |ps|);
  }
}
