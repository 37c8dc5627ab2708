/** Eller's row-by-row maze generator (eller_algorithm.py).

    A row of the maze is a vector of set ids, one per logical column; cells
    with equal ids are already connected.  Coin flips are given as oracles,
    so every property below holds for every sequence of flips. */
module Eller {

  /** The row after every occurrence of `gone` has been relabelled to `keep`. */
  function Merged(row: seq<int>, keep: int, gone: int): (r: seq<int>)
    ensures |r| == |row|
    ensures keep != gone ==> gone !in r
    ensures forall i :: 0 <= i < |row| && row[i] != gone ==> r[i] == row[i]
    ensures forall i :: 0 <= i < |row| && row[i] == gone ==> r[i] == keep
    // the two classes `keep` and `gone` become one; every other class is untouched
    ensures forall i, j :: 0 <= i < |row| && 0 <= j < |row| ==>
      (r[i] == r[j] <==>
         (row[i] == row[j] ||
          ((row[i] == keep || row[i] == gone) && (row[j] == keep || row[j] == gone))))
  {
    seq(|row|, i requires 0 <= i < |row| => if row[i] == gone then keep else row[i])
  }

  /** merge_sets: relabels set `gone` to `keep` in place. */
  method MergeSets(row: array<int>, keep: int, gone: int)
    modifies row
    ensures row[..] == Merged(old(row[..]), keep, gone)
  {
    for i := 0 to row.Length
      invariant forall j :: 0 <= j < i ==> row[j] == (if old(row[j]) == gone then keep else old(row[j]))
      invariant forall j :: i <= j < row.Length ==> row[j] == old(row[j])
    {
      if row[i] == gone {
        row[i] := keep;
      }
    }
  }

  /** The row after the first `k` steps of the right-border pass: at step i a
      wall is kept when the coin says so or cells i and i+1 already share a
      set; otherwise the set of cell i+1 is merged into the set of cell i. */
  function RightPass(row: seq<int>, coin: nat -> bool, k: nat): (r: seq<int>)
    requires k < |row|
    ensures |r| == |row|
  {
    if k == 0 then row else RightStep(RightPass(row, coin, k - 1), coin, k - 1)
  }

  /** The coin of the last row's join: no wall is ever kept by choice, so a
      wall stays only between cells already in one set. */
  function Never(i: nat): bool
  {
    false
  }

  /** Step i of the right-border pass. */
  function RightStep(prev: seq<int>, coin: nat -> bool, i: nat): (r: seq<int>)
    requires i + 1 < |prev|
    ensures |r| == |prev|
  {
    if coin(i) || prev[i] == prev[i + 1] then prev else Merged(prev, prev[i], prev[i + 1])
  }

  /** Whether the right-border pass puts a wall right of cell i (i < |row| - 1). */
  predicate RightWall(row: seq<int>, coin: nat -> bool, i: nat)
    requires i + 1 < |row|
  {
    var before := RightPass(row, coin, i);
    coin(i) || before[i] == before[i + 1]
  }

  /** The pass never splits a set: cells that share an id keep sharing one. */
  lemma {:induction false} RightPassCoarsens(row: seq<int>, coin: nat -> bool, k: nat, i: nat, j: nat)
    requires k < |row| && i < |row| && j < |row|
    requires row[i] == row[j]
    ensures RightPass(row, coin, k)[i] == RightPass(row, coin, k)[j]
  {
    if k > 0 {
      RightPassCoarsens(row, coin, k - 1, i, j);
    }
  }

  /** Once a step has joined cells i and i+1, later steps keep them joined. */
  lemma {:induction false} RightPassKeepsJoined(row: seq<int>, coin: nat -> bool, m: nat, k: nat, i: nat)
    requires m <= k < |row| && i + 1 < |row|
    requires RightPass(row, coin, m)[i] == RightPass(row, coin, m)[i + 1]
    ensures RightPass(row, coin, k)[i] == RightPass(row, coin, k)[i + 1]
  {
    if k > m {
      RightPassKeepsJoined(row, coin, m, k - 1, i);
    }
  }

  /** The pass introduces no new id: every id after it was an id before it. */
  lemma {:induction false} RightPassIds(row: seq<int>, coin: nat -> bool, k: nat, i: nat)
    requires k < |row| && i < |row|
    ensures RightPass(row, coin, k)[i] in row
  {
    if k > 0 {
      var prev := RightPass(row, coin, k - 1);
      if !(coin(k - 1) || prev[k - 1] == prev[k]) && prev[i] == prev[k] {
        RightPassIds(row, coin, k - 1, k - 1);
      } else {
        RightPassIds(row, coin, k - 1, i);
      }
    }
  }

  /** A border left open by the pass lies between cells of one set afterwards. */
  lemma {:induction false} OpenRightBorderJoins(row: seq<int>, coin: nat -> bool, i: nat)
    requires i + 1 < |row|
    requires !RightWall(row, coin, i)
    ensures RightPass(row, coin, |row| - 1)[i] == RightPass(row, coin, |row| - 1)[i + 1]
  {
    var before := RightPass(row, coin, i);
    assert RightPass(row, coin, i + 1) == RightStep(before, coin, i);
    RightPassKeepsJoined(row, coin, i + 1, |row| - 1, i);
  }

  /** generate_right_borders: one border per cell, the last always a wall;
      `row` is rewritten by the merges done where a border is removed. */
  method GenerateRightBorders(row: array<int>, coin: nat -> bool) returns (borders: seq<bool>)
    requires row.Length > 0
    modifies row
    ensures |borders| == row.Length
    ensures borders[row.Length - 1]
    ensures forall i :: 0 <= i < row.Length - 1 ==> (borders[i] <==> RightWall(old(row[..]), coin, i))
    ensures row[..] == RightPass(old(row[..]), coin, row.Length - 1)
    ensures forall i :: 0 <= i < row.Length - 1 && !borders[i] ==> row[i] == row[i + 1]
    ensures forall i, j :: 0 <= i < row.Length && 0 <= j < row.Length && old(row[i]) == old(row[j]) ==> row[i] == row[j]
    ensures forall i :: 0 <= i < row.Length ==> row[i] in old(row[..])
  {
    ghost var orig := row[..];
    var n := row.Length;
    borders := seq(n, _ => false);
    for i := 0 to n - 1
      invariant |borders| == n
      invariant row[..] == RightPass(orig, coin, i)
      invariant forall j :: 0 <= j < i ==> (borders[j] <==> RightWall(orig, coin, j))
      invariant forall j :: i <= j < n ==> !borders[j]
    {
      var choice := coin(i);
      if choice || row[i] == row[i + 1] {
        borders := borders[i := true];
      } else {
        MergeSets(row, row[i], row[i + 1]);
      }
    }
    borders := borders[n - 1 := true];
    forall i | 0 <= i < n - 1 && !borders[i]
      ensures row[i] == row[i + 1]
    {
      OpenRightBorderJoins(orig, coin, i);
    }
    forall i, j | 0 <= i < n && 0 <= j < n && orig[i] == orig[j]
      ensures row[i] == row[j]
    {
      RightPassCoarsens(orig, coin, n - 1, i, j);
    }
    forall i | 0 <= i < n
      ensures row[i] in orig
    {
      RightPassIds(orig, coin, n - 1, i);
    }
  }

  /** Cells of set `s` whose down border is already a wall. */
  function SealedCount(row: seq<int>, s: int, borders: seq<bool>): nat
    requires |borders| >= |row|
  {
    if row == [] then 0
    else SealedCount(row[..|row| - 1], s, borders) + (if row[|row| - 1] == s && borders[|row| - 1] then 1 else 0)
  }

  /** Cells of set `s` whose down border is still open. */
  function OpenCount(row: seq<int>, s: int, borders: seq<bool>): nat
    requires |borders| >= |row|
  {
    if row == [] then 0
    else OpenCount(row[..|row| - 1], s, borders) + (if row[|row| - 1] == s && !borders[|row| - 1] then 1 else 0)
  }

  /** Every cell of a set is either sealed or open. */
  lemma {:induction false} SealedPlusOpen(row: seq<int>, s: int, borders: seq<bool>)
    requires |borders| >= |row|
    ensures SealedCount(row, s, borders) + OpenCount(row, s, borders) == multiset(row)[s]
  {
    if row != [] {
      var n := |row| - 1;
      assert row == row[..n] + [row[n]];
      SealedPlusOpen(row[..n], s, borders);
    }
  }

  /** number_of_horizontal_borders_in_set never exceeds number_of_elements_in_set. */
  lemma {:induction false} SealedAtMostElements(row: seq<int>, s: int, borders: seq<bool>)
    requires |borders| >= |row|
    ensures SealedCount(row, s, borders) <= multiset(row)[s]
  {
    SealedPlusOpen(row, s, borders);
  }

  /** Sealing cell i removes it from the open cells of its set, and only from those. */
  lemma {:induction false} OpenCountSeal(row: seq<int>, s: int, borders: seq<bool>, i: nat)
    requires |borders| >= |row| && i < |borders|
    ensures OpenCount(row, s, borders[i := true]) ==
      OpenCount(row, s, borders) - (if i < |row| && row[i] == s && !borders[i] then 1 else 0)
  {
    if row != [] {
      OpenCountSeal(row[..|row| - 1], s, borders, i);
    }
  }

  /** No open cell of set `s` is left exactly when every cell of `s` is sealed. */
  lemma {:induction false} OpenCountZero(row: seq<int>, s: int, borders: seq<bool>)
    requires |borders| >= |row|
    ensures OpenCount(row, s, borders) == 0 <==> forall j :: 0 <= j < |row| && row[j] == s ==> borders[j]
  {
    if row != [] {
      var n := |row| - 1;
      OpenCountZero(row[..n], s, borders);
      assert forall j :: 0 <= j < n ==> row[..n][j] == row[j];
    }
  }

  /** number_of_elements_in_set: the number of cells of set `s`. */
  method NumberOfElementsInSet(row: seq<int>, s: int) returns (count: nat)
    ensures count == multiset(row)[s]
  {
    count := 0;
    for i := 0 to |row|
      invariant count == multiset(row[..i])[s]
    {
      assert row[..i + 1] == row[..i] + [row[i]];
      if row[i] == s {
        count := count + 1;
      }
    }
    assert row[..|row|] == row;
  }

  /** number_of_horizontal_borders_in_set: the number of cells of set `s`
      whose down border is a wall; never more than the cells of `s`. */
  method NumberOfHorizontalBordersInSet(row: seq<int>, s: int, borders: seq<bool>) returns (count: nat)
    requires |borders| >= |row|
    ensures count == SealedCount(row, s, borders)
    ensures count <= multiset(row)[s]
  {
    count := 0;
    for i := 0 to |row|
      invariant count == SealedCount(row[..i], s, borders)
    {
      assert row[..i + 1][..i] == row[..i];
      if row[i] == s && borders[i] {
        count := count + 1;
      }
    }
    assert row[..|row|] == row;
    SealedAtMostElements(row, s, borders);
  }

  /** Cell i is the last cell of its set whose down border is open: every
      earlier cell of the set is sealed and no later cell belongs to it. */
  ghost predicate LastOpenInSet(row: seq<int>, borders: seq<bool>, i: nat)
    requires |borders| == |row| && i < |row|
  {
    (forall j :: 0 <= j < i && row[j] == row[i] ==> borders[j]) &&
    (forall j :: i < j < |row| ==> row[j] != row[i])
  }

  /** While the pass is at cell i (later borders still open), cell i is the
      only open cell of its set exactly when it is the last open one. */
  lemma {:induction false} OpenCountOne(row: seq<int>, borders: seq<bool>, i: nat)
    requires |borders| == |row| && i < |row|
    requires forall j :: i <= j < |row| ==> !borders[j]
    ensures OpenCount(row, row[i], borders) == 1 <==> LastOpenInSet(row, borders, i)
  {
    OpenCountSeal(row, row[i], borders, i);
    OpenCountZero(row, row[i], borders[i := true]);
  }

  /** Whether cell i is the last open cell of its set depends on earlier borders only. */
  lemma {:induction false} LastOpenFrame(row: seq<int>, b: seq<bool>, b': seq<bool>, i: nat)
    requires |b| == |b'| == |row| && i < |row|
    requires forall j :: 0 <= j < i ==> b[j] == b'[j]
    ensures LastOpenInSet(row, b, i) == LastOpenInSet(row, b', i)
  {
  }

  /** The last index of a set in the row. */
  ghost function LastIndex(row: seq<int>, s: int): (m: nat)
    requires s in row
    ensures m < |row| && row[m] == s
    ensures forall j :: m < j < |row| ==> row[j] != s
  {
    if row[|row| - 1] == s then |row| - 1 else LastIndex(row[..|row| - 1], s)
  }

  /** The choice rule of generate_down_borders leaves every set an opening. */
  lemma {:induction false} KeepsOpening(row: seq<int>, coin: nat -> bool, borders: seq<bool>, i: nat)
    requires DownRule(row, borders, coin) && i < |row|
    ensures exists j :: 0 <= j < |row| && row[j] == row[i] && !borders[j]
  {
    var m := LastIndex(row, row[i]);
    if borders[m] {
      assert !LastOpenInSet(row, borders, m);
    }
  }

  /** The choice rule of generate_down_borders: a down border is a wall
      exactly when its coin says so and the cell is not the last open cell
      of its set. */
  ghost predicate DownRule(row: seq<int>, borders: seq<bool>, coin: nat -> bool)
  {
    |borders| == |row| &&
    forall i :: 0 <= i < |row| ==> (borders[i] <==> coin(i) && !LastOpenInSet(row, borders, i))
  }

  /** Every set of the row has a cell whose down border is open. */
  ghost predicate EverySetOpen(row: seq<int>, borders: seq<bool>)
    requires |borders| == |row|
  {
    forall i :: 0 <= i < |row| ==> exists j :: 0 <= j < |row| && row[j] == row[i] && !borders[j]
  }

  /** generate_down_borders: a cell's down border becomes a wall exactly when
      its coin says so and it is not the last open cell of its set, so every
      set keeps at least one passage downwards. */
  method GenerateDownBorders(row: seq<int>, coin: nat -> bool) returns (borders: seq<bool>)
    ensures |borders| == |row|
    ensures DownRule(row, borders, coin)
    ensures EverySetOpen(row, borders)
  {
    borders := seq(|row|, _ => false);
    for i := 0 to |row|
      invariant |borders| == |row|
      invariant forall j :: i <= j < |row| ==> !borders[j]
      invariant forall j :: 0 <= j < i ==> (borders[j] <==> coin(j) && !LastOpenInSet(row, borders, j))
    {
      ghost var before := borders;
      var choice := coin(i);
      if choice {
        var elements := NumberOfElementsInSet(row, row[i]);
        var sealed := NumberOfHorizontalBordersInSet(row, row[i], borders);
        SealedPlusOpen(row, row[i], borders);
        OpenCountOne(row, borders, i);
        if elements - sealed != 1 {
          borders := borders[i := true];
        }
      }
      forall j | 0 <= j <= i
        ensures LastOpenInSet(row, borders, j) == LastOpenInSet(row, before, j)
      {
        LastOpenFrame(row, borders, before, j);
      }
    }
    forall i | 0 <= i < |row|
      ensures exists j :: 0 <= j < |row| && row[j] == row[i] && !borders[j]
    {
      KeepsOpening(row, coin, borders, i);
    }
    assert EverySetOpen(row, borders);
  }

  /** The flips of one row of the labyrinth. */
  function RowCoin(coin: (nat, nat) -> bool, r: nat): nat -> bool
  {
    (i: nat) => coin(r, i)
  }

  /** The set vector at the four moments of one row of generate_labyrinth:
      on entry, after fresh ids are handed out (step 2), after the right
      borders (step 3) and after the down borders (step 4); `next` is the
      value of next_set after step 2. */
  datatype RowTrace = RowTrace(entry: seq<int>, numbered: seq<int>, joined: seq<int>, leaving: seq<int>, next: int)

  /** Step 2: cells without a set (id 0) got fresh ids, at least `floor` and
      strictly increasing from left to right; every id is then non-zero and
      below `next`. */
  ghost predicate FreshIds(entry: seq<int>, numbered: seq<int>, floor: int, next: int)
  {
    |entry| == |numbered| &&
    (forall c :: 0 <= c < |entry| ==> 0 <= entry[c] < floor) &&
    (forall c :: 0 <= c < |entry| ==> 1 <= numbered[c] < next) &&
    (forall c :: 0 <= c < |entry| && entry[c] != 0 ==> numbered[c] == entry[c]) &&
    (forall c :: 0 <= c < |entry| && entry[c] == 0 ==> floor <= numbered[c]) &&
    (forall c, d :: 0 <= c < d < |entry| && entry[c] == 0 && entry[d] == 0 ==> numbered[c] < numbered[d])
  }

  /** Step 3: the right-border pass over the numbered row. */
  ghost predicate RightDone(t: RowTrace, right: seq<bool>, coin: nat -> bool, width: nat)
  {
    width > 0 && |t.numbered| == |t.joined| == |right| == width &&
    t.joined == RightPass(t.numbered, coin, width - 1) &&
    (forall i :: 0 <= i < width - 1 ==> (right[i] <==> RightWall(t.numbered, coin, i))) &&
    (forall i :: 0 <= i < width - 1 && !right[i] ==> t.joined[i] == t.joined[i + 1])
  }

  /** Step 4 on a row that is not the last: the down-border choice rule, an
      opening for every set, and the ids cleared under the walls. */
  ghost predicate DownDone(t: RowTrace, down: seq<bool>, coin: nat -> bool, width: nat)
  {
    |t.joined| == |down| == |t.leaving| == width &&
    DownRule(t.joined, down, coin) && EverySetOpen(t.joined, down) &&
    t.leaving == Cleared(t.joined, down)
  }

  /** The set vector with the ids under down walls cleared. */
  function Cleared(sets: seq<int>, down: seq<bool>): (r: seq<int>)
    requires |down| == |sets|
    ensures |r| == |sets|
    ensures forall i :: 0 <= i < |sets| ==> (r[i] == 0 <==> down[i] || sets[i] == 0)
    ensures forall i :: 0 <= i < |sets| && !down[i] ==> r[i] == sets[i]
  {
    seq(|sets|, i requires 0 <= i < |sets| => if down[i] then 0 else sets[i])
  }

  /** Steps 3 and 4 on the last row: the right-border pass, then every down
      border a wall and a second pass that joins every pair of neighbours
      still in different sets (the pass with a coin that never keeps a wall).
      A right wall survives exactly where both passes keep one, and one set
      is left. */
  ghost predicate LastDone(t: RowTrace, right: seq<bool>, down: seq<bool>, coin: nat -> bool, width: nat)
  {
    width > 0 && |t.numbered| == |t.joined| == |t.leaving| == |right| == |down| == width &&
    t.joined == RightPass(t.numbered, coin, width - 1) &&
    t.leaving == RightPass(t.joined, Never, width - 1) &&
    down == seq(width, _ => true) &&
    right[width - 1] &&
    (forall i :: 0 <= i < width - 1 ==> (right[i] <==> RightWall(t.numbered, coin, i) && RightWall(t.joined, Never, i))) &&
    OneSet(t.leaving)
  }

  /** All cells of the row are in one set. */
  ghost predicate OneSet(row: seq<int>)
  {
    forall i :: 0 <= i < |row| ==> row[i] == row[0]
  }

  /** Step 2 of generate_labyrinth: every cell without a set gets next_set,
      which then moves on. */
  method NumberFreshCells(sets: array<int>, nextSet: int) returns (next: int)
    requires forall c :: 0 <= c < sets.Length ==> 0 <= sets[c] < nextSet
    modifies sets
    ensures nextSet <= next
    ensures FreshIds(old(sets[..]), sets[..], nextSet, next)
  {
    ghost var entry := sets[..];
    next := nextSet;
    for c := 0 to sets.Length
      invariant next >= nextSet
      invariant forall j :: 0 <= j < c ==> 1 <= sets[j] < next
      invariant forall j :: 0 <= j < c && entry[j] != 0 ==> sets[j] == entry[j]
      invariant forall j :: 0 <= j < c && entry[j] == 0 ==> nextSet <= sets[j]
      invariant forall j, d :: 0 <= j < d < c && entry[j] == 0 && entry[d] == 0 ==> sets[j] < sets[d]
      invariant forall j :: c <= j < sets.Length ==> sets[j] == entry[j]
    {
      if sets[c] == 0 {
        sets[c] := next;
        next := next + 1;
      }
    }
  }

  /** Step 4 on a row that is not the last: ids under down walls are cleared. */
  method ClearUnderWalls(sets: array<int>, down: seq<bool>)
    requires |down| == sets.Length
    modifies sets
    ensures sets[..] == Cleared(old(sets[..]), down)
  {
    for i := 0 to sets.Length
      invariant forall j :: 0 <= j < i ==> sets[j] == if down[j] then 0 else old(sets[j])
      invariant forall j :: i <= j < sets.Length ==> sets[j] == old(sets[j])
    {
      if down[i] {
        sets[i] := 0;
      }
    }
  }

  /** Step 4 on the last row: every down border becomes a wall and every
      pair of neighbouring cells still in different sets is joined. */
  method JoinLastRow(sets: array<int>, right: seq<bool>, down: seq<bool>) returns (right': seq<bool>, down': seq<bool>)
    requires sets.Length > 0 && |right| == |down| == sets.Length
    modifies sets
    ensures |right'| == |down'| == sets.Length
    ensures down' == seq(sets.Length, _ => true)
    ensures right'[sets.Length - 1] == right[sets.Length - 1]
    ensures forall i :: 0 <= i < sets.Length && right'[i] ==> right[i]
    ensures sets[..] == RightPass(old(sets[..]), Never, sets.Length - 1)
    ensures forall i :: 0 <= i < sets.Length - 1 ==> (right'[i] <==> right[i] && RightWall(old(sets[..]), Never, i))
    ensures OneSet(sets[..])
    ensures forall i :: 0 <= i < sets.Length ==> sets[i] in old(sets[..])
  {
    ghost var orig := sets[..];
    var width := sets.Length;
    right', down' := right, down;
    for i := 0 to width
      invariant |right'| == |down'| == width
      invariant forall j :: 0 <= j < i ==> down'[j]
      invariant sets[..] == RightPass(orig, Never, if i < width then i else width - 1)
      invariant forall j :: 0 <= j < i && j < width - 1 ==> (right'[j] <==> right[j] && RightWall(orig, Never, j))
      invariant forall j :: i <= j < width ==> right'[j] == right[j]
      invariant right'[width - 1] == right[width - 1]
      invariant forall j :: 0 <= j <= i && j < width ==> sets[j] == sets[0]
    {
      down' := down'[i := true];
      if i != width - 1 && sets[i] != sets[i + 1] {
        right' := right'[i := false];
        MergeSets(sets, sets[i], sets[i + 1]);
      }
    }
    forall i | 0 <= i < width
      ensures sets[i] in orig
    {
      RightPassIds(orig, Never, width - 1, i);
    }
  }

  /** Everything one iteration of the main loop establishes about its row:
      `start` is the set vector it began with and `floor` the value of
      next_set then. */
  ghost predicate RowOk(t: RowTrace, floor: int, start: seq<int>, right: seq<bool>, down: seq<bool>,
                        last: bool, rightCoin: nat -> bool, downCoin: nat -> bool, width: nat)
  {
    width > 0 && t.entry == start && |right| == |down| == width && right[width - 1] &&
    FreshIds(t.entry, t.numbered, floor, t.next) &&
    (!last ==> RightDone(t, right, rightCoin, width) && DownDone(t, down, downCoin, width)) &&
    (last ==> LastDone(t, right, down, rightCoin, width))
  }

  /** next_set at the start of row k. */
  ghost function Floor(trace: seq<RowTrace>, k: nat): int
    requires k <= |trace|
  {
    if k == 0 then 1 else trace[k - 1].next
  }

  /** The set vector at the start of row k: all zeros on the first row. */
  ghost function Start(trace: seq<RowTrace>, k: nat, width: nat): seq<int>
    requires k <= |trace|
  {
    if k == 0 then seq(width, _ => 0) else trace[k - 1].leaving
  }

  /** Every recorded row satisfies RowOk, each starting where the previous ended. */
  ghost predicate TraceOk(trace: seq<RowTrace>, right: seq<seq<bool>>, down: seq<seq<bool>>, width: nat, height: nat,
                          rightCoin: (nat, nat) -> bool, downCoin: (nat, nat) -> bool)
  {
    |trace| == |right| == |down| <= height &&
    forall k :: 0 <= k < |trace| ==>
      RowOk(trace[k], Floor(trace, k), Start(trace, k, width), right[k], down[k], k == height - 1,
            RowCoin(rightCoin, k), RowCoin(downCoin, k), width)
  }

  lemma {:induction false} TraceExtend(trace: seq<RowTrace>, right: seq<seq<bool>>, down: seq<seq<bool>>, width: nat, height: nat,
                                       rightCoin: (nat, nat) -> bool, downCoin: (nat, nat) -> bool,
                                       t: RowTrace, curRight: seq<bool>, curDown: seq<bool>)
    requires TraceOk(trace, right, down, width, height, rightCoin, downCoin) && |trace| < height
    requires RowOk(t, Floor(trace, |trace|), Start(trace, |trace|, width), curRight, curDown, |trace| == height - 1,
                   RowCoin(rightCoin, |trace|), RowCoin(downCoin, |trace|), width)
    ensures TraceOk(trace + [t], right + [curRight], down + [curDown], width, height, rightCoin, downCoin)
  {
    var trace', right', down' := trace + [t], right + [curRight], down + [curDown];
    forall k | 0 <= k < |trace'|
      ensures RowOk(trace'[k], Floor(trace', k), Start(trace', k, width), right'[k], down'[k], k == height - 1,
                    RowCoin(rightCoin, k), RowCoin(downCoin, k), width)
    {
      RowKept(trace, t, right, curRight, down, curDown, k, width, k == height - 1,
              RowCoin(rightCoin, k), RowCoin(downCoin, k));
    }
  }

  /** Appending a row to the trace leaves row k, its floor and its starting
      set vector as they were (row |trace| being the appended one). */
  lemma RowKept(trace: seq<RowTrace>, t: RowTrace, right: seq<seq<bool>>, curRight: seq<bool>,
                down: seq<seq<bool>>, curDown: seq<bool>, k: nat, width: nat, last: bool,
                rc: nat -> bool, dc: nat -> bool)
    requires |trace| == |right| == |down| && k <= |trace|
    requires k < |trace| ==> RowOk(trace[k], Floor(trace, k), Start(trace, k, width), right[k], down[k], last, rc, dc, width)
    requires k == |trace| ==> RowOk(t, Floor(trace, k), Start(trace, k, width), curRight, curDown, last, rc, dc, width)
    ensures RowOk((trace + [t])[k], Floor(trace + [t], k), Start(trace + [t], k, width),
                  (right + [curRight])[k], (down + [curDown])[k], last, rc, dc, width)
  {
    var trace' := trace + [t];
    assert Floor(trace', k) == Floor(trace, k) && Start(trace', k, width) == Start(trace, k, width);
    if k < |trace| {
      assert trace'[k] == trace[k] && (right + [curRight])[k] == right[k] && (down + [curDown])[k] == down[k];
    } else {
      assert trace'[k] == t && (right + [curRight])[k] == curRight && (down + [curDown])[k] == curDown;
    }
  }

  /** Steps 2 and 3 of one iteration of the main loop of generate_labyrinth:
      fresh ids, then the right borders. */
  method NumberAndJoin(sets: array<int>, nextSet: int, rightCoin: nat -> bool)
    returns (curRight: seq<bool>, next: int, ghost numbered: seq<int>)
    requires sets.Length > 0
    requires forall c :: 0 <= c < sets.Length ==> 0 <= sets[c] < nextSet
    modifies sets
    ensures FreshIds(old(sets[..]), numbered, nextSet, next)
    ensures RightDone(RowTrace([], numbered, sets[..], [], 0), curRight, rightCoin, sets.Length)
    ensures |curRight| == sets.Length && curRight[sets.Length - 1]
    ensures forall i :: 0 <= i < sets.Length - 1 && curRight[i] ==> RightWall(numbered, rightCoin, i)
    ensures forall c :: 0 <= c < sets.Length ==> 1 <= sets[c] < next
  {
    next := NumberFreshCells(sets, nextSet);
    numbered := sets[..];
    curRight := GenerateRightBorders(sets, rightCoin);
    forall c | 0 <= c < sets.Length
      ensures 1 <= sets[c] < next
    {
      assert sets[..][c] in numbered;
    }
  }

  /** One iteration of the main loop of generate_labyrinth on a row that is
      not the last: steps 2 to 4, clearing the ids under down walls. */
  method MiddleRow(sets: array<int>, nextSet: int, rightCoin: nat -> bool, downCoin: nat -> bool)
    returns (curRight: seq<bool>, curDown: seq<bool>, next: int, ghost t: RowTrace)
    requires sets.Length > 0
    requires forall c :: 0 <= c < sets.Length ==> 0 <= sets[c] < nextSet
    modifies sets
    ensures t.leaving == sets[..] && t.next == next
    ensures RowOk(t, nextSet, old(sets[..]), curRight, curDown, false, rightCoin, downCoin, sets.Length)
    ensures forall c :: 0 <= c < sets.Length ==> 0 <= sets[c] < next
  {
    ghost var entry := sets[..];
    ghost var numbered;
    curRight, next, numbered := NumberAndJoin(sets, nextSet, rightCoin);
    ghost var joined := sets[..];
    curDown := GenerateDownBorders(sets[..], downCoin);
    ClearUnderWalls(sets, curDown);
    t := RowTrace(entry, numbered, joined, sets[..], next);
    assert RightDone(t, curRight, rightCoin, sets.Length);
  }

  /** One iteration of the main loop of generate_labyrinth on the last row:
      steps 2 to 4, then every down border a wall and all sets joined. */
  method LastRow(sets: array<int>, nextSet: int, rightCoin: nat -> bool, downCoin: nat -> bool)
    returns (curRight: seq<bool>, curDown: seq<bool>, next: int, ghost t: RowTrace)
    requires sets.Length > 0
    requires forall c :: 0 <= c < sets.Length ==> 0 <= sets[c] < nextSet
    modifies sets
    ensures t.leaving == sets[..] && t.next == next
    ensures RowOk(t, nextSet, old(sets[..]), curRight, curDown, true, rightCoin, downCoin, sets.Length)
    ensures forall c :: 0 <= c < sets.Length ==> 0 <= sets[c] < next
  {
    ghost var entry := sets[..];
    ghost var numbered;
    curRight, next, numbered := NumberAndJoin(sets, nextSet, rightCoin);
    ghost var joined := sets[..];
    assert forall j :: 0 <= j < |joined| ==> 0 <= joined[j] < next;
    curDown := GenerateDownBorders(sets[..], downCoin);
    curRight, curDown := JoinLastRow(sets, curRight, curDown);
    t := RowTrace(entry, numbered, joined, sets[..], next);
    forall c | 0 <= c < sets.Length
      ensures 0 <= sets[c] < next
    {
      MemberBounded(joined, sets[c], 0, next);
    }
  }

  /** A member of a sequence whose elements all lie in [lo, hi) lies there too. */
  lemma MemberBounded(s: seq<int>, x: int, lo: int, hi: int)
    requires x in s && forall j :: 0 <= j < |s| ==> lo <= s[j] < hi
    ensures lo <= x < hi
  {
  }

  /** generate_labyrinth: `height` rows of `width` right borders and down
      borders; the last border of every row and every down border of the last
      row are walls.  `trace` records the set vector of every row (TraceOk). */
  method GenerateLabyrinth(width: nat, height: nat, rightCoin: (nat, nat) -> bool, downCoin: (nat, nat) -> bool)
    returns (right: seq<seq<bool>>, down: seq<seq<bool>>, ghost trace: seq<RowTrace>)
    requires height > 0 ==> width > 0
    ensures |right| == |down| == |trace| == height
    ensures forall r :: 0 <= r < height ==> |right[r]| == width && |down[r]| == width && right[r][width - 1]
    ensures height > 0 ==> down[height - 1] == seq(width, _ => true)
    ensures TraceOk(trace, right, down, width, height, rightCoin, downCoin)
  {
    var nextSet := 1;
    right, down, trace := [], [], [];
    var sets := new int[width](_ => 0);
    for r := 0 to height
      invariant |trace| == r
      invariant TraceOk(trace, right, down, width, height, rightCoin, downCoin)
      invariant nextSet == Floor(trace, r) && sets[..] == Start(trace, r, width)
      invariant forall c :: 0 <= c < width ==> 0 <= sets[c] < nextSet
    {
      var curRight, curDown; ghost var t;
      curRight, curDown, nextSet, t := OneRow(sets, nextSet, r == height - 1, RowCoin(rightCoin, r), RowCoin(downCoin, r));
      TraceExtend(trace, right, down, width, height, rightCoin, downCoin, t, curRight, curDown);
      right := right + [curRight];
      down := down + [curDown];
      trace := trace + [t];
    }
    TraceShapes(trace, right, down, width, height, rightCoin, downCoin);
  }

  /** One iteration of the main loop of generate_labyrinth. */
  method OneRow(sets: array<int>, nextSet: int, last: bool, rightCoin: nat -> bool, downCoin: nat -> bool)
    returns (curRight: seq<bool>, curDown: seq<bool>, next: int, ghost t: RowTrace)
    requires sets.Length > 0
    requires forall c :: 0 <= c < sets.Length ==> 0 <= sets[c] < nextSet
    modifies sets
    ensures t.leaving == sets[..] && t.next == next
    ensures RowOk(t, nextSet, old(sets[..]), curRight, curDown, last, rightCoin, downCoin, sets.Length)
    ensures forall c :: 0 <= c < sets.Length ==> 0 <= sets[c] < next
  {
    if !last {
      curRight, curDown, next, t := MiddleRow(sets, nextSet, rightCoin, downCoin);
    } else {
      curRight, curDown, next, t := LastRow(sets, nextSet, rightCoin, downCoin);
    }
  }

  /** On every row but the last, the set vector leaving the row holds 0
      exactly under the down walls: every cell left with an opening carries a
      set id, and that id is never 0. */
  lemma RowIdsCleared(trace: seq<RowTrace>, right: seq<seq<bool>>, down: seq<seq<bool>>, width: nat, height: nat,
                      rightCoin: (nat, nat) -> bool, downCoin: (nat, nat) -> bool, k: nat)
    requires TraceOk(trace, right, down, width, height, rightCoin, downCoin)
    requires k < |trace| && k != height - 1
    ensures |trace[k].leaving| == |down[k]| == width
    ensures forall i :: 0 <= i < width ==> (trace[k].leaving[i] == 0 <==> down[k][i])
  {
    MiddleRowIds(trace[k], Floor(trace, k), Start(trace, k, width), right[k], down[k],
                 RowCoin(rightCoin, k), RowCoin(downCoin, k), width);
  }

  /** RowIdsCleared for one row. */
  lemma MiddleRowIds(t: RowTrace, floor: int, start: seq<int>, right: seq<bool>, down: seq<bool>,
                     rightCoin: nat -> bool, downCoin: nat -> bool, width: nat)
    requires RowOk(t, floor, start, right, down, false, rightCoin, downCoin, width)
    ensures |t.leaving| == |down| == width
    ensures forall i :: 0 <= i < width ==> (t.leaving[i] == 0 <==> down[i])
  {
    MiddleRowFacts(t, floor, start, right, down, rightCoin, downCoin, width);
    ClearedIds(t.numbered, t.joined, t.leaving, down, rightCoin, width);
  }

  /** The facts of a middle row that RowIdsCleared draws on. */
  lemma MiddleRowFacts(t: RowTrace, floor: int, start: seq<int>, right: seq<bool>, down: seq<bool>,
                       rightCoin: nat -> bool, downCoin: nat -> bool, width: nat)
    requires RowOk(t, floor, start, right, down, false, rightCoin, downCoin, width)
    ensures width > 0 && |t.numbered| == |down| == width
    ensures forall c :: 0 <= c < |t.numbered| ==> t.numbered[c] != 0
    ensures t.joined == RightPass(t.numbered, rightCoin, width - 1)
    ensures t.leaving == Cleared(t.joined, down)
  {
  }

  /** A row of non-zero ids, passed through the right-border pass and then
      cleared under the down walls, is 0 exactly under those walls. */
  lemma ClearedIds(numbered: seq<int>, joined: seq<int>, leaving: seq<int>, down: seq<bool>, coin: nat -> bool, width: nat)
    requires width > 0 && |numbered| == |down| == width
    requires forall c :: 0 <= c < |numbered| ==> numbered[c] != 0
    requires joined == RightPass(numbered, coin, width - 1)
    requires leaving == Cleared(joined, down)
    ensures |leaving| == |down|
    ensures forall i :: 0 <= i < |down| ==> (leaving[i] == 0 <==> down[i])
  {
    forall i | 0 <= i < |down|
      ensures joined[i] != 0
    {
      RightPassIds(numbered, coin, width - 1, i);
    }
  }

  /** The shape facts a complete trace gives about the border matrices. */
  lemma TraceShapes(trace: seq<RowTrace>, right: seq<seq<bool>>, down: seq<seq<bool>>, width: nat, height: nat,
                    rightCoin: (nat, nat) -> bool, downCoin: (nat, nat) -> bool)
    requires TraceOk(trace, right, down, width, height, rightCoin, downCoin) && |trace| == height
    ensures forall r :: 0 <= r < height ==> |right[r]| == width && |down[r]| == width && right[r][width - 1]
    ensures height > 0 ==> down[height - 1] == seq(width, _ => true)
  {
    forall r | 0 <= r < height
      ensures |right[r]| == width && |down[r]| == width && right[r][width - 1]
    {
      RowShape(trace[r], Floor(trace, r), Start(trace, r, width), right[r], down[r], r == height - 1,
               RowCoin(rightCoin, r), RowCoin(downCoin, r), width);
    }
    if height > 0 {
      RowShape(trace[height - 1], Floor(trace, height - 1), Start(trace, height - 1, width), right[height - 1],
               down[height - 1], true, RowCoin(rightCoin, height - 1), RowCoin(downCoin, height - 1), width);
    }
  }

  /** A finished row has `width` borders of each kind, its last right border
      is a wall, and on the last row every down border is. */
  lemma RowShape(t: RowTrace, floor: int, start: seq<int>, right: seq<bool>, down: seq<bool>,
                 last: bool, rightCoin: nat -> bool, downCoin: nat -> bool, width: nat)
    requires RowOk(t, floor, start, right, down, last, rightCoin, downCoin, width)
    ensures |right| == width && |down| == width && right[width - 1]
    ensures last ==> down == seq(width, _ => true)
  {
  }
}
