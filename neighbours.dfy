/**
 * Neighbour addressing on the flat board (Board.cs). Boxes are stored in one
 * array, row after row, so box `i` sits in row `i / width` and column
 * `i % width`. The board reaches the eight neighbours of a box through a table
 * of (index step, row step) pairs and accepts a candidate only when it lies in
 * the array and in the expected row; this module proves that those checks
 * accept exactly the boxes that are adjacent in the grid, and that the
 * accumulator of CountDangerNearby counts exactly the adjacent dangerous boxes.
 */
module Neighbours {

  /** One entry of the neighbour table: the step in flat index and the step in row. */
  datatype Offset = Offset(index: int, row: int)

  /** The table `Awake` builds, for a board `width` boxes wide. */
  function Offsets(width: int): (t: seq<Offset>)
    ensures |t| == 8
    ensures forall k :: 0 <= k < |t| ==>
      -1 <= t[k].row <= 1 && -1 <= t[k].index - t[k].row * width <= 1 && t[k] != Offset(0, 0)
  {
    [ Offset(-width - 1, -1), Offset(-width, -1), Offset(-width + 1, -1),
      Offset(-1, 0), Offset(1, 0),
      Offset(width - 1, 1), Offset(width, 1), Offset(width + 1, 1) ]
  }

  /** The row and column step of table entry `k`. */
  function RowStep(k: nat): int
    requires k < 8
  {
    if k < 3 then -1 else if k < 5 then 0 else 1
  }

  function ColumnStep(k: nat): int
    requires k < 8
  {
    [-1, 0, 1, -1, 1, -1, 0, 1][k]
  }

  /** Entry `k` moves RowStep(k) rows and ColumnStep(k) columns, and no two
      entries move the same way. */
  lemma OffsetSteps(width: int, k: nat)
    requires k < 8
    ensures Offsets(width)[k] == Offset(RowStep(k) * width + ColumnStep(k), RowStep(k))
    ensures -1 <= RowStep(k) <= 1 && -1 <= ColumnStep(k) <= 1
    ensures RowStep(k) != 0 || ColumnStep(k) != 0
    ensures forall l :: 0 <= l < 8 && l != k ==> RowStep(l) != RowStep(k) || ColumnStep(l) != ColumnStep(k)
  {
  }

  /** C#'s integer division of `a` by a positive `b`: it truncates toward zero,
      where Dafny's `/` rounds toward negative infinity. */
  function TruncDiv(a: int, b: int): (q: int)
    requires b > 0
    ensures a >= 0 ==> q == a / b
  {
    if a >= 0 then a / b else -((-a) / b)
  }

  /** TruncDiv rounds toward zero: the quotient times `b` never overshoots `a` in magnitude. */
  lemma TruncDivTowardZero(a: int, b: int)
    requires b > 0
    ensures a >= 0 ==> TruncDiv(a, b) * b <= a < TruncDiv(a, b) * b + b
    ensures a < 0 ==> TruncDiv(a, b) * b - b < a <= TruncDiv(a, b) * b
  {
    if a < 0 {
      var q := (-a) / b;
      assert q * b <= -a < q * b + b;
      assert TruncDiv(a, b) * b == -(q * b);
    }
  }

  /** The check Board.cs applies to table entry `o` for the box at `index`
      whose row is `row`, on a board of `count` boxes: the candidate must land in
      the expected row and inside the array. */
  predicate Accepts(width: int, count: int, index: int, row: int, o: Offset)
    requires width > 0
    ensures Accepts(width, count, index, row, o) <==>
      0 <= index + o.index < count && (index + o.index) / width == row + o.row
  {
    var neighbourIndex := index + o.index;
    var expectedRow := row + o.row;
    expectedRow == TruncDiv(neighbourIndex, width) && neighbourIndex >= 0 && neighbourIndex < count
  }

  /** Grid adjacency: a different box at most one row and one column away. */
  predicate Adjacent(width: int, i: int, j: int)
    requires width > 0
  {
    i != j && -1 <= j / width - i / width <= 1 && -1 <= j % width - i % width <= 1
  }

  /** Neither check suffices alone. With C#'s division, stepping left from the
      first box of a board lands on index -1 yet passes the row check; stepping
      right from the last box of the first row lands inside the board, on the
      first box of the next row, and only the row check rejects it. */
  lemma RowCheckNeedsBoundsCheck()
    ensures TruncDiv(0 + Offsets(3)[3].index, 3) == 0 + Offsets(3)[3].row
    ensures !Accepts(3, 9, 0, 0, Offsets(3)[3])
    ensures 0 <= 2 + Offsets(3)[4].index < 9
    ensures !Accepts(3, 9, 2, 0, Offsets(3)[4])
  {
  }

  /** Multiplication distributes over addition (stated once, so that callers stay linear). */
  lemma Distribute(a: int, b: int, w: int)
    ensures (a + b) * w == a * w + b * w
  {
  }

  /** A positive multiple of `w` is at least `w`. */
  lemma AtLeastOnce(x: int, w: int)
    requires x >= 1 && w > 0
    ensures x * w >= w
  {
  }

  /** A step of -1, 0 or 1 rows moves the flat index by `-w`, 0 or `w`. */
  lemma UnitStep(d: int, w: int)
    requires -1 <= d <= 1
    ensures d * w == if d == -1 then -w else if d == 0 then 0 else w
  {
  }

  /** The box in row `row` and column `column` sits at flat index
      `row * width + column`, and that index gives back its row and column. */
  lemma RowAndColumn(width: int, row: int, column: int)
    requires 0 < width && 0 <= column < width
    ensures (row * width + column) / width == row
    ensures (row * width + column) % width == column
  {
    var a := row * width + column;
    var q, m := a / width, a % width;
    assert a == q * width + m;
    Distribute(row, -q, width);
    assert (row - q) * width == m - column;
    if row - q >= 1 {
      AtLeastOnce(row - q, width);
    } else if q - row >= 1 {
      AtLeastOnce(q - row, width);
      Distribute(q, -row, width);
    }
  }

  /** The flat distance between two boxes, in rows and columns. */
  lemma Recompose(width: int, i: int, j: int)
    requires 0 < width
    ensures j - i == (j / width - i / width) * width + (j % width - i % width)
  {
    assert i == (i / width) * width + i % width;
    assert j == (j / width) * width + j % width;
    Distribute(j / width, -(i / width), width);
  }

  /** The arithmetic of StepLanding with the quotients and remainders named:
      a step of `dr` rows and `dc` columns from row `r`, column `c` that lands in
      row `r + dr` lands in column `c + dc`. */
  lemma Shift(w: int, r: int, c: int, dr: int, dc: int, q: int, m: int)
    requires -1 <= dr <= 1 && q == r + dr
    requires (r * w + c) + dr * w + dc == q * w + m
    ensures m == c + dc
  {
    UnitStep(dr, w);
    Distribute(r, dr, w);
  }

  /** Where a step of `dr` rows and `dc` columns lands: if the result is in row
      `row(index) + dr`, it is in column `column(index) + dc`. */
  lemma StepLanding(width: int, index: int, dr: int, dc: int)
    requires 0 < width && 0 <= index && -1 <= dr <= 1 && -1 <= dc <= 1
    requires index + dr * width + dc >= 0
    requires (index + dr * width + dc) / width == index / width + dr
    ensures (index + dr * width + dc) % width == index % width + dc
  {
    var j := index + dr * width + dc;
    Shift(width, index / width, index % width, dr, dc, j / width, j % width);
  }

  /** Every candidate the checks accept is adjacent to the box, exactly RowStep(k)
      rows and ColumnStep(k) columns away: a step never wraps round a row edge. */
  lemma AcceptedIsAdjacent(width: int, count: int, index: int, k: nat)
    requires 0 < width && 0 <= index < count && k < 8
    requires Accepts(width, count, index, index / width, Offsets(width)[k])
    ensures var j := index + Offsets(width)[k].index;
      0 <= j < count &&
      j / width == index / width + RowStep(k) &&
      j % width == index % width + ColumnStep(k) &&
      Adjacent(width, index, j)
  {
    OffsetSteps(width, k);
    var j := index + Offsets(width)[k].index;
    assert j / width == TruncDiv(j, width);
    StepLanding(width, index, RowStep(k), ColumnStep(k));
  }

  /** Every box adjacent to `i` is reached by some table entry that passes the checks. */
  lemma AdjacentIsAccepted(width: int, count: int, i: int, j: int) returns (k: nat)
    requires 0 < width && 0 <= i < count && 0 <= j < count
    requires Adjacent(width, i, j)
    ensures k < 8 && i + Offsets(width)[k].index == j
    ensures Accepts(width, count, i, i / width, Offsets(width)[k])
  {
    var dr, dc := j / width - i / width, j % width - i % width;
    Recompose(width, i, j);
    UnitStep(dr, width);
    k := if dr == -1 then 1 + dc else if dr == 0 then (if dc == -1 then 3 else 4) else 6 + dc;
    OffsetSteps(width, k);
    UnitStep(RowStep(k), width);
  }

  /** The boxes adjacent to `index` on a board of `count` boxes. */
  ghost function Around(width: int, count: int, index: int): set<int>
    requires width > 0
  {
    set j | 0 <= j < count && Adjacent(width, index, j)
  }

  /** The boxes that the entries `offsets` of the table lead to from box `index`
      (in row `row`) when they pass the row and bounds checks. */
  ghost function Reached(width: int, count: int, index: int, row: int, offsets: seq<Offset>): set<int>
    requires width > 0
  {
    if offsets == [] then {}
    else
      var o := offsets[|offsets| - 1];
      Reached(width, count, index, row, offsets[..|offsets| - 1]) +
        (if Accepts(width, count, index, row, o) then {index + o.index} else {})
  }

  /** One more entry of the table: its target joins the boxes reached when it passes the checks. */
  lemma ReachedStep(width: int, count: int, index: int, row: int, offsets: seq<Offset>, k: nat)
    requires width > 0 && k < |offsets|
    ensures Accepts(width, count, index, row, offsets[k]) ==>
      Reached(width, count, index, row, offsets[..k + 1]) ==
        Reached(width, count, index, row, offsets[..k]) + {index + offsets[k].index}
    ensures !Accepts(width, count, index, row, offsets[k]) ==>
      Reached(width, count, index, row, offsets[..k + 1]) == Reached(width, count, index, row, offsets[..k])
  {
    assert offsets[..k + 1][..k] == offsets[..k];
  }

  /** An entry that passes the checks puts its target among the boxes reached. */
  lemma {:induction false} AcceptedIsReached(width: int, count: int, index: int, row: int, offsets: seq<Offset>, k: nat)
    requires width > 0 && k < |offsets|
    requires Accepts(width, count, index, row, offsets[k])
    ensures index + offsets[k].index in Reached(width, count, index, row, offsets)
  {
    if k < |offsets| - 1 {
      var init := offsets[..|offsets| - 1];
      assert init[k] == offsets[k];
      AcceptedIsReached(width, count, index, row, init, k);
    }
  }

  /** The table reaches the whole neighbourhood: every box adjacent to `index`
      is the target of an entry that passes the checks. */
  lemma AroundIsReached(width: int, count: int, index: int)
    requires 0 < width && 0 <= index < count
    ensures Around(width, count, index) <= Reached(width, count, index, index / width, Offsets(width))
  {
    forall j | j in Around(width, count, index)
      ensures j in Reached(width, count, index, index / width, Offsets(width))
    {
      var k := AdjacentIsAccepted(width, count, index, j);
      AcceptedIsReached(width, count, index, index / width, Offsets(width), k);
    }
  }

  /** Table entry `o` passes the checks for `index` and points at a dangerous box. */
  predicate Hit(danger: seq<bool>, width: int, index: int, o: Offset)
    requires width > 0
  {
    Accepts(width, |danger|, index, TruncDiv(index, width), o) && danger[index + o.index]
  }

  /** How many of `offsets` are hits: the sum CountDangerNearby accumulates. */
  function TableCount(danger: seq<bool>, width: int, index: int, offsets: seq<Offset>): (n: nat)
    requires width > 0
    ensures n <= |offsets|
  {
    if offsets == [] then 0
    else
      TableCount(danger, width, index, offsets[..|offsets| - 1])
      + (if Hit(danger, width, index, offsets[|offsets| - 1]) then 1 else 0)
  }

  /** The reference definition: how many boxes adjacent to `index` are dangerous. */
  ghost function AdjacentDanger(danger: seq<bool>, width: int, index: int): nat
    requires width > 0
  {
    |set j | 0 <= j < |danger| && Adjacent(width, index, j) && danger[j]|
  }

  /** The boxes that the entries of `offsets` hit. */
  ghost function HitTargets(danger: seq<bool>, width: int, index: int, offsets: seq<Offset>): set<int>
    requires width > 0
  {
    set k | 0 <= k < |offsets| && Hit(danger, width, index, offsets[k]) :: index + offsets[k].index
  }

  /** Two different table entries that pass the checks reach two different boxes. */
  lemma DistinctHits(danger: seq<bool>, width: int, index: int, k: nat, l: nat)
    requires 0 < width && 0 <= index < |danger| && k < l < 8
    requires Hit(danger, width, index, Offsets(width)[k]) && Hit(danger, width, index, Offsets(width)[l])
    ensures index + Offsets(width)[k].index != index + Offsets(width)[l].index
  {
    AcceptedIsAdjacent(width, |danger|, index, k);
    AcceptedIsAdjacent(width, |danger|, index, l);
    OffsetSteps(width, k);
  }

  /** One more entry adds its target to the hits exactly when it is a hit. */
  lemma HitTargetsSnoc(danger: seq<bool>, width: int, index: int, offsets: seq<Offset>)
    requires 0 < width && offsets != []
    ensures var init, last := offsets[..|offsets| - 1], offsets[|offsets| - 1];
      HitTargets(danger, width, index, offsets) ==
        HitTargets(danger, width, index, init) +
          (if Hit(danger, width, index, last) then {index + last.index} else {})
  {
    var init, last := offsets[..|offsets| - 1], offsets[|offsets| - 1];
    var before, after := HitTargets(danger, width, index, init), HitTargets(danger, width, index, offsets);
    forall x | x in after
      ensures x in before || (Hit(danger, width, index, last) && x == index + last.index)
    {
      var k :| 0 <= k < |offsets| && Hit(danger, width, index, offsets[k]) && x == index + offsets[k].index;
      if k < |init| {
        assert init[k] == offsets[k];
      }
    }
    forall x | x in before ensures x in after
    {
      var k :| 0 <= k < |init| && Hit(danger, width, index, init[k]) && x == index + init[k].index;
      assert offsets[k] == init[k];
    }
    if Hit(danger, width, index, last) {
      assert index + last.index in after;
    }
  }

  /** When no two hits of `offsets` share an index step, the last hit reaches a
      box that none of the earlier entries hit. */
  lemma NewTarget(danger: seq<bool>, width: int, index: int, offsets: seq<Offset>)
    requires 0 < width && offsets != []
    requires forall k, l ::
      0 <= k < l < |offsets| && Hit(danger, width, index, offsets[k]) && Hit(danger, width, index, offsets[l]) ==>
      offsets[k].index != offsets[l].index
    requires Hit(danger, width, index, offsets[|offsets| - 1])
    ensures index + offsets[|offsets| - 1].index !in HitTargets(danger, width, index, offsets[..|offsets| - 1])
  {
    var init, last := offsets[..|offsets| - 1], offsets[|offsets| - 1];
    forall k | 0 <= k < |init| && Hit(danger, width, index, init[k])
      ensures index + init[k].index != index + last.index
    {
      assert init[k] == offsets[k];
    }
  }

  /** Entries whose hits all land on different boxes hit as many boxes as TableCount counts. */
  lemma {:induction false} HitTargetsCounted(danger: seq<bool>, width: int, index: int, offsets: seq<Offset>)
    requires 0 < width
    requires forall k, l ::
      0 <= k < l < |offsets| && Hit(danger, width, index, offsets[k]) && Hit(danger, width, index, offsets[l]) ==>
      offsets[k].index != offsets[l].index
    ensures |HitTargets(danger, width, index, offsets)| == TableCount(danger, width, index, offsets)
  {
    if offsets == [] {
      assert HitTargets(danger, width, index, offsets) == {};
    } else {
      var init := offsets[..|offsets| - 1];
      forall k, l | 0 <= k < l < |init| && Hit(danger, width, index, init[k]) && Hit(danger, width, index, init[l])
        ensures init[k].index != init[l].index
      {
        assert init[k] == offsets[k] && init[l] == offsets[l];
      }
      HitTargetsCounted(danger, width, index, init);
      HitTargetsSnoc(danger, width, index, offsets);
      if Hit(danger, width, index, offsets[|offsets| - 1]) {
        NewTarget(danger, width, index, offsets);
      }
    }
  }

  /** The eight table entries hit exactly the dangerous boxes adjacent to `index`. */
  lemma HitTargetsAreAdjacentDanger(danger: seq<bool>, width: int, index: int)
    requires 0 < width && 0 <= index < |danger|
    ensures HitTargets(danger, width, index, Offsets(width)) == set j | 0 <= j < |danger| && Adjacent(width, index, j) && danger[j]
  {
    var t := Offsets(width);
    forall j | j in HitTargets(danger, width, index, t)
      ensures 0 <= j < |danger| && Adjacent(width, index, j) && danger[j]
    {
      var k :| 0 <= k < 8 && Hit(danger, width, index, t[k]) && index + t[k].index == j;
      AcceptedIsAdjacent(width, |danger|, index, k);
    }
    forall j | 0 <= j < |danger| && Adjacent(width, index, j) && danger[j]
      ensures j in HitTargets(danger, width, index, t)
    {
      var k := AdjacentIsAccepted(width, |danger|, index, j);
      assert Hit(danger, width, index, t[k]);
    }
  }

  /** The accumulator of CountDangerNearby equals the number of dangerous adjacent boxes. */
  lemma TableCountIsAdjacentDanger(danger: seq<bool>, width: int, index: int)
    requires 0 < width && 0 <= index < |danger|
    ensures TableCount(danger, width, index, Offsets(width)) == AdjacentDanger(danger, width, index)
    ensures AdjacentDanger(danger, width, index) <= 8
  {
    var t := Offsets(width);
    forall k, l | 0 <= k < l < 8 && Hit(danger, width, index, t[k]) && Hit(danger, width, index, t[l])
      ensures t[k].index != t[l].index
    {
      DistinctHits(danger, width, index, k, l);
    }
    HitTargetsCounted(danger, width, index, t);
    HitTargetsAreAdjacentDanger(danger, width, index);
  }

  /** A safe count of zero means no adjacent box is dangerous, and conversely. */
  lemma ZeroMeansNoAdjacentDanger(danger: seq<bool>, width: int, index: int)
    requires 0 < width && 0 <= index < |danger|
    ensures AdjacentDanger(danger, width, index) == 0 <==>
      forall j :: 0 <= j < |danger| && Adjacent(width, index, j) ==> !danger[j]
  {
    var s := set j | 0 <= j < |danger| && Adjacent(width, index, j) && danger[j];
    if exists j :: 0 <= j < |danger| && Adjacent(width, index, j) && danger[j] {
      var j :| 0 <= j < |danger| && Adjacent(width, index, j) && danger[j];
      assert j in s;
    } else {
      assert s == {};
    }
  }
}
