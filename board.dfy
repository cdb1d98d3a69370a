/**
 * The board (Board.cs): a flat sequence of `width * height` boxes, row after row.
 * It places the dangerous boxes with a shuffled list, charges every box with
 * its danger flag and the number of dangerous neighbours, resolves clicks
 * (flood-filling outward from boxes with no dangerous neighbour), and decides
 * when the round is won. Click results are returned instead of passed to a
 * callback, and the random source is the injected sequence of draws.
 */
module Boards {
  import opened Optional
  import opened Boxes
  import opened Neighbours
  import opened ListHelper

  /** What a click amounts to. */
  datatype Event = ClickedBlank | ClickedNearDanger | ClickedDanger | Win

  /** The danger list RechargeBoxes builds before shuffling: entry `count` is
      `count < numberOfDangerousBoxes`. */
  function InitialDangers(numberOfItems: nat, numberOfDangerousBoxes: int): (s: seq<bool>)
    ensures |s| == numberOfItems
    ensures forall c :: 0 <= c < |s| ==> (s[c] <==> c < Clamp(numberOfDangerousBoxes, numberOfItems))
  {
    seq(numberOfItems, count => count < numberOfDangerousBoxes)
  }

  /** `k` clamped to `[0, n]`. */
  function Clamp(k: int, n: nat): nat
  {
    if k < 0 then 0 else if k > n then n else k
  }

  /** The unshuffled list holds `min(max(k, 0), n)` dangerous entries. */
  lemma {:induction false} InitialDangerCount(n: nat, k: int)
    ensures Occurrences(InitialDangers(n, k), true) == Clamp(k, n)
  {
    if n > 0 {
      InitialDangerCount(n - 1, k);
      assert InitialDangers(n, k)[..n - 1] == InitialDangers(n - 1, k);
    }
  }

  /** The flat indices the `Awake` loops hand to Box.Setup, in order: for each
      row below `rows` and each column below `columns`, `row * width + column`. */
  function SetupOrder(rows: nat, columns: nat, width: int): (s: seq<int>)
    ensures |s| == rows * columns
  {
    if rows == 0 then []
    else SetupOrder(rows - 1, columns, width) + seq(columns, column => (rows - 1) * width + column)
  }

  /** As written, `Awake` runs its row loop up to Width and its column loop up to
      Height. On a board 2 wide and 3 high, index 2 is set up twice and index 5
      never, so that box stays null; on a board 3 wide and 2 high, the order reaches
      index 6 of the 6-box array, and the write there throws. */
  lemma AwakeAsWrittenMisplacesBoxes()
    ensures SetupOrder(2, 3, 2) == [0, 1, 2, 2, 3, 4]
    ensures SetupOrder(3, 2, 3) == [0, 1, 3, 4, 6, 7]
  {
    assert SetupOrder(1, 3, 2) == [0, 1, 2];
    assert SetupOrder(2, 3, 2) == [0, 1, 2] + [2, 3, 4];
    assert SetupOrder(1, 2, 3) == [0, 1];
    assert SetupOrder(2, 2, 3) == [0, 1] + [3, 4];
    assert SetupOrder(3, 2, 3) == [0, 1, 3, 4] + [6, 7];
  }

  /** With the row loop bounded by the height and the column loop by the width,
      the loops visit every index of the board once, in increasing order. */
  lemma {:induction false} SetupOrderCoversBoard(width: nat, rows: nat)
    ensures |SetupOrder(rows, width, width)| == rows * width
    ensures forall i :: 0 <= i < rows * width ==> SetupOrder(rows, width, width)[i] == i
  {
    if rows > 0 {
      SetupOrderCoversBoard(width, rows - 1);
      var s := SetupOrder(rows, width, width);
      var prefix := SetupOrder(rows - 1, width, width);
      assert (rows - 1) * width + width == rows * width;
      forall i | 0 <= i < rows * width ensures s[i] == i {
        if i >= (rows - 1) * width {
          assert s[i] == (rows - 1) * width + (i - (rows - 1) * width);
        } else {
          assert s[i] == prefix[i];
        }
      }
    }
  }

  /** `after` is `before` with the boxes in `revealed` revealed, each of them
      safe; every other box is exactly as it was. */
  ghost predicate RevealedOnly(before: seq<BoxState>, after: seq<BoxState>, revealed: set<int>)
  {
    |after| == |before| &&
    (forall i :: 0 <= i < |before| && i !in revealed ==> after[i] == before[i]) &&
    (forall v :: v in revealed ==>
      0 <= v < |before| && !before[v].data.isDangerous && after[v] == Revealed(before[v]))
  }

  /** Two rounds of revealing are one round revealing both sets. */
  lemma RevealedOnlyComposes(a: seq<BoxState>, b: seq<BoxState>, c: seq<BoxState>, r1: set<int>, r2: set<int>)
    requires RevealedOnly(a, b, r1) && RevealedOnly(b, c, r2)
    ensures RevealedOnly(a, c, r1 + r2)
  {
    forall v | v in r1 + r2
      ensures 0 <= v < |a| && !a[v].data.isDangerous && c[v] == Revealed(a[v])
    {
      if v in r1 && v in r2 {
        RevealedIdempotent(a[v]);
      }
    }
  }

  /** Box `j` of the snapshot can no longer be revealed by the cascade: its button
      is off or it is dangerous. */
  ghost predicate BlockedIn(s: seq<BoxState>, j: int)
  {
    0 <= j < |s| && (!s[j].look.active || s[j].data.isDangerous)
  }

  /** Revealing keeps blocked boxes blocked. */
  lemma RevealingKeepsBlocked(before: seq<BoxState>, after: seq<BoxState>, revealed: set<int>, blocked: set<int>)
    requires RevealedOnly(before, after, revealed)
    requires forall j :: j in blocked ==> BlockedIn(before, j)
    ensures forall j :: j in blocked ==> BlockedIn(after, j)
  {
  }

  /** What the cascade has done between snapshots `start` and `now`: revealed
      exactly `revealed`, left every box of `blocked` inactive or dangerous, and
      finished its neighbour sweep around every revealed blank box outside
      `open`, each such neighbourhood lying inside `blocked`. */
  ghost predicate Spread(width: int, start: seq<BoxState>, now: seq<BoxState>,
                         revealed: set<int>, blocked: set<int>, open: set<int>)
    requires width > 0
  {
    RevealedOnly(start, now, revealed) &&
    (forall j :: j in blocked ==> BlockedIn(now, j)) &&
    (forall v :: v in revealed && v !in open && start[v].data.dangerNearby == 0 ==>
      Around(width, |start|, v) <= blocked)
  }

  /** A finished cascade run after a partial one is one partial run covering both. */
  lemma SpreadComposes(width: int, start: seq<BoxState>, middle: seq<BoxState>, after: seq<BoxState>,
                       r1: set<int>, b1: set<int>, r2: set<int>, b2: set<int>, open: set<int>)
    requires width > 0
    requires Spread(width, start, middle, r1, b1, open) && Spread(width, middle, after, r2, b2, {})
    ensures Spread(width, start, after, r1 + r2, b1 + b2, open)
  {
    RevealedOnlyComposes(start, middle, after, r1, r2);
    RevealingKeepsBlocked(middle, after, r2, b1);
    forall v | v in r1 + r2 && v !in open && start[v].data.dangerNearby == 0
      ensures Around(width, |start|, v) <= b1 + b2
    {
      if v !in r1 {
        assert middle[v] == start[v];
      }
    }
  }

  /** Once the sweep around box `id` is over (or was never due, the box having
      a dangerous neighbour), the box no longer needs to be held open. */
  lemma SpreadCloses(width: int, start: seq<BoxState>, now: seq<BoxState>,
                     revealed: set<int>, blocked: set<int>, id: int)
    requires width > 0 && 0 <= id < |start|
    requires Spread(width, start, now, revealed, blocked, {id})
    requires start[id].data.dangerNearby == 0 ==> Around(width, |start|, id) <= blocked
    ensures Spread(width, start, now, revealed, blocked, {})
  {
  }

  /** Every box the cascade revealed, other than `root` where it started, was
      active in `start` and lies next to a revealed box with no dangerous
      neighbour: the cascade spreads only out of blank boxes, into active ones. */
  ghost predicate Supported(width: int, start: seq<BoxState>, revealed: set<int>, root: int)
    requires width > 0
  {
    forall v :: v in revealed && v != root ==>
      0 <= v < |start| && start[v].look.active &&
      exists u :: u in revealed && 0 <= u < |start| && start[u].data.dangerNearby == 0 && Adjacent(width, u, v)
  }

  /** A cascade started at `next`, an active box next to the revealed blank box
      `u`, extends a supported cascade to a supported cascade. */
  lemma SupportedComposes(width: int, start: seq<BoxState>, middle: seq<BoxState>,
                          r1: set<int>, r2: set<int>, root: int, next: int, u: int)
    requires width > 0
    requires RevealedOnly(start, middle, r1)
    requires Supported(width, start, r1, root) && Supported(width, middle, r2, next)
    requires 0 <= next < |middle| && middle[next].look.active
    requires u in r1 && 0 <= u < |start| && start[u].data.dangerNearby == 0 && Adjacent(width, u, next)
    ensures Supported(width, start, r1 + r2, root)
  {
    forall v | v in r1 + r2 && v != root
      ensures 0 <= v < |start| && start[v].look.active
      ensures exists w :: w in r1 + r2 && 0 <= w < |start| && start[w].data.dangerNearby == 0 && Adjacent(width, w, v)
    {
      if v in r1 {
        var w :| w in r1 && 0 <= w < |start| && start[w].data.dangerNearby == 0 && Adjacent(width, w, v);
      } else if v == next {
        assert middle[v] == start[v];
      } else {
        assert middle[v] == start[v];
        var w :| w in r2 && 0 <= w < |middle| && middle[w].data.dangerNearby == 0 && Adjacent(width, w, v);
        assert start[w].data == middle[w].data;
      }
    }
  }

  /** A click as a whole, on snapshots: the clicked box `index` changes its look
      only (`before` to `clicked`), then a cascade reveals `revealed` (`clicked`
      to `after`). Every other box is revealed or untouched, and support does
      not depend on how the clicked box looked. */
  lemma ClickComposes(width: int, before: seq<BoxState>, clicked: seq<BoxState>, after: seq<BoxState>,
                      revealed: set<int>, index: int)
    requires width > 0 && |clicked| == |before| && 0 <= index < |before|
    requires forall i :: 0 <= i < |before| && i != index ==> clicked[i] == before[i]
    requires clicked[index].data == before[index].data
    requires RevealedOnly(clicked, after, revealed) && Supported(width, clicked, revealed, index)
    ensures forall i :: 0 <= i < |before| && i != index && i !in revealed ==> after[i] == before[i]
    ensures forall v :: v in revealed && v != index ==> after[v] == Revealed(before[v])
    ensures forall v :: v in revealed ==> 0 <= v < |before| && !after[v].data.isDangerous
    ensures Supported(width, before, revealed, index)
  {
    forall v | v in revealed && v != index
      ensures exists u :: u in revealed && 0 <= u < |before| && before[u].data.dangerNearby == 0 && Adjacent(width, u, v)
    {
      var u :| u in revealed && 0 <= u < |clicked| && clicked[u].data.dangerNearby == 0 && Adjacent(width, u, v);
      assert before[u].data == clicked[u].data;
    }
  }

  /** After a finished cascade, every box adjacent to a revealed blank box is
      inactive or dangerous. */
  lemma SpreadSettles(width: int, start: seq<BoxState>, now: seq<BoxState>,
                      revealed: set<int>, blocked: set<int>, v: int)
    requires width > 0
    requires Spread(width, start, now, revealed, blocked, {})
    requires v in revealed && now[v].data.dangerNearby == 0
    ensures forall j :: 0 <= j < |now| && Adjacent(width, v, j) ==> BlockedIn(now, j)
  {
    forall j | 0 <= j < |now| && Adjacent(width, v, j) ensures BlockedIn(now, j) {
      assert j in Around(width, |start|, v);
    }
  }

  /** Entry `i` of `counts` is zero when box `i` is dangerous and the number of
      dangerous boxes adjacent to it otherwise. */
  ghost predicate CountsAgree(width: int, danger: seq<bool>, counts: seq<int>)
    requires 0 < width
  {
    |counts| == |danger| &&
    forall i :: 0 <= i < |danger| ==> counts[i] == if danger[i] then 0 else AdjacentDanger(danger, width, i)
  }

  /** Box `b` knows that it sits at flat index `i`. */
  predicate Placed(b: Box, i: int, width: int)
    requires 0 < width
  {
    b.id == i && b.rowIndex == i / width && b.columnIndex == i % width
  }

  /** Box `b` is as a freshly made box is: button on, text and image hidden, no danger. */
  ghost predicate Ready(b: Box)
    reads b
  {
    b.Look() == Face(true, false, false) && b.dangerNearby == 0 && !b.isDangerous
  }

  class Board {
    const width: int
    const height: int
    const numberOfDangerousBoxes: int
    const grid: seq<Box>
    const neighbours: seq<Offset>

    /** The board's invariant: `width * height` boxes, box `i` knows its index,
        row and column, and the neighbour table is the one for `width`. Box
        positions are constants, so no box method can disturb it. */
    ghost predicate Valid()
    {
      0 < width && 0 < height && |grid| == width * height && neighbours == Offsets(width) &&
      (forall i :: 0 <= i < |grid| ==> grid[i].id == i) &&
      (forall i {:trigger grid[i].rowIndex} :: 0 <= i < |grid| ==> grid[i].rowIndex == i / width) &&
      (forall i {:trigger grid[i].columnIndex} :: 0 <= i < |grid| ==> grid[i].columnIndex == i % width)
    }

    /** The danger flags of the boxes, in board order. */
    ghost function Dangers(): (s: seq<bool>)
      reads this, grid
      ensures |s| == |grid|
      ensures forall i :: 0 <= i < |grid| ==> s[i] == grid[i].isDangerous
    {
      seq(|grid|, i requires 0 <= i < |grid| reads grid => grid[i].isDangerous)
    }

    /** The indices of the boxes whose button is on. */
    ghost function Active(): (s: set<int>)
      reads this, grid
      ensures forall i :: i in s <==> 0 <= i < |grid| && grid[i].interactable
    {
      set i | 0 <= i < |grid| && grid[i].interactable
    }

    /** The state of every box, in board order. */
    ghost function States(): (s: seq<BoxState>)
      reads this, grid
      ensures |s| == |grid|
      ensures forall i {:trigger s[i]} :: 0 <= i < |grid| ==> s[i] == grid[i].State()
    {
      seq(|grid|, i requires 0 <= i < |grid| reads grid => grid[i].State())
    }

    /** The danger counts of the boxes, in board order. */
    ghost function Counts(): (s: seq<int>)
      reads this, grid
      ensures |s| == |grid|
      ensures forall i :: 0 <= i < |grid| ==> s[i] == grid[i].dangerNearby
    {
      seq(|grid|, i requires 0 <= i < |grid| reads grid => grid[i].dangerNearby)
    }

    /** Every count agrees with the danger flags: zero on a dangerous box, the
        number of dangerous adjacent boxes on a safe one. */
    ghost predicate Consistent()
      requires 0 < width
      reads this, grid
    {
      CountsAgree(width, Dangers(), Counts())
    }

    /** The round is won: no safe box is still active. */
    ghost predicate Won()
      reads this, grid
    {
      forall i :: 0 <= i < |grid| ==> grid[i].isDangerous || !grid[i].interactable
    }

    /** The cascade has nowhere left to go from box `v`: every box adjacent to it
        is inactive or dangerous. */
    ghost predicate Settled(v: int)
      requires 0 < width
      reads this, grid
    {
      forall j :: 0 <= j < |grid| && Adjacent(width, v, j) ==> !grid[j].interactable || grid[j].isDangerous
    }

    /** `Awake` with its loops bounded the intended way round (rows by the height,
        columns by the width): one new box per index, set up with its row and column. */
    constructor (width: int, height: int, numberOfDangerousBoxes: int)
      requires 0 < width && 0 < height
      ensures this.width == width && this.height == height
      ensures this.numberOfDangerousBoxes == numberOfDangerousBoxes
      ensures Valid()
      ensures forall i :: 0 <= i < |grid| ==> fresh(grid[i]) && Ready(grid[i])
    {
      this.width := width;
      this.height := height;
      this.numberOfDangerousBoxes := numberOfDangerousBoxes;
      neighbours := Offsets(width);
      var boxes: seq<Box> := [];
      for row := 0 to height
        invariant |boxes| == row * width
        invariant forall i :: 0 <= i < |boxes| ==> Placed(boxes[i], i, width) && fresh(boxes[i]) && Ready(boxes[i])
      {
        for column := 0 to width
          invariant |boxes| == row * width + column
          invariant forall i :: 0 <= i < |boxes| ==> Placed(boxes[i], i, width) && fresh(boxes[i]) && Ready(boxes[i])
        {
          var index := row * width + column;
          RowAndColumn(width, row, column);
          var box := new Box(index, row, column);
          boxes := boxes + [box];
        }
        assert row * width + width == (row + 1) * width;
      }
      grid := boxes;
    }

    /** Stand every box down, in board order. */
    method Clear()
      requires Valid()
      modifies grid
      ensures forall i :: 0 <= i < |grid| ==>
        grid[i].Look() == Face(false, false, false) && grid[i].Data() == old(grid[i].Data())
    {
      for index := 0 to |grid|
        invariant forall i :: 0 <= i < |grid| ==> grid[i].Data() == old(grid[i].Data())
        invariant forall i :: 0 <= i < index ==> grid[i].Look() == Face(false, false, false)
      {
        grid[index].StandDown();
      }
    }

    /** The number of dangerous boxes adjacent to box `index` in the list `danger`,
        or 0 when that box is itself dangerous. */
    method CountDangerNearby(danger: seq<bool>, index: int) returns (result: int)
      requires 0 < width && neighbours == Offsets(width)
      requires 0 <= index < |danger|
      ensures result == if danger[index] then 0 else AdjacentDanger(danger, width, index)
      ensures 0 <= result <= 8
    {
      result := 0;
      var boxRow := TruncDiv(index, width);
      if !danger[index] {
        for count := 0 to |neighbours|
          invariant result == TableCount(danger, width, index, neighbours[..count])
        {
          var neighbourIndex := index + neighbours[count].index;
          var expectedRow := boxRow + neighbours[count].row;
          var neighbourRow := TruncDiv(neighbourIndex, width);
          result := result +
            if expectedRow == neighbourRow && neighbourIndex >= 0 && neighbourIndex < |danger| && danger[neighbourIndex]
            then 1 else 0;
          assert neighbours[..count + 1][..count] == neighbours[..count];
        }
        assert neighbours[..|neighbours|] == neighbours;
        TableCountIsAdjacentDanger(danger, width, index);
      }
    }

    /** A new round: shuffle a list holding `numberOfDangerousBoxes` dangerous
        entries (clamped to the board) and charge every box from it. */
    method RechargeBoxes(draws: seq<int>)
      requires Valid()
      requires ValidDraws(draws, |grid|)
      modifies grid
      ensures Dangers() == Shuffled(InitialDangers(|grid|, numberOfDangerousBoxes), draws)
      ensures Occurrences(Dangers(), true) == Clamp(numberOfDangerousBoxes, |grid|)
      ensures Consistent()
      ensures forall i :: 0 <= i < |grid| ==>
        grid[i].Look() == Face(true, false, false) && grid[i].text == TextFor(grid[i].dangerNearby)
    {
      var numberOfItems := width * height;
      var dangerList := new bool[numberOfItems];
      for count := 0 to numberOfItems
        modifies dangerList
        invariant forall c :: 0 <= c < count ==> dangerList[c] == (c < numberOfDangerousBoxes)
      {
        dangerList[count] := count < numberOfDangerousBoxes;
      }
      ghost var initial := dangerList[..];
      assert initial == InitialDangers(numberOfItems, numberOfDangerousBoxes);
      RandomShuffle(dangerList, draws);
      ChargeFrom(dangerList[..]);
      ShuffledPreservesOccurrences(initial, draws, true);
      InitialDangerCount(numberOfItems, numberOfDangerousBoxes);
    }

    /** Box `b`, at index `i`, holds what ChargeFrom gives it from the list
        `danger`: its flag, its count, the fresh look and the matching text. */
    ghost predicate ChargedFrom(danger: seq<bool>, i: int, b: Box)
      requires 0 < width && 0 <= i < |danger|
      reads b
    {
      b.isDangerous == danger[i] &&
      b.dangerNearby == (if danger[i] then 0 else AdjacentDanger(danger, width, i)) &&
      b.Look() == Face(true, false, false) && b.text == TextFor(b.dangerNearby)
    }

    /** The second half of RechargeBoxes: box `index` takes the flag `danger[index]`
        and the number of dangerous entries around it. The row and column loops
        visit every index once, in increasing order (SetupOrderCoversBoard), so
        they are written here as one loop over the flat index. */
    method ChargeFrom(danger: seq<bool>)
      requires Valid()
      requires |danger| == |grid|
      modifies grid
      ensures Dangers() == danger
      ensures Consistent()
      ensures forall i :: 0 <= i < |grid| ==>
        grid[i].Look() == Face(true, false, false) && grid[i].text == TextFor(grid[i].dangerNearby)
    {
      for index := 0 to |grid|
        invariant forall i :: 0 <= i < index ==> ChargedFrom(danger, i, grid[i])
      {
        var nearby := CountDangerNearby(danger, index);
        grid[index].Charge(nearby, danger[index]);
      }
      assert Dangers() == danger;
    }

    /** True exactly when no safe box is still active. */
    method CheckForWin() returns (result: bool)
      ensures result <==> forall i :: 0 <= i < |grid| ==> grid[i].isDangerous || !grid[i].IsActive()
    {
      result := true;
      var count := 0;
      while result && count < |grid|
        invariant 0 <= count <= |grid|
        invariant result ==> forall i :: 0 <= i < count ==> grid[i].isDangerous || !grid[i].interactable
        invariant !result ==> exists i :: 0 <= i < count && !grid[i].isDangerous && grid[i].interactable
      {
        if !grid[count].isDangerous && grid[count].IsActive() {
          result := false;
        }
        count := count + 1;
      }
    }

    /** The flood fill: reveal a safe box and, when none of its neighbours is
        dangerous, carry on into every neighbour that is still active. A
        dangerous box is left alone. Each recursive call targets an active box
        and Reveal deactivates it, so the number of active boxes measures the
        recursion. `revealed` and `blocked` are ghost records of the cascade:
        the boxes it revealed, and boxes it leaves inactive or dangerous. */
    method RecursiveClearBlanks(box: Box) returns (ghost revealed: set<int>, ghost blocked: set<int>)
      requires Valid()
      requires 0 <= box.id < |grid| && grid[box.id] == box
      modifies grid
      decreases Active(), if box.interactable then 1 else 3
      ensures Valid()
      ensures Spread(width, old(States()), States(), revealed, blocked, {})
      ensures Supported(width, old(States()), revealed, box.id)
      ensures old(box.isDangerous) ==> revealed == {}
      ensures !old(box.isDangerous) ==> box.id in revealed
      ensures box.id in blocked
      ensures Active() <= old(Active())
    {
      revealed, blocked := {}, {box.id};
      if !box.isDangerous {
        ghost var start := States();
        box.Reveal();
        revealed := {box.id};
        assert Spread(width, start, States(), revealed, blocked, {box.id});
        if box.dangerNearby == 0 {
          ghost var active := Active();
          // the targets of the table entries that passed the checks so far
          ghost var reached: set<int> := {};
          for count := 0 to |neighbours|
            invariant Spread(width, start, States(), revealed, blocked, {box.id}) && box.id in revealed * blocked
            invariant Supported(width, start, revealed, box.id)
            invariant reached == Reached(width, |grid|, box.id, box.rowIndex, neighbours[..count])
            invariant reached <= blocked
            invariant Active() <= active
          {
            revealed, blocked, reached := ClearToward(box, count, start, revealed, blocked, reached);
          }
          assert neighbours[..|neighbours|] == neighbours;
          AroundIsReached(width, |grid|, box.id);
        }
        SpreadCloses(width, start, States(), revealed, blocked, box.id);
      }
    }

    /** One iteration of the neighbour loop of RecursiveClearBlanks: table entry
        `count`, when it passes the row and bounds checks (as in CountDangerNearby)
        and leads to an active box, starts the flood fill there. The ghost
        parameters carry the loop's record of the cascade so far. */
    method ClearToward(box: Box, count: int, ghost start: seq<BoxState>, ghost revealed0: set<int>,
                       ghost blocked0: set<int>, ghost reached0: set<int>)
      returns (ghost revealed: set<int>, ghost blocked: set<int>, ghost reached: set<int>)
      requires Valid()
      requires 0 <= box.id < |grid| && grid[box.id] == box && 0 <= count < |neighbours|
      requires Spread(width, start, States(), revealed0, blocked0, {box.id})
      requires Supported(width, start, revealed0, box.id)
      requires box.id in revealed0 && start[box.id].data.dangerNearby == 0
      requires reached0 == Reached(width, |grid|, box.id, box.rowIndex, neighbours[..count]) && reached0 <= blocked0
      modifies grid
      decreases Active(), 2
      ensures Valid()
      ensures Spread(width, start, States(), revealed, blocked, {box.id})
      ensures Supported(width, start, revealed, box.id)
      ensures revealed0 <= revealed && blocked0 <= blocked
      ensures reached == Reached(width, |grid|, box.id, box.rowIndex, neighbours[..count + 1]) && reached <= blocked
      ensures Active() <= old(Active())
    {
      revealed, blocked, reached := revealed0, blocked0, reached0;
      ReachedStep(width, |grid|, box.id, box.rowIndex, neighbours, count);
      var neighbourIndex := box.id + neighbours[count].index;
      var passes := Accepts(width, |grid|, box.id, box.rowIndex, neighbours[count]);
      if passes && grid[neighbourIndex].IsActive() {
        ghost var middle := States();
        AcceptedIsAdjacent(width, |grid|, box.id, count);
        var more, moreBlocked := RecursiveClearBlanks(grid[neighbourIndex]);
        SpreadComposes(width, start, middle, States(), revealed, blocked, more, moreBlocked, {box.id});
        SupportedComposes(width, start, middle, revealed, more, box.id, neighbourIndex, box.id);
        revealed, blocked, reached := revealed + more, blocked + moreBlocked, reached + {neighbourIndex};
      } else if passes {
        assert BlockedIn(States(), neighbourIndex);
        blocked, reached := blocked + {neighbourIndex}, reached + {neighbourIndex};
      }
    }
    /** With counts that agree with the danger flags, a safe box with a count of
        zero has no dangerous neighbour, so once the cascade has nowhere left to
        go from it, every box adjacent to it is inactive. */
    lemma SettledIsInactive(v: int)
      requires Valid() && Consistent()
      requires 0 <= v < |grid| && !grid[v].isDangerous && grid[v].dangerNearby == 0
      requires Settled(v)
      ensures forall j :: 0 <= j < |grid| && Adjacent(width, v, j) ==> !grid[j].interactable
    {
      ZeroMeansNoAdjacentDanger(Dangers(), width, v);
    }

    /** The board's handler for a click on `box`, which the box has already
        processed: a dangerous box gives ClickedDanger, a box with a dangerous
        neighbour ClickedNearDanger, and a blank box ClickedBlank after the
        flood fill from it. Whatever the click was, Win replaces it when no safe
        box is left active. The event is returned instead of passed to the
        callback; `revealed` is the ghost record of the boxes the cascade revealed. */
    /** ClearNearbyBlanks: start the cascade at a box (nothing happens on a
        dangerous one). Only looks change: every box keeps its data, so the
        flags and counts are those of before, and every revealed blank box ends
        up with no active safe neighbour. */
    method ClearNearbyBlanks(box: Box) returns (ghost revealed: set<int>)
      requires Valid()
      requires 0 <= box.id < |grid| && grid[box.id] == box
      modifies grid
      ensures RevealedOnly(old(States()), States(), revealed)
      ensures Supported(width, old(States()), revealed, box.id)
      ensures old(box.isDangerous) ==> revealed == {}
      ensures !old(box.isDangerous) ==> box.id in revealed
      ensures forall i :: 0 <= i < |grid| ==> grid[i].Data() == old(grid[i].Data())
      ensures Dangers() == old(Dangers()) && Counts() == old(Counts())
      ensures old(Consistent()) ==> Consistent()
      ensures Active() <= old(Active())
      ensures forall v :: v in revealed ==> 0 <= v < |grid| && (grid[v].dangerNearby == 0 ==> Settled(v))
    {
      ghost var start := States();
      ghost var blocked;
      revealed, blocked := RecursiveClearBlanks(box);
      forall v | v in revealed && grid[v].dangerNearby == 0 ensures Settled(v) {
        SpreadSettles(width, start, States(), revealed, blocked, v);
      }
      forall i | 0 <= i < |grid| ensures grid[i].Data() == old(grid[i].Data()) {
        assert States()[i] == start[i] || States()[i] == Revealed(start[i]);
      }
      assert Dangers() == old(Dangers()) && Counts() == old(Counts());
    }

    method OnClickedBox(box: Box) returns (clickEvent: Event, ghost revealed: set<int>)
      requires Valid()
      requires 0 <= box.id < |grid| && grid[box.id] == box
      modifies grid
      ensures clickEvent ==
        if Won() then Win
        else if box.isDangerous then ClickedDanger
        else if box.dangerNearby > 0 then ClickedNearDanger
        else ClickedBlank
      ensures RevealedOnly(old(States()), States(), revealed)
      ensures revealed == {} <==> box.isDangerous || box.dangerNearby > 0
      ensures revealed != {} ==> box.id in revealed
      ensures forall i :: 0 <= i < |grid| ==> grid[i].Data() == old(grid[i].Data())
      ensures Active() <= old(Active())
      ensures forall v :: v in revealed ==> 0 <= v < |grid| && (grid[v].dangerNearby == 0 ==> Settled(v))
      ensures old(Consistent()) ==> Consistent()
      ensures Supported(width, old(States()), revealed, box.id)
    {
      revealed := {};
      if box.isDangerous {
        clickEvent := ClickedDanger;
      } else if box.dangerNearby > 0 {
        clickEvent := ClickedNearDanger;
      } else {
        clickEvent := ClickedBlank;
        revealed := ClearNearbyBlanks(box);
      }
      var win := CheckForWin();
      if win {
        clickEvent := Win;
      }
    }

    /** The box's own click handler (Box.OnClick) run on box `index`, as the
        board sees it: that box changes its look only, and no other box changes. */
    method Press(index: int)
      requires Valid()
      requires 0 <= index < |grid|
      modifies grid[index]
      ensures grid[index].Look() == if grid[index].isDangerous then Face(false, old(grid[index].textShown), true)
                                    else Face(false, true, old(grid[index].dangerShown))
      ensures forall i :: 0 <= i < |grid| ==> grid[i].Data() == old(grid[i].Data())
      ensures forall i :: 0 <= i < |grid| && i != index ==> States()[i] == old(States())[i]
      ensures Dangers() == old(Dangers()) && Counts() == old(Counts())
      ensures Active() <= old(Active())
    {
      grid[index].OnClick();
      assert Dangers() == old(Dangers()) && Counts() == old(Counts());
    }

    /** A click on box `index`: the box's own handler, then the board's. The
        button delivers clicks only while it is interactable, so a click on an
        inactive box gives no event and changes nothing. */
    method Click(index: int) returns (clickEvent: Option<Event>, ghost revealed: set<int>)
      requires Valid()
      requires 0 <= index < |grid|
      modifies grid
      ensures !old(grid[index].interactable) ==> clickEvent == None && States() == old(States())
      ensures old(grid[index].interactable) ==> clickEvent == Some(
        if Won() then Win
        else if grid[index].isDangerous then ClickedDanger
        else if grid[index].dangerNearby > 0 then ClickedNearDanger
        else ClickedBlank)
      ensures old(grid[index].interactable) ==>
        grid[index].Look() == if grid[index].isDangerous then Face(false, old(grid[index].textShown), true)
                              else Face(false, true, old(grid[index].dangerShown))
      ensures revealed == {} <==> !old(grid[index].interactable) || grid[index].isDangerous || grid[index].dangerNearby > 0
      ensures forall i :: 0 <= i < |grid| ==> grid[i].Data() == old(grid[i].Data())
      ensures forall v :: v in revealed ==> 0 <= v < |grid| && !grid[v].isDangerous
      ensures forall v :: v in revealed ==> 0 <= v < |grid| && (grid[v].dangerNearby == 0 ==> Settled(v))
      ensures old(Consistent()) ==> Consistent()
      ensures forall i :: 0 <= i < |grid| && i != index && i !in revealed ==> States()[i] == old(States())[i]
      ensures forall v :: v in revealed && v != index ==> States()[v] == Revealed(old(States())[v])
      ensures Active() <= old(Active())
      ensures Supported(width, old(States()), revealed, index)
    {
      revealed := {};
      var box := grid[index];
      if !box.IsActive() {
        clickEvent := None;
        return;
      }
      ghost var before := States();
      Press(index);
      ghost var clicked := States();
      var e;
      e, revealed := OnClickedBox(box);
      ClickComposes(width, before, clicked, States(), revealed, index);
      clickEvent := Some(e);
    }
  }
}
