# Minesweeper board kernel in Dafny

This project models the logic kernel of a Unity Minesweeper-style game. The
kernel is three C# files:

- `Board.cs` owns a flat array of `Width * Height` boxes. It places the dangerous boxes, counts each box's dangerous neighbours, resolves clicks, flood-fills from boxes with no dangerous neighbour, and detects the win.
- `Box.cs` is one cell. It holds its position and danger data and switches its button, count text and danger image on and off.
- `ListHelper.cs` holds the in-place swap shuffle used to place the dangers.

Files:

- `optional.dfy`: the `Option` type.
- `list_helper.dfy` (module `ListHelper`): `RandomShuffle` on an `array`, proved against the specification function `Shuffled`.
- `box.dfy` (module `Boxes`): the class `Box` with the source's fields. Each method states the box's whole new state. `BoxState` is a value snapshot of a box.
- `neighbours.dfy` (module `Neighbours`): the eight-entry neighbour table and C#'s truncating division. It proves that the row and bounds checks accept exactly the grid-adjacent boxes. It also proves that the count `CountDangerNearby` accumulates equals the number of adjacent dangerous boxes, a reference definition.
- `board.dfy` (module `Boards`): the class `Board`. Its methods are the source's methods. The flood fill is proved terminating and safe against value snapshots of the board (`States()`).

The random source is a parameter. `draws[index]` stands for the value
`Random.Range(index, count)` returns at iteration `index`, and `ValidDraws`
states the only thing known about it: `index <= draws[index] < count`.

The callbacks (`Action<Event>`, `Action<Box>`) are replaced by return values:
`Board.OnClickedBox` and `Board.Click` return the event.

The Unity components (`_button`, `_textDisplay`, `Danger`) are taken to
exist, so every null check takes its guarded branch. `Box.IsActive` is by
definition the button's `interactable` flag.

## Model

| member | source | states |
|---|---|---|
| ListHelper.RandomShuffle | Assets/Scripts/ListHelper.cs:5-16 | the array afterwards is `Shuffled` of the array before, a permutation (same multiset) of it; every access is in bounds given `index <= r < count` |
| ListHelper.ShuffledFrom | Assets/Scripts/ListHelper.cs:9-15 | the swap loop from any iteration on keeps the length and the multiset of elements (proved from the recursive calls' contracts) |
| ListHelper.Swapped | Assets/Scripts/ListHelper.cs:12-14 | one swap exchanges the two positions, leaves every other position alone and keeps the multiset |
| ListHelper.ShuffledFromKeepsPrefix | Assets/Scripts/ListHelper.cs:9-15 | iterations from `index` on never write a position below `index` |
| ListHelper.ShortListsUntouched | Assets/Scripts/ListHelper.cs:7-9 | lists of 0 or 1 elements are unchanged, since the bound `count - 1` allows no iteration |
| ListHelper.ShuffledPreservesOccurrences | Assets/Scripts/ListHelper.cs:12-14 | every value occurs as often after the shuffle as before |
| ListHelper.OccurrencesIsMultiplicity | Assets/Scripts/ListHelper.cs:12-14 | the occurrence count of a value is its multiplicity in the multiset of the list |
| Boxes.Box.IsActive | Assets/Scripts/Box.cs:20 | a box is active exactly when its button is interactable |
| Boxes.Box.constructor | Assets/Scripts/Box.cs:22-27 | a new box records the id, row and column exactly as given; the other data take their defaults and the look is the one Awake's ResetState gives (button on, text and image hidden) |
| Boxes.Box.ResetState | Assets/Scripts/Box.cs:96-122 | the danger image and text are hidden and the button is on; the text is the decimal count when the count is positive and empty otherwise; the colour is palette entry `count - 1`, which requires `count <= 8`; the data are unchanged |
| Boxes.Box.Charge | Assets/Scripts/Box.cs:29-35 | the count and danger flag take the arguments; the box is active with text and danger image hidden |
| Boxes.Box.Reveal | Assets/Scripts/Box.cs:37-48 | the button goes off and the text is shown; the data and the danger image are untouched, and revealing a revealed box changes nothing |
| Boxes.Box.StandDown | Assets/Scripts/Box.cs:50-66 | the button goes off and both text and danger image are hidden; the data are unchanged |
| Boxes.Box.OnClick | Assets/Scripts/Box.cs:68-85 | the button goes off; a dangerous box shows its danger image, a safe one its text; the data are unchanged |
| Boxes.Revealed | Assets/Scripts/Box.cs:37-48 | on snapshots, Reveal keeps the data and the danger image, turns the button off and shows the text |
| Boxes.RevealedIdempotent | Assets/Scripts/Box.cs:37-48 | revealing twice equals revealing once |
| Boxes.Decimal | Assets/Scripts/Box.cs:107 | the "D" spelling of a count is a non-empty run of digits without a leading zero, one digit exactly below 10 |
| Boxes.DecimalRoundTrip | Assets/Scripts/Box.cs:107 | reading back the digits of a count gives the count |
| Boxes.TextFor | Assets/Scripts/Box.cs:105-113 | the label is empty exactly when the count is not positive; otherwise it is digits denoting the count |
| Neighbours.Offsets | Assets/Scripts/Board.cs:69-79 | eight entries, each moving at most one row and, within that row, at most one column, and none of them standing still |
| Neighbours.Accepts | Assets/Scripts/Board.cs:117-120 | with the bounds check in the same conjunction, the C# row check agrees with Euclidean division: accepted exactly when the target is inside the board and in the expected row |
| Neighbours.OffsetSteps | Assets/Scripts/Board.cs:69-79 | entry `k` is one step of -1, 0 or 1 rows and columns, never the zero step, and no two entries take the same step |
| Neighbours.TruncDiv | Assets/Scripts/Board.cs:119 | C#'s `/` agrees with the Euclidean quotient on non-negative dividends |
| Neighbours.TruncDivTowardZero | Assets/Scripts/Board.cs:119 | C#'s `/` rounds toward zero for negative dividends too |
| Neighbours.RowCheckNeedsBoundsCheck | Assets/Scripts/Board.cs:117-120 | the row check alone accepts index -1 from the first box, and the bounds check alone accepts a step that wraps into the next row |
| Neighbours.AcceptedIsAdjacent | Assets/Scripts/Board.cs:117-120 | every table entry the row and bounds checks accept lands inside the board, exactly its step away in rows and columns, on a different box |
| Neighbours.AdjacentIsAccepted | Assets/Scripts/Board.cs:182-186 | every box adjacent in the grid is reached by a table entry the checks accept |
| Neighbours.AroundIsReached | Assets/Scripts/Board.cs:180-190 | the neighbour loop of the cascade, run to the end, reaches every adjacent box |
| Neighbours.TableCountIsAdjacentDanger | Assets/Scripts/Board.cs:115-121 | the accumulated count equals the number of adjacent dangerous boxes and is at most 8 |
| Neighbours.HitTargetsAreAdjacentDanger | Assets/Scripts/Board.cs:117-120 | the boxes counted are exactly the adjacent dangerous boxes |
| Neighbours.ZeroMeansNoAdjacentDanger | Assets/Scripts/Board.cs:113-121 | a count of zero means no adjacent box is dangerous, and conversely |
| Neighbours.RowAndColumn | Assets/Scripts/Board.cs:92-94 | the index `row * width + column` gives back its row and column |
| Boards.Board.CountDangerNearby | Assets/Scripts/Board.cs:108-125 | 0 for a dangerous box; otherwise the number of dangerous boxes adjacent in the grid, in `[0, 8]` |
| Boards.InitialDangers | Assets/Scripts/Board.cs:39-45 | the list before shuffling has one entry per box, and its dangerous entries are exactly the first `min(max(k, 0), n)` |
| Boards.InitialDangerCount | Assets/Scripts/Board.cs:39-45 | the unshuffled list holds `min(max(k, 0), n)` dangerous entries |
| Boards.Board.RechargeBoxes | Assets/Scripts/Board.cs:37-57 | the danger flags are the shuffled list; exactly `min(max(NumberOfDangerousBoxes, 0), n)` boxes are dangerous; every count agrees with the flags; every box is active with the matching text |
| Boards.Board.ChargeFrom | Assets/Scripts/Board.cs:49-56 | box `i` takes flag `danger[i]` and `CountDangerNearby(danger, i)`, and every box is left active and hidden |
| Boards.Board.Clear | Assets/Scripts/Board.cs:25-35 | every box is stood down (inactive, text and image hidden) and keeps its data |
| Boards.Board.CheckForWin | Assets/Scripts/Board.cs:152-165 | true exactly when no box is both safe and active |
| Boards.Board.RecursiveClearBlanks | Assets/Scripts/Board.cs:172-195 | terminates with the set of active boxes as measure; reveals only safe boxes, and nothing else changes; a dangerous box is left alone; the neighbourhood of every revealed zero-count box ends inactive or dangerous; every revealed box other than the first was active and is next to a revealed zero-count box; no inactive box becomes active |
| Boards.Board.ClearToward | Assets/Scripts/Board.cs:180-192 | one iteration of the neighbour loop extends the cascade record: the accepted target is handled and stays blocked, and whatever it reveals is supported by the blank box the loop sweeps around |
| Boards.SupportedComposes | Assets/Scripts/Board.cs:188-191 | a cascade started at an active box next to a revealed blank box extends a supported cascade to a supported one |
| Boards.ClickComposes | Assets/Scripts/Board.cs:127-150 | the box's own click handler followed by the cascade: every other box is revealed or untouched, and support does not depend on how the clicked box looked |
| Boards.RevealedOnlyComposes | Assets/Scripts/Board.cs:172-195 | two rounds of revealing are one round revealing both sets |
| Boards.RevealingKeepsBlocked | Assets/Scripts/Board.cs:172-195 | revealing keeps inactive or dangerous boxes so |
| Boards.SpreadComposes | Assets/Scripts/Board.cs:188-191 | a finished recursive cascade appended to a partial one is a partial cascade covering both |
| Boards.SpreadCloses | Assets/Scripts/Board.cs:176-192 | once the sweep around a box is over, the box's neighbourhood is blocked |
| Boards.SpreadSettles | Assets/Scripts/Board.cs:176-192 | after a finished cascade, every box adjacent to a revealed zero-count box is inactive or dangerous |
| Boards.Board.SettledIsInactive | Assets/Scripts/Board.cs:176-192 | with counts consistent with the flags, every box adjacent to a settled zero-count box is inactive |
| Boards.Board.ClearNearbyBlanks | Assets/Scripts/Board.cs:167-170 | the cascade reveals nothing from a dangerous box; from a safe one it reveals that box and only boxes supported by a revealed blank box; no box changes its data, so the flags and counts are unchanged and stay consistent if they were; every revealed blank box ends with no active safe neighbour |
| Boards.Board.Press | Assets/Scripts/Box.cs:68-83 | the clicked box's button goes off and it shows its danger image (keeping its text state) or its text; no other box changes and no box changes its data |
| Boards.Board.OnClickedBox | Assets/Scripts/Board.cs:127-150 | the event is Win when no safe box is active afterwards, else ClickedDanger, ClickedNearDanger or ClickedBlank by the box's data; only a blank click reveals anything, and then only through the cascade, each revealed box safe and supported by a revealed blank box; counts that agreed with the flags still do |
| Boards.Board.Click | Assets/Scripts/Box.cs:68-85 | a click on an inactive box gives no event and changes nothing; otherwise the clicked box's button goes off and it shows its danger image (keeping its text state) or its text, then the board's handler runs; every other box is either revealed by the cascade or keeps its whole state, and nothing is revealed unless the box is blank; every revealed box is safe; counts that agreed with the flags still do; data never change and no box becomes active |
| Boards.Board.constructor | Assets/Scripts/Board.cs:59-106 | with the loops bounded the intended way, box `i` has id `i`, row `i / width` and column `i % width`, and all boxes are fresh and ready |
| Boards.SetupOrderCoversBoard | Assets/Scripts/Board.cs:81-94 | loops bounded by height then width visit every index once, in increasing order |
| Boards.AwakeAsWrittenMisplacesBoxes | Assets/Scripts/Board.cs:81-94 | the loops as written set up index 2 twice and index 5 never on a 2-by-3 board, and reach index 6 of a 6-box array on a 3-by-2 board |

## Left out

- Layout, prefab instantiation, object names and the `Debug.Log` sanity loop of `Board.Awake` (Board.cs:62-67, 83-88, 95-105): presentation only. `Boards.Board.constructor` keeps the neighbour table and box creation with `Setup`.
- `Box.Setup` and `Box.Awake` are folded into `Boxes.Box.constructor`, because a box's position is fixed once it is set up.
- The grid is a constant sequence of box references. `Board.cs` assigns `_grid` only in `Awake`, so the boxes change in place but the array's cells never do.
- The row and column loops of `Clear` and `RechargeBoxes` are written as one loop over the flat index. `Boards.SetupOrderCoversBoard` proves that the two visit the same indices in the same order once the bounds are the right way round.
- `Board.Setup(Action<Event>)` is `Clear` plus storing the callback. The callback is out of the model, so `Boards.Board.Clear` stands for it.
- Callbacks: `Action<Event>` and `Action<Box>` are replaced by returned values. `Box.Charge`'s callback argument is dropped.
- Colours: `textColor` records only the palette index, not the colour value.
- Text rendering is out of the model.
- Uniformity of the shuffle is a probabilistic property. The model constrains each draw only to `[index, count)`.
- The floating-point fade and time formatting of `UI.cs` are out of the model, as is the real-time timer of `Game.cs`.
- Boards.Board.ClearToward is the body of the cascade's neighbour loop, split out as a method. It evaluates the row and bounds checks as `Neighbours.Accepts`, with the same conjunction as Board.cs:182-186; when the conjunction fails, the model does not read `_grid[neighbourIndex]`.
- Boards.Board.Click: the stale-click guard models the Unity button, which ignores clicks while not interactable. Board.cs does not check for stale clicks itself.
- A dangerous click reports Win when no safe box is left active (Board.cs:144-147). `Boards.Board.OnClickedBox` and `Boards.Board.Click` state this.
- A danger count above the board size is clamped by `count < NumberOfDangerousBoxes` (Board.cs:42-45). `Boards.InitialDangerCount` states this.
- C#'s `int` is 32 bits wide, and the model's integers are unbounded. The model assumes boards small enough that none of these overflows:
  - `Width * Height` (Board.cs:39, 61);
  - `row * Width + column` (Board.cs:31, 53, 92);
  - `index + _neighbours[count].x` (Board.cs:117, 182).
- Boards.Board.RecursiveClearBlanks: the model proves that every revealed box other than the first was active and lies next to a revealed box with no dangerous neighbour. It does not prove that a chain of such boxes leads back to the first box. The same holds for `Boards.Board.OnClickedBox` and `Boards.Board.Click`, which pass this on.

## Findings

| source | as written | input that shows it | evidently intended | confidence | as-written member | corrected member |
|---|---|---|---|---|---|---|
| Assets/Scripts/Board.cs:81-94 | the row loop runs to `Width` and the column loop to `Height`, with `index = row * Width + column` | a board 2 wide and 3 high: indices 0, 1, 2, 2, 3, 4 are set up, so box 5 stays null and box 2 is set up twice; 3 wide and 2 high: index 6 falls outside the 6-box array, so the write there throws | rows bounded by `Height`, columns by `Width`, so each index is set up once with row `index / Width` | not executed | Boards.AwakeAsWrittenMisplacesBoxes | Boards.SetupOrderCoversBoard |
