# Minesweeper rules engine in Dafny

A model of the core of a Java Minesweeper game (package `edu.jsu.mcis`). The
model has three parts:

- The grid (`Grid.java`): a height-by-width field of locations with a mine count.
  - It places the mines by rejection sampling from a pseudorandom source.
  - It computes each square's hint: the number of adjacent mines.
  - It evaluates the outcome (NONE, WIN, LOSE).
  - It carries out the flag, unflag and uncover commands, notifying its observers with `row:col:info` strings.
  - Uncovering a safe square with hint 0 cascades recursively over its eight directions.
- A location (`Location.java`): a display type (covered, uncovered or flagged), a mine flag and a hint.
- The ticker (`Ticker.java`): a count-up second counter that shows its time as MM:SS.

The project has five modules, one file each:

- `Locations` (`locations.dfy`): the location class and the `Cell` value that the grid stores per square.
- `Decimal` (`decimal.dfy`): the decimal text of integers, as `Integer.toString` and string concatenation produce it, and the value of a digit string.
- `Boards` (`boards.dfy`): the grid as a value.
  - Geometry and the neighbour enumeration.
  - The hint a square should carry, and the outcome.
  - The per-square state machine, and the notifications.
  - The specification of the cascade, of mine sampling and of the text form.
- `Grids` (`grids.dfy`): the `Grid` class. Its methods update the cells, the remaining random draws and the log of notifications in place. Each method is proved against the functions and predicates of `Boards`.
- `Tickers` (`tickers.dfy`): the `Ticker` class and its MM:SS text.

Three parts of the environment are replaced by explicit state:

- The pseudorandom generator becomes the field `random`, a sequence of (row, column) draws. `placeMines` consumes it from the front.
- The observers become the field `log`, the sequence of notifications sent so far. `Boards.Message` gives the text of each one.
- The Swing timer becomes the `ActionPerformed` method: one call is one tick.

## Model

| member | source | states |
|---|---|---|
| Locations.Location.constructor | src/main/java/edu/jsu/mcis/Location.java:21-25 | a new location is covered, holds no mine and has hint 0 |
| Locations.Location.Reset | src/main/java/edu/jsu/mcis/Location.java:31-35 | whatever the previous state, the location is back to covered, mine-free, hint 0 |
| Locations.Location.GetType | src/main/java/edu/jsu/mcis/Location.java:37-40 | returns the location's current type |
| Locations.Location.SetType | src/main/java/edu/jsu/mcis/Location.java:42-44 | the type becomes t; mine and hint are unchanged |
| Locations.Location.HasMine | src/main/java/edu/jsu/mcis/Location.java:46-49 | returns whether the location holds a mine |
| Locations.Location.SetMine | src/main/java/edu/jsu/mcis/Location.java:51-53 | the mine flag becomes m; type and hint are unchanged |
| Locations.Location.GetHint | src/main/java/edu/jsu/mcis/Location.java:55-58 | returns the stored hint |
| Locations.Location.SetHint | src/main/java/edu/jsu/mcis/Location.java:60-62 | the hint becomes h (any integer, no clamping); type and mine are unchanged |
| Grids.Grid.constructor | src/main/java/edu/jsu/mcis/Grid.java:52-62 | a new grid has the given size, every square covered, exactly `mines` mines, all hints correct and an empty log; the mined squares are exactly the squares of the draws it consumed, and the draws consumed are the shortest prefix that lands on `mines` distinct squares (none at all when `mines` is 0) |
| Grids.Grid.Reset | src/main/java/edu/jsu/mcis/Grid.java:71-81 | after clearing every location, all squares are covered, exactly `mines` squares are mined, and they are the squares of the consumed draws; the draws consumed are the shortest prefix that lands on `mines` distinct squares (none at all when `mines` is 0); every hint is correct; nothing is sent to the observers |
| Grids.Grid.Clear | src/main/java/edu/jsu/mcis/Grid.java:72-78 | the loops at the start of reset: every location becomes covered, mine-free, hint 0; the draws and the log are untouched |
| Grids.Grid.PlaceMines | src/main/java/edu/jsu/mcis/Grid.java:87-97 | the board and the mine count are what rejection sampling of the consumed draws gives; the last consumed draw placed a mine; with no mines to place, no draw is consumed and the board is unchanged; no notification |
| Boards.SampleLayout | src/main/java/edu/jsu/mcis/Grid.java:89-96 | sampling adds exactly the drawn squares to the mined ones and one mine per placing draw, so all mines are at distinct squares; types and hints are unchanged |
| Boards.SampledFromClear | src/main/java/edu/jsu/mcis/Grid.java:89-96 | sampling onto a cleared board mines exactly the squares drawn, `count` of them; when the last draw taken placed a mine, the draws before it land on fewer than `count` distinct squares |
| Boards.SampledLayout | src/main/java/edu/jsu/mcis/Grid.java:89-96 | the same, for the state the sampling loop has reached |
| Boards.SampleStep | src/main/java/edu/jsu/mcis/Grid.java:90-95 | one more draw: a mine-free square gets a mine and the count rises, and that draw ends a placement; a mined square is skipped |
| Boards.SampleFresh | src/main/java/edu/jsu/mcis/Grid.java:89-96 | mines placed from a prefix of the draws, plus the fresh draws left in the rest, equal the fresh draws in the whole sequence; so the loop ends when there are enough fresh draws |
| Boards.SampledFresh | src/main/java/edu/jsu/mcis/Grid.java:89-96 | the same fact for the loop state: count plus the remaining fresh draws is constant |
| Boards.LastPlaced | src/main/java/edu/jsu/mcis/Grid.java:92-94 | a draw that raised the count landed on a square that was neither mined at the start nor drawn before |
| Boards.NoMines | src/main/java/edu/jsu/mcis/Grid.java:72-78 | a board of default locations has no mined square |
| Grids.Grid.PlaceHints | src/main/java/edu/jsu/mcis/Grid.java:103-110 | afterwards every hint is the number of mined squares adjacent to its square; mines, types, the draws and the log are unchanged |
| Boards.HintIsMinedAround | src/main/java/edu/jsu/mcis/Grid.java:106-107 | the mines counted in a legal square's neighbour list are exactly the mined squares adjacent to it |
| Boards.HintInRange | src/main/java/edu/jsu/mcis/Grid.java:161-169 | the count of mines among the neighbours lies in [0, 8] |
| Boards.CorrectHintInRange | src/main/java/edu/jsu/mcis/Location.java:7-9 | on a grid with correct hints, every hint lies in [0, 8] |
| Boards.MinedAroundSameMines | src/main/java/edu/jsu/mcis/Grid.java:104-108 | the mines around a square depend only on the mine layout, so writing hints does not change later hints |
| Grids.Grid.GetNeighbors | src/main/java/edu/jsu/mcis/Grid.java:125-141 | returns the cells at `Neighbors(row, col)`, in the order of the two offset loops; the list is empty for an illegal index |
| Boards.GatheredAll | src/main/java/edu/jsu/mcis/Grid.java:128-138 | the nine offsets of the two loops collect exactly the cells of the enumerated neighbours |
| Boards.GatheredIsCellsAt | src/main/java/edu/jsu/mcis/Grid.java:128-138 | at each point of the two loops, the cells collected so far are those of the candidates enumerated so far |
| Boards.NeighborsAreAdjacent | src/main/java/edu/jsu/mcis/Grid.java:127-136 | a square is listed as a neighbour of (row, col) iff both are legal indices and they are distinct and adjacent |
| Boards.NeighborsInBounds | src/main/java/edu/jsu/mcis/Grid.java:132 | every listed neighbour is a legal index |
| Boards.NeighborsRowMajor | src/main/java/edu/jsu/mcis/Grid.java:128-135 | the neighbours come in strictly increasing row-major order, so there are no repeats |
| Boards.NeighborCount | src/main/java/edu/jsu/mcis/Grid.java:113-119 | an illegal index has 0 neighbours; a legal one has the clipped 3x3 block minus itself |
| Boards.CornerHasThree | src/main/java/edu/jsu/mcis/Grid.java:117 | on a grid of at least 2x2, a corner has 3 neighbours |
| Boards.EdgeHasFive | src/main/java/edu/jsu/mcis/Grid.java:118 | on a grid of at least 2x2, a square on a side but not in a corner has 5 neighbours |
| Boards.InteriorHasEight | src/main/java/edu/jsu/mcis/Grid.java:119 | an interior square has 8 neighbours |
| Boards.AtMostEight | src/main/java/edu/jsu/mcis/Grid.java:113-119 | no square has more than 8 neighbours |
| Grids.Grid.IsLegalIndex | src/main/java/edu/jsu/mcis/Grid.java:150-152 | true exactly for the indices of the grid |
| Grids.Grid.CalculateHint | src/main/java/edu/jsu/mcis/Grid.java:161-169 | returns the number of mined cells in the list, between 0 and the list's length |
| Boards.MineCountOfDistinct | src/main/java/edu/jsu/mcis/Grid.java:161-169 | for a strictly row-major (hence repetition-free) list of indices, such as the one getNeighbors builds, counting the mined cells counts the mined squares |
| Grids.Grid.GetWidth | src/main/java/edu/jsu/mcis/Grid.java:171-173 | the length of the first row is the grid's width |
| Grids.Grid.GetHeight | src/main/java/edu/jsu/mcis/Grid.java:175-177 | the number of rows is the grid's height |
| Grids.Grid.GetMines | src/main/java/edu/jsu/mcis/Grid.java:179-181 | returns the grid's mine count, which GetResult uses in the WIN test |
| Grids.Grid.GetResult | src/main/java/edu/jsu/mcis/Grid.java:190-200 | returns LOSE once an uncovered square holds a mine; otherwise WIN when the uncovered safe squares plus the mines fill the grid; otherwise NONE |
| Boards.UncoveredMineLoses | src/main/java/edu/jsu/mcis/Grid.java:194 | any uncovered mine makes the result LOSE |
| Boards.WinIffAllSafeUncovered | src/main/java/edu/jsu/mcis/Grid.java:183-186 | with exactly `mines` mines, the result is WIN iff no mine is uncovered and every safe square is uncovered |
| Boards.MinedAndSafeFillGrid | src/main/java/edu/jsu/mcis/Grid.java:198 | the mined and the safe squares split the grid's height * width squares |
| Grids.Grid.GetLocation | src/main/java/edu/jsu/mcis/Grid.java:209-211 | returns the cell at the legal index (row, col) |
| Grids.Grid.IsFlagAt | src/main/java/edu/jsu/mcis/Grid.java:221-223 | true iff (row, col) is a legal index whose square is flagged; false for an illegal index |
| Grids.Grid.PlaceFlagAt | src/main/java/edu/jsu/mcis/Grid.java:235-241 | a legal covered square becomes flagged and "row:col:flag" is sent; otherwise nothing changes and nothing is sent; the grid stays set up |
| Grids.Grid.RemoveFlagAt | src/main/java/edu/jsu/mcis/Grid.java:253-259 | a legal flagged square becomes covered and "row:col:unflag" is sent; otherwise nothing changes and nothing is sent; the grid stays set up |
| Boards.FlagCommandsEvolve | src/main/java/edu/jsu/mcis/Grid.java:235-259 | both flag commands keep mines and hints and make only covered-to-flagged or flagged-to-covered changes |
| Boards.PlaceFlagTwice | src/main/java/edu/jsu/mcis/Grid.java:236 | flagging a square twice has the effect of flagging it once; the second call sends nothing |
| Boards.FlagThenUnflag | src/main/java/edu/jsu/mcis/Grid.java:235-259 | on a legal covered square, flag then unflag restores the board and sends "flag" then "unflag" |
| Boards.UnflagThenFlag | src/main/java/edu/jsu/mcis/Grid.java:235-259 | on a legal flagged square, unflag then flag restores the board and sends "unflag" then "flag" |
| Boards.EvolvesKeepsLayout | src/main/java/edu/jsu/mcis/Grid.java:225-269 | commands that only change types keep the mined squares and the correctness of the hints |
| Boards.MessageFields | src/main/java/edu/jsu/mcis/Grid.java:17-23 | for a legal square the text "row:col:info" reads back field by field: row digits, ':', column digits, ':', info; the digits give back row and column |
| Boards.InfoTextDigits | src/main/java/edu/jsu/mcis/Grid.java:21-23 | a hint in [0, 8] is sent as one digit with that value; "flag", "unflag" and "mine" do not start with a digit |
| Grids.Grid.UncoverAt | src/main/java/edu/jsu/mcis/Grid.java:274-299 | an illegal or non-covered index changes nothing and sends nothing; otherwise (row, col) is uncovered and reported first with its mine or hint; a mine uncovers that square alone and sends "row:col:mine"; in every case only covered squares change, only to uncovered; no square other than (row, col) uncovered is a mine; every uncovered safe zero-hint square is left with no covered safe neighbour; each uncovered square is reported exactly once with its content; each later report is adjacent to an earlier zero hint; the grid stays set up |
| Grids.Grid.Cascade | src/main/java/edu/jsu/mcis/Grid.java:286-294 | the loop over the eight directions keeps the cascade invariant and leaves no covered safe square adjacent to (row, col) |
| Grids.Grid.Spread | src/main/java/edu/jsu/mcis/Grid.java:287-293 | direction i is uncovered recursively when it is legal, covered and mine-free; the cascade invariant is kept and the first i + 1 directions are done |
| Boards.UncoverOne | src/main/java/edu/jsu/mcis/Grid.java:276-285 | uncovering a legal covered square changes that square alone and reports it; for a mine or a non-zero hint the call is already complete; for a zero hint the cascade starts |
| Boards.CascadeStep | src/main/java/edu/jsu/mcis/Grid.java:290-292 | a recursive call into a covered safe neighbour keeps the cascade invariant and undoes no finished direction |
| Boards.CascadeCloses | src/main/java/edu/jsu/mcis/Grid.java:286-294 | once the root has no covered safe neighbour, the whole call satisfies the uncover postcondition |
| Boards.ReportedCompose | src/main/java/edu/jsu/mcis/Grid.java:291 | the reports of a recursive call, appended to those before it, report every square uncovered so far exactly once |
| Boards.ChainedCompose | src/main/java/edu/jsu/mcis/Grid.java:286-291 | the reports of a recursive call started from a neighbour of a zero hint continue the chain of reports |
| Boards.SettledCompose | src/main/java/edu/jsu/mcis/Grid.java:286-294 | zero-hint squares settled before a recursive call stay settled, and those the call uncovers it settles |
| Boards.CoveredShrinks | src/main/java/edu/jsu/mcis/Grid.java:276-277 | uncovering a covered square strictly reduces the covered squares, so the recursion terminates |
| Boards.AllDirectionsSettle | src/main/java/edu/jsu/mcis/Grid.java:275 | the eight offsets cover every adjacent square, so once all are done the root is settled |
| Boards.NothingRevealed | src/main/java/edu/jsu/mcis/Grid.java:276 | a call that changes nothing meets the uncover postcondition |
| Boards.UncoversEvolves | src/main/java/edu/jsu/mcis/Grid.java:277 | uncovering obeys the per-square state machine |
| Grids.Grid.IsCovered | src/main/java/edu/jsu/mcis/Grid.java:308-310 | a legal square is covered iff it is among the covered squares |
| Grids.Grid.IsFlagged | src/main/java/edu/jsu/mcis/Grid.java:319-321 | a legal square is flagged iff it is among the flagged squares |
| Grids.Grid.ToString | src/main/java/edu/jsu/mcis/Grid.java:323-333 | returns the rows top to bottom, each square as "9" when mined and as its hint otherwise, each row followed by a newline |
| Boards.CorrectBoardText | src/main/java/edu/jsu/mcis/Grid.java:323-333 | on a set-up grid the text is height lines of width + 1 characters; square (r, c) is at r * (width + 1) + c and reads '9' iff it holds a mine |
| Boards.BoardTextAt | src/main/java/edu/jsu/mcis/Grid.java:325-331 | line r of the text holds square (r, c) at column c and a newline at column width |
| Boards.BoardTextLength | src/main/java/edu/jsu/mcis/Grid.java:325-331 | rows with hints in [0, 8] are written as lines of width + 1 characters |
| Boards.RowTextAt | src/main/java/edu/jsu/mcis/Grid.java:326-329 | a row with hints in [0, 8] is written one character per square, in order |
| Boards.CellTextGlyph | src/main/java/edu/jsu/mcis/Grid.java:327-328 | a square with a hint in [0, 8] is written as one character, which is '9' iff it holds a mine |
| Boards.LineStartProduct | src/main/java/edu/jsu/mcis/Grid.java:330 | line r starts at r * (width + 1) |
| Decimal.NatToString | src/main/java/edu/jsu/mcis/Ticker.java:74-77 | the decimal text of a natural number is a non-empty digit string; it is one character long iff the number is below 10, and has no leading zero |
| Decimal.IntToString | src/main/java/edu/jsu/mcis/Grid.java:328 | Integer.toString: non-empty; the plain digits for a non-negative value, and '-' followed by the digits of its magnitude for a negative one |
| Decimal.ValueOfNatToString | src/main/java/edu/jsu/mcis/Ticker.java:74-77 | reading back the digits gives the number |
| Decimal.LeadingZero | src/main/java/edu/jsu/mcis/Ticker.java:74-76 | a leading "0" does not change a digit string's value |
| Decimal.TwoDigits | src/main/java/edu/jsu/mcis/Ticker.java:75-77 | numbers from 10 to 99 have two digits |
| Tickers.Ticker.constructor | src/main/java/edu/jsu/mcis/Ticker.java:24-32 | a new ticker is at 0 seconds and not running |
| Tickers.Ticker.Start | src/main/java/edu/jsu/mcis/Ticker.java:37-40 | the ticker runs; the time is unchanged |
| Tickers.Ticker.Stop | src/main/java/edu/jsu/mcis/Ticker.java:45-51 | the ticker stops and keeps its elapsed time |
| Tickers.Ticker.Reset | src/main/java/edu/jsu/mcis/Ticker.java:56-59 | the ticker stops and its time goes back to 0 |
| Tickers.Ticker.IsRunning | src/main/java/edu/jsu/mcis/Ticker.java:61-63 | returns whether the ticker runs |
| Tickers.Ticker.ActionPerformed | src/main/java/edu/jsu/mcis/Ticker.java:87-90 | one tick adds one second; running is unchanged |
| Tickers.Ticker.GetTime | src/main/java/edu/jsu/mcis/Ticker.java:70-79 | the text is minutes, ':' and two seconds digits; the parts read back as seconds / 60 and seconds % 60; the text starts with '0' iff the minutes are below 10; below ten minutes it is exactly MM:SS |
| Tickers.Padded | src/main/java/edu/jsu/mcis/Ticker.java:74-77 | a seconds part below 100, zero-padded below 10, is exactly two digits that denote it |
| Tickers.MinutesPart | src/main/java/edu/jsu/mcis/Ticker.java:74-77 | the minutes part is at least two digits that denote the minutes, with a leading '0' iff they are below 10 |

## Left out

- Observers: `setChanged`/`notifyObservers` are modelled as appending an `Event` to the grid's `log`. The observer registry and delivery are not modelled.
- The pseudorandom generator is not modelled. Its `nextInt` results are the sequence `random` of draws, each on the grid.
- Grids.Grid.PlaceMines: requires at least `mines` fresh draws ahead (`Boards.Fresh`), so the loop terminates. With a real generator the loop ends with probability 1, and it never ends if `mines` exceeds the number of free squares. That case is excluded rather than modelled.
- Grids.Grid.constructor: the same draw requirement. It also requires positive dimensions and a non-negative mine count, and so leaves out inputs the source accepts:
  - height 0: the loops of the constructor and of `reset` stop before they call `getWidth`, so the grid is built when `mines` is at most 0; a later `getResult` throws, because `getWidth` reads row 0 (Grid.java:198);
  - width 0 with a positive height: the grid is built when `mines` is at most 0, and `getResult` returns WIN when `mines` is 0;
  - either empty shape with a positive mine count: `random.nextInt(0)` throws in `placeMines` (Grid.java:90-91);
  - a negative mine count: the sampling loop is skipped, no mine is placed, and `getResult` compares with the negative count. The model's set-up invariant says exactly `mines` squares are mined, which no grid meets for a negative count.
- A mine count equal to height * width is allowed, as in the code.
- Convenience constructors `Grid()` and `Grid(width, height, mines)` (Grid.java:32-38) only supply defaults and a fresh generator.
- The grid stores `Cell` values rather than shared `Location` objects. Aliasing through a `Location` returned by `getLocation` is not captured: a caller that mutates that object changes the grid in Java but not here.
- Grids.Grid.GetLocation: requires a legal index, where Java would throw on an illegal one.
- The `getResult()` calls inside `uncoverAt` are not modelled: their values are discarded and they change nothing.
- Grids.Grid.UncoverAt: fixes only part of the order of the notifications. Each report after the first follows an earlier adjacent zero-hint report. The exact depth-first order of the eight directions is followed by the code (`Offsets`, `Cascade`, `Spread`) but is not stated as a whole.
- The `uncoverAt` loop and its body are written as the methods `Cascade` and `Spread`, called by `UncoverAt`, so each keeps its own contract. The recursion is unchanged.
- 32-bit integer overflow is not modelled: `int` is unbounded. The height * width product in getResult could overflow only for grids beyond 2^31 squares, and the ticker's seconds only after about 68 years.
- Location.java does not compile as given: it uses a bare `COVERED` and has `return Type;`. The model follows the evident intent: the constructor and `reset` set the type to covered, and `getType` returns the type field.
- Ticker.java does not compile as given (`this()` calls, `timer.cancel()`, a malformed anonymous listener). `Stop` and `Reset` follow their documented behaviour:
  - stop keeps the time and clears running;
  - reset stops and zeroes the time.
- The Swing `Timer`, the `JLabel` text and the name "ticker" are user-interface state and are not modelled. `actionPerformed` also discards the value of its `getTime()` call.
- Minesweeper.java (the Swing window) is not part of this model.
