/** The rules engine of the game (Grid.java): a height-by-width grid of
    locations, a mine count and a source of random draws. It places the mines
    by rejection sampling, computes the hints, evaluates the outcome, and
    carries out the flag, unflag and uncover commands, recording every
    notification it sends to its observers. */
module Grids {
  import opened Locations
  import opened Boards
  import Decimal

  class Grid {
    const height: int
    const width: int
    const mines: int
    /** The cells, indexed [row][col]. */
    var location: Board
    /** The random draws still to come, each a (row, col) pair in range. */
    var random: seq<Pos>
    /** Every notification sent so far, oldest first. */
    var log: seq<Event>

    /** The grid's shape: positive dimensions, a rectangle of cells, a
        non-negative mine count and draws that land on the grid. */
    ghost predicate Shaped()
      reads this
    {
      0 < height && 0 < width && 0 <= mines &&
      Rect(location, height, width) &&
      OnGrid(random, height, width)
    }

    /** A set-up grid: exactly `mines` squares hold a mine and every hint is
        the number of mines around its square. */
    ghost predicate Valid()
      reads this
    {
      Shaped() && |Where(location, HasMine)| == mines && HintsCorrect(location, height, width)
    }

    /** A grid of the given size, all covered, with `mines` mines placed from
        the draws and the hints computed. */
    constructor (width: int, height: int, mines: int, random: seq<Pos>)
      requires 0 < height && 0 < width && 0 <= mines
      requires OnGrid(random, height, width)
      requires mines <= Fresh(random, {})
      ensures Valid() && log == []
      ensures this.height == height && this.width == width && this.mines == mines
      ensures forall r, c | InBounds(height, width, r, c) :: location[r][c].kind == Covered
      ensures |this.random| <= |random| && this.random == random[|random| - |this.random|..]
      ensures Where(location, HasMine) == Drawn(random[..|random| - |this.random|])
      ensures mines == 0 ==> this.random == random
      ensures mines > 0 ==> |this.random| < |random|
      ensures mines > 0 ==> |Drawn(random[..|random| - |this.random| - 1])| < mines
    {
      this.height := height;
      this.width := width;
      this.mines := mines;
      this.random := random;
      location := Blank(height, width);
      log := [];
      new;
      // The draws Reset starts from are the argument.
      ghost var r0 := this.random;
      assert r0 == random;
      Reset();
      ghost var used := |r0| - |this.random|;
      assert Where(location, HasMine) == Drawn(r0[..used]);
    }

    /** Every location back to covered, mine-free and hint 0; then mines and
        hints as in a new grid, drawing on the same random source. Nothing is
        sent to the observers. */
    method Reset()
      requires Shaped() && mines <= Fresh(random, {})
      modifies this
      ensures Valid() && log == old(log)
      ensures forall r, c | InBounds(height, width, r, c) :: location[r][c].kind == Covered
      ensures |random| <= |old(random)| && random == old(random)[|old(random)| - |random|..]
      ensures Where(location, HasMine) == Drawn(old(random)[..|old(random)| - |random|])
      ensures mines == 0 ==> random == old(random)
      ensures mines > 0 ==> |random| < |old(random)|
      ensures mines > 0 ==> |Drawn(old(random)[..|old(random)| - |random| - 1])| < mines
    {
      Clear();
      ghost var cleared, r0 := location, random;
      NoMines(cleared, height, width);
      PlaceMines();
      ghost var used := |r0| - |random|;
      SampledFromClear(cleared, height, width, r0, used, location, mines);
      assert mines > 0 ==> |Drawn(old(random)[..|old(random)| - |random| - 1])| < mines;
      assert Where(location, HasMine) == Drawn(old(random)[..|old(random)| - |random|]);
      assert forall r, c | InBounds(height, width, r, c) :: location[r][c].kind == Covered;
      PlaceHints();
    }

    /** The first half of reset: every location back to covered, mine-free
        and hint 0; the draws and the log are untouched. */
    method Clear()
      requires Shaped()
      modifies this
      ensures Shaped() && random == old(random) && log == old(log)
      ensures forall r, c | InBounds(height, width, r, c) :: location[r][c] == Default
    {
      for i := 0 to height
        invariant Rect(location, height, width) && random == old(random) && log == old(log)
        invariant forall r, c | 0 <= r < i && 0 <= c < width :: location[r][c] == Default
      {
        for j := 0 to width
          invariant Rect(location, height, width) && random == old(random) && log == old(log)
          invariant forall r, c | 0 <= r < i && 0 <= c < width :: location[r][c] == Default
          invariant forall c | 0 <= c < j :: location[i][c] == Default
        {
          // setType(COVERED), setMine(false), setHint(0)
          location := location[i := location[i][j := location[i][j].(kind := Covered, mine := false, hint := 0)]];
        }
      }
    }

    /** Rejection sampling: each draw lands on a square; a mine-free square
        receives a mine and counts, a mined one is skipped, until `mines`
        mines have been placed. The draws consumed are exactly those up to
        and including the one that placed the last mine. */
    method PlaceMines()
      requires Shaped() && mines <= Fresh(random, Where(location, HasMine))
      modifies this
      ensures Shaped() && log == old(log)
      ensures |random| <= |old(random)| && random == old(random)[|old(random)| - |random|..]
      ensures SampledTo(old(location), height, width, old(random), |old(random)| - |random|, location, mines)
      ensures mines > 0 ==> EndsPlacing(old(location), height, width, old(random)[..|old(random)| - |random|])
      ensures mines == 0 ==> random == old(random) && location == old(location)
    {
      ghost var b0, r0 := location, random;
      ghost var used := 0;
      SampleStart(b0, height, width, r0);
      var mineCount := 0;
      while mineCount < mines
        invariant SampledTo(b0, height, width, r0, used, location, mineCount)
        invariant log == old(log) && random == r0[used..] && mineCount <= mines
        invariant 0 < mineCount == mines ==> EndsPlacing(b0, height, width, r0[..used])
        invariant mines == 0 ==> used == 0
        decreases |random|
      {
        SampledFresh(b0, height, width, r0, used, location, mineCount);
        var x, y := random[0].0, random[0].1;
        SampleStep(b0, height, width, r0, used, location, mineCount);
        if !location[x][y].mine {
          location := AddMine(location, x, y);
          mineCount := mineCount + 1;
        }
        assert random[1..] == r0[used + 1..];
        random := random[1..];
        used := used + 1;
      }
      assert |r0| - |random| == used;
    }

    /** Every square's hint becomes the number of mines among its neighbours. */
    method PlaceHints()
      requires Shaped()
      modifies this
      ensures Shaped() && random == old(random) && log == old(log)
      ensures HintsCorrect(location, height, width)
      ensures Where(location, HasMine) == old(Where(location, HasMine))
      ensures forall r, c | InBounds(height, width, r, c) ::
        location[r][c].kind == old(location)[r][c].kind && location[r][c].mine == old(location)[r][c].mine
    {
      ghost var b0 := location;
      for i := 0 to height
        invariant Shaped() && random == old(random) && log == old(log)
        invariant SameMines(b0, location, height, width)
        invariant forall r, c | InBounds(height, width, r, c) :: location[r][c].kind == b0[r][c].kind
        invariant forall r, c | 0 <= r < i && 0 <= c < width :: location[r][c].hint == |MinedAround(b0, height, width, r, c)|
      {
        ghost var bi := location;
        for j := 0 to width
          invariant Shaped() && random == old(random) && log == old(log)
          invariant RowFrame(bi, location, height, width, i)
          invariant forall c | 0 <= c < j :: location[i][c].hint == |MinedAround(b0, height, width, i, c)|
        {
          var neighbors := GetNeighbors(i, j);
          var hint := CalculateHint(neighbors);
          RowFrameKeeps(b0, bi, location, height, width, i);
          HintIsMinedAround(location, height, width, i, j);
          MinedAroundSameMines(b0, location, height, width, i, j);
          SetHintFrame(bi, location, height, width, i, j, hint);
          location := SetHint(location, i, j, hint);
        }
        RowFrameKeeps(b0, bi, location, height, width, i);
      }
      SameMinesSameLayout(b0, location, height, width);
    }

    /** The cells of the neighbours of (row, col), in row-major order: none
        for an illegal index, otherwise the legal squares around it. */
    method GetNeighbors(row: int, col: int) returns (neighbors: seq<Cell>)
      requires Rect(location, height, width)
      ensures neighbors == CellsAt(location, Neighbors(height, width, row, col))
    {
      neighbors := [];
      if IsLegalIndex(row, col) {
        for i := -1 to 2
          invariant neighbors == Gathered(location, height, width, row, col, i, -1)
        {
          for j := -1 to 2
            invariant neighbors == Gathered(location, height, width, row, col, i, j)
          {
            var r, c := row + i, col + j;
            GatheredStep(location, height, width, row, col, i, j);
            if IsLegalIndex(r, c) {
              if r != row || c != col {
                neighbors := neighbors + [location[r][c]];
              }
            }
          }
          GatheredRowEnd(location, height, width, row, col, i);
        }
        GatheredAll(location, height, width, row, col);
      }
    }

    /** A legal index is a square of the grid. */
    function IsLegalIndex(row: int, col: int): (legal: bool)
      ensures legal <==> (row, col) in AllCells(height, width)
    {
      InBounds(height, width, row, col)
    }

    /** The number of mined cells in the list. */
    method CalculateHint(neighbors: seq<Cell>) returns (hint: int)
      ensures hint == MineCount(neighbors) && 0 <= hint <= |neighbors|
    {
      hint := 0;
      for i := 0 to |neighbors|
        invariant hint == MineCount(neighbors[..i])
      {
        assert neighbors[..i + 1][..i] == neighbors[..i];
        if neighbors[i].mine {
          hint := hint + 1;
        }
      }
      assert neighbors[..|neighbors|] == neighbors;
      MineCountBounded(neighbors);
    }

    /** The number of columns, read off the first row. */
    function GetWidth(): (w: int)
      reads this
      requires Shaped()
      ensures w == width
    {
      |location[0]|
    }

    /** The number of rows. */
    function GetHeight(): (h: int)
      reads this
      requires Shaped()
      ensures h == height
    {
      |location|
    }

    /** The number of mines the grid places. */
    function GetMines(): (m: int)
      ensures m == mines
    {
      mines
    }

    /** The cell at a legal (row, col); the caller must pass a legal index. */
    function GetLocation(row: int, col: int): (x: Cell)
      reads this
      requires Shaped() && InBounds(height, width, row, col)
      ensures x == CellOf(location, (row, col))
    {
      location[row][col]
    }

    /** A legal square is covered exactly when it is among the covered squares. */
    function IsCovered(row: int, col: int): (covered: bool)
      reads this
      requires Shaped() && InBounds(height, width, row, col)
      ensures covered <==> (row, col) in Where(location, IsCoveredCell)
    {
      WhereMember(location, IsCoveredCell, row, col);
      GetLocation(row, col).kind == Covered
    }

    /** A legal square is flagged exactly when it is among the flagged squares. */
    function IsFlagged(row: int, col: int): (flagged: bool)
      reads this
      requires Shaped() && InBounds(height, width, row, col)
      ensures flagged <==> (row, col) in Where(location, IsFlaggedCell)
    {
      WhereMember(location, IsFlaggedCell, row, col);
      GetLocation(row, col).kind == Flagged
    }

    /** A flag is at (row, col): a legal index whose square is flagged. */
    function IsFlagAt(row: int, col: int): (flagged: bool)
      reads this
      requires Shaped()
      ensures flagged <==> (row, col) in Where(location, IsFlaggedCell)
    {
      WhereMember(location, IsFlaggedCell, row, col);
      IsLegalIndex(row, col) && IsFlagged(row, col)
    }

    /** The outcome of the game so far, as ResultOf defines it: Lose once an
        uncovered square holds a mine, otherwise Win when the uncovered safe
        squares and the mines fill the grid, otherwise None. */
    method GetResult() returns (result: Result)
      requires Shaped()
      ensures result == ResultOf(location, height, width, mines)
    {
      var unCoveredCount := 0;
      for i := 0 to height
        invariant |Scanned(location, IsUncoveredMine, i, 0)| == 0
        invariant unCoveredCount == |Scanned(location, IsUncoveredSafe, i, 0)|
      {
        for j := 0 to width
          invariant |Scanned(location, IsUncoveredMine, i, j)| == 0
          invariant unCoveredCount == |Scanned(location, IsUncoveredSafe, i, j)|
        {
          if location[i][j].kind == Uncovered && location[i][j].mine {
            WhereMember(location, IsUncoveredMine, i, j);
            return Lose;
          }
          ScanCount(location, IsUncoveredMine, i, j);
          ScanCount(location, IsUncoveredSafe, i, j);
          if location[i][j].kind == Uncovered && !location[i][j].mine {
            unCoveredCount := unCoveredCount + 1;
          }
        }
        ScanRow(location, IsUncoveredMine, i);
        ScanRow(location, IsUncoveredSafe, i);
      }
      ScanAll(location, IsUncoveredMine);
      ScanAll(location, IsUncoveredSafe);
      if unCoveredCount + GetMines() == GetHeight() * GetWidth() {
        result := Win;
      } else {
        result := None;
      }
    }

    /** Flags a legal covered square and sends "row:col:flag"; otherwise
        does nothing. */
    method PlaceFlagAt(row: int, col: int)
      requires Valid()
      modifies this
      ensures Valid() && random == old(random)
      ensures location == PlaceFlag(old(location), height, width, row, col).board
      ensures log == old(log) + PlaceFlag(old(location), height, width, row, col).events
    {
      if IsLegalIndex(row, col) && IsCovered(row, col) {
        location := SetKind(location, row, col, Flagged);
        log := log + [Event(row, col, Flag)];
      }
      FlagCommandsEvolve(old(location), height, width, row, col);
      EvolvesKeepsLayout(old(location), location, height, width);
    }

    /** Unflags a legal flagged square and sends "row:col:unflag"; otherwise
        does nothing. */
    method RemoveFlagAt(row: int, col: int)
      requires Valid()
      modifies this
      ensures Valid() && random == old(random)
      ensures location == RemoveFlag(old(location), height, width, row, col).board
      ensures log == old(log) + RemoveFlag(old(location), height, width, row, col).events
    {
      if IsLegalIndex(row, col) && IsFlagged(row, col) {
        location := SetKind(location, row, col, Covered);
        log := log + [Event(row, col, Unflag)];
      }
      FlagCommandsEvolve(old(location), height, width, row, col);
      EvolvesKeepsLayout(old(location), location, height, width);
    }

    /** Uncovers a legal covered square and reports it; a safe square with
        hint 0 then uncovers, in the order of Offsets, each legal, covered,
        mine-free neighbour in turn, recursively. Only covered squares
        change, only to uncovered; only the first square can be a mine; each
        uncovered square is reported once with its content; and afterwards no
        safe zero-hint square uncovered by the call has a covered safe
        neighbour. */
    method UncoverAt(row: int, col: int)
      requires Valid()
      modifies this
      decreases |Where(location, IsCoveredCell)|, 2
      ensures Valid() && random == old(random)
      ensures !(InBounds(height, width, row, col) && old(location)[row][col].kind == Covered) ==>
        location == old(location) && log == old(log)
      ensures InBounds(height, width, row, col) && old(location)[row][col].kind == Covered ==>
        location[row][col].kind == Uncovered && |old(log)| < |log| &&
        log[|old(log)|] == Event(row, col, InfoOf(location[row][col]))
      ensures InBounds(height, width, row, col) && old(location)[row][col].kind == Covered && old(location)[row][col].mine ==>
        location == SetKind(old(location), row, col, Uncovered) && log == old(log) + [Event(row, col, Mine)]
      ensures Revealed(old(location), old(log), location, log, height, width, row, col)
    {
      if IsLegalIndex(row, col) && IsCovered(row, col) {
        ghost var b0, l0 := location, log;
        UncoverOne(b0, l0, height, width, row, col);
        location := SetKind(location, row, col, Uncovered);
        UncoversEvolves(b0, location, height, width);
        EvolvesKeepsLayout(b0, location, height, width);
        if location[row][col].mine {
          log := log + [Event(row, col, Mine)];
        } else {
          log := log + [Event(row, col, Hint(location[row][col].hint))];
          if location[row][col].hint == 0 {
            Cascade(b0, l0, row, col);
            CascadeCloses(b0, l0, location, log, height, width, row, col);
          }
        }
      } else {
        NothingRevealed(location, log, height, width, row, col);
      }
    }

    /** The loop of uncoverAt over the eight directions around the safe
        zero-hint square (row, col), uncovered first on board b0 with log
        l0: afterwards the cascade's invariant still holds and (row, col) has
        no covered safe neighbour left. */
    method Cascade(ghost b0: Board, ghost l0: seq<Event>, row: int, col: int)
      requires Valid() && Cascading(b0, l0, location, log, height, width, row, col)
      modifies this
      decreases |Where(b0, IsCoveredCell)|, 1
      ensures Valid() && random == old(random)
      ensures Cascading(b0, l0, location, log, height, width, row, col)
      ensures Settled(location, height, width, row, col)
    {
      for i := 0 to |Offsets|
        invariant Valid() && random == old(random)
        invariant Cascading(b0, l0, location, log, height, width, row, col)
        invariant DoneUpTo(location, height, width, row, col, i)
      {
        Spread(b0, l0, row, col, i);
      }
      AllDirectionsSettle(location, height, width, row, col);
    }

    /** The body of uncoverAt's loop over the directions, for direction i
        of a cascade from (row, col) that started on board b0 with log l0:
        the neighbour (r, c) in that direction is uncovered recursively when
        it is legal, covered and mine-free. The cascade's invariant is kept,
        and the first i + 1 directions are then done. */
    method Spread(ghost b0: Board, ghost l0: seq<Event>, row: int, col: int, i: int)
      requires Valid() && Cascading(b0, l0, location, log, height, width, row, col)
      requires 0 <= i < |Offsets| && DoneUpTo(location, height, width, row, col, i)
      modifies this
      decreases |Where(b0, IsCoveredCell)|, 0
      ensures Valid() && random == old(random)
      ensures Cascading(b0, l0, location, log, height, width, row, col)
      ensures DoneUpTo(location, height, width, row, col, i + 1)
    {
      var r := row + Offsets[i].0;
      var c := col + Offsets[i].1;
      ghost var bm, lm := location, log;
      if IsLegalIndex(r, c) && IsCovered(r, c) && !location[r][c].mine {
        OffsetAdjacent(row, col, i);
        CoveredShrinks(b0, bm, height, width, row, col);
        UncoverAt(r, c);
        CascadeStep(b0, l0, bm, lm, location, log, height, width, row, col, r, c);
      } else {
        DoneKeptRefl(bm, height, width);
      }
      DoneUpToStep(bm, location, height, width, row, col, i, r, c);
    }

    /** The grid as text: one line per row, each square written as "9" when
        it holds a mine and as its hint otherwise (see CorrectBoardText for
        the shape of this text on a set-up grid). */
    method ToString() returns (s: string)
      requires Shaped()
      ensures s == BoardText(location)
    {
      s := "";
      for i := 0 to height
        invariant s == BoardText(location[..i])
      {
        for j := 0 to width
          invariant s == BoardText(location[..i]) + RowText(location[i][..j])
        {
          RowTextStep(location[i], j);
          ConcatAssoc(BoardText(location[..i]), RowText(location[i][..j]), CellText(location[i][j]));
          if location[i][j].mine {
            s := s + "9";
          } else {
            s := s + Decimal.IntToString(location[i][j].hint);
          }
        }
        BoardTextStep(location, i);
        s := s + "\n";
      }
      assert location[..height] == location;
    }
  }
}
