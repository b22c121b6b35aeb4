/** The minefield as a value: a row-major grid of cells, its geometry
    (legal indices, the clipped 3x3 neighbourhood), the hint a cell should
    carry, the outcome of the game, the per-cell state machine and the
    notifications the grid sends (Grid.java). */
module Boards {
  import opened Locations
  import Decimal

  /** A (row, column) index. */
  type Pos = (int, int)

  /** Rows of cells, indexed [row][col]. */
  type Board = seq<seq<Cell>>

  /** A legal index of a height-by-width grid. */
  predicate InBounds(h: int, w: int, r: int, c: int) {
    0 <= r < h && 0 <= c < w
  }

  /** The board has h rows of w cells each. */
  ghost predicate Rect(b: Board, h: int, w: int) {
    |b| == h && forall r | 0 <= r < h :: |b[r]| == w
  }

  /** An h-by-w board of new locations (the arrays the constructor allocates). */
  function Blank(h: nat, w: nat): (b: Board)
    ensures Rect(b, h, w) && forall r, c | InBounds(h, w, r, c) :: b[r][c] == Default
  {
    seq(h, _ => seq(w, _ => Default))
  }

  /** Every index of a height-by-width grid. */
  ghost function AllCells(h: int, w: int): set<Pos> {
    set r, c | 0 <= r < h && 0 <= c < w :: (r, c)
  }

  /** Two distinct squares that share an edge or a corner. */
  predicate Adjacent(p: Pos, q: Pos) {
    p != q && -1 <= p.0 - q.0 <= 1 && -1 <= p.1 - q.1 <= 1
  }

  // ---------------------------------------------------------------------
  // Neighbours, enumerated as the grid does: offsets (i, j) with i, then j,
  // running from -1 to 1, keeping the legal ones other than the square itself.

  /** The square at offset (i, j) from (row, col), when it is legal and is not (row, col). */
  function Candidate(h: int, w: int, row: int, col: int, i: int, j: int): seq<Pos> {
    if InBounds(h, w, row + i, col + j) && (row + i != row || col + j != col) then [(row + i, col + j)] else []
  }

  /** The candidates at offsets (i, -1) up to (i, j - 1). */
  function RowCandidates(h: int, w: int, row: int, col: int, i: int, j: int): seq<Pos>
    requires -1 <= j <= 2
  {
    if j == -1 then []
    else if j == 0 then Candidate(h, w, row, col, i, -1)
    else if j == 1 then Candidate(h, w, row, col, i, -1) + Candidate(h, w, row, col, i, 0)
    else Candidate(h, w, row, col, i, -1) + Candidate(h, w, row, col, i, 0) + Candidate(h, w, row, col, i, 1)
  }

  /** The candidates of rows -1 up to i - 1. */
  function CandidatesBefore(h: int, w: int, row: int, col: int, i: int): seq<Pos>
    requires -1 <= i <= 2
  {
    if i == -1 then []
    else if i == 0 then RowCandidates(h, w, row, col, -1, 2)
    else if i == 1 then RowCandidates(h, w, row, col, -1, 2) + RowCandidates(h, w, row, col, 0, 2)
    else RowCandidates(h, w, row, col, -1, 2) + RowCandidates(h, w, row, col, 0, 2) + RowCandidates(h, w, row, col, 1, 2)
  }

  /** The neighbours of (row, col) in row-major order; none for an illegal index. */
  function Neighbors(h: int, w: int, row: int, col: int): seq<Pos> {
    if InBounds(h, w, row, col) then CandidatesBefore(h, w, row, col, 2) else []
  }

  /** The candidates of one row are the legal squares of that row at column
      offsets -1 up to j - 1, other than (row, col). */
  lemma RowCandidatesMembers(h: int, w: int, row: int, col: int, i: int, j: int, p: Pos)
    requires -1 <= j <= 2
    ensures p in RowCandidates(h, w, row, col, i, j) <==>
      p.0 == row + i && -1 <= p.1 - col <= j - 1 && InBounds(h, w, p.0, p.1) && p != (row, col)
  {
  }

  /** The candidates of rows -1 up to i - 1 are the legal squares at row
      offsets -1 up to i - 1 and column offsets -1 up to 1, other than (row, col). */
  lemma CandidatesBeforeMembers(h: int, w: int, row: int, col: int, i: int, p: Pos)
    requires -1 <= i <= 2
    ensures p in CandidatesBefore(h, w, row, col, i) <==>
      -1 <= p.0 - row <= i - 1 && -1 <= p.1 - col <= 1 && InBounds(h, w, p.0, p.1) && p != (row, col)
  {
    RowCandidatesMembers(h, w, row, col, -1, 2, p);
    RowCandidatesMembers(h, w, row, col, 0, 2, p);
    RowCandidatesMembers(h, w, row, col, 1, 2, p);
  }

  /** A square is listed as a neighbour exactly when both it and (row, col)
      are legal and the two are adjacent. */
  lemma NeighborsAreAdjacent(h: int, w: int, row: int, col: int, p: Pos)
    ensures p in Neighbors(h, w, row, col) <==>
      InBounds(h, w, row, col) && InBounds(h, w, p.0, p.1) && Adjacent(p, (row, col))
  {
    CandidatesBeforeMembers(h, w, row, col, 2, p);
  }

  /** Every listed neighbour is a legal index. */
  lemma NeighborsInBounds(h: int, w: int, row: int, col: int)
    ensures forall p | p in Neighbors(h, w, row, col) :: InBounds(h, w, p.0, p.1)
  {
    forall p | p in Neighbors(h, w, row, col) ensures InBounds(h, w, p.0, p.1) {
      NeighborsAreAdjacent(h, w, row, col, p);
    }
  }

  /** p comes before q in row-major order. */
  predicate RowMajorBefore(p: Pos, q: Pos) {
    p.0 < q.0 || (p.0 == q.0 && p.1 < q.1)
  }

  /** Strictly increasing in row-major order. */
  predicate RowMajor(s: seq<Pos>) {
    forall k, k' | 0 <= k < k' < |s| :: RowMajorBefore(s[k], s[k'])
  }

  /** Two increasing lists, the first wholly before the second, join into one. */
  lemma RowMajorAppend(s: seq<Pos>, t: seq<Pos>)
    requires RowMajor(s) && RowMajor(t)
    requires forall p, q | p in s && q in t :: RowMajorBefore(p, q)
    ensures RowMajor(s + t)
  {
    forall k, k' | 0 <= k < k' < |s + t| ensures RowMajorBefore((s + t)[k], (s + t)[k']) {
      if k' < |s| {
      } else if k < |s| {
        assert (s + t)[k] in s && (s + t)[k'] in t;
      } else {
        assert (s + t)[k] == t[k - |s|] && (s + t)[k'] == t[k' - |s|];
      }
    }
  }

  lemma RowCandidatesRowMajor(h: int, w: int, row: int, col: int, i: int)
    ensures RowMajor(RowCandidates(h, w, row, col, i, 2))
  {
    var a, b, c := Candidate(h, w, row, col, i, -1), Candidate(h, w, row, col, i, 0), Candidate(h, w, row, col, i, 1);
    RowMajorAppend(a, b);
    RowMajorAppend(a + b, c);
  }

  lemma CandidatesBeforeRowMajor(h: int, w: int, row: int, col: int)
    ensures RowMajor(CandidatesBefore(h, w, row, col, 2))
  {
    var a, b, c := RowCandidates(h, w, row, col, -1, 2), RowCandidates(h, w, row, col, 0, 2), RowCandidates(h, w, row, col, 1, 2);
    RowCandidatesRowMajor(h, w, row, col, -1);
    RowCandidatesRowMajor(h, w, row, col, 0);
    RowCandidatesRowMajor(h, w, row, col, 1);
    forall p: Pos | p in a + b + c ensures p.0 == row - 1 || p.0 == row || p.0 == row + 1 {
    }
    RowMajorAppend(a, b);
    RowMajorAppend(a + b, c);
  }

  /** The neighbours are listed in strictly increasing row-major order, hence
      without repetition. */
  lemma NeighborsRowMajor(h: int, w: int, row: int, col: int)
    ensures RowMajor(Neighbors(h, w, row, col))
  {
    CandidatesBeforeRowMajor(h, w, row, col);
  }

  /** How many of the indices x - 1, x, x + 1 lie in [0, n). */
  function Span(n: int, x: int): int {
    (if 0 < x then 1 else 0) + 1 + (if x < n - 1 then 1 else 0)
  }

  /** The clipped 3x3 block minus the square itself: a legal (row, col) has
      Span(h, row) * Span(w, col) - 1 neighbours, an illegal one none. */
  lemma NeighborCount(h: int, w: int, row: int, col: int)
    ensures |Neighbors(h, w, row, col)| == if InBounds(h, w, row, col) then Span(h, row) * Span(w, col) - 1 else 0
  {
    if InBounds(h, w, row, col) {
      var rs, cs := Span(h, row), Span(w, col);
      assert rs * cs == (if rs == 1 then cs else if rs == 2 then cs + cs else cs + cs + cs);
    }
  }

  /** On a grid at least 2 by 2, a corner has 3 neighbours. */
  lemma CornerHasThree(h: int, w: int, row: int, col: int)
    requires 2 <= h && 2 <= w
    requires (row == 0 || row == h - 1) && (col == 0 || col == w - 1)
    ensures |Neighbors(h, w, row, col)| == 3
  {
    NeighborCount(h, w, row, col);
  }

  /** A square on a side but not in a corner has 5 neighbours. */
  lemma EdgeHasFive(h: int, w: int, row: int, col: int)
    requires 2 <= h && 2 <= w && InBounds(h, w, row, col)
    requires ((row == 0 || row == h - 1) && 0 < col < w - 1) || ((col == 0 || col == w - 1) && 0 < row < h - 1)
    ensures |Neighbors(h, w, row, col)| == 5
  {
    NeighborCount(h, w, row, col);
  }

  /** An interior square has 8 neighbours. */
  lemma InteriorHasEight(h: int, w: int, row: int, col: int)
    requires 0 < row < h - 1 && 0 < col < w - 1
    ensures |Neighbors(h, w, row, col)| == 8
  {
    NeighborCount(h, w, row, col);
  }

  /** No square has more than 8 neighbours. */
  lemma AtMostEight(h: int, w: int, row: int, col: int)
    ensures |Neighbors(h, w, row, col)| <= 8
  {
    NeighborCount(h, w, row, col);
    if InBounds(h, w, row, col) {
      var rs, cs := Span(h, row), Span(w, col);
      assert rs * cs == (if rs == 1 then cs else if rs == 2 then cs + cs else cs + cs + cs);
    }
  }

  // ---------------------------------------------------------------------
  // Hints

  /** The number of mined cells in a list (calculateHint). */
  ghost function MineCount(cells: seq<Cell>): nat {
    if cells == [] then 0 else MineCount(cells[..|cells| - 1]) + (if cells[|cells| - 1].mine then 1 else 0)
  }

  lemma {:induction false} MineCountBounded(cells: seq<Cell>)
    ensures MineCount(cells) <= |cells|
  {
    if cells != [] {
      MineCountBounded(cells[..|cells| - 1]);
    }
  }

  /** The cell at p; an index off the board, which getNeighbors never
      lists, stands for a default cell. */
  function CellOf(b: Board, p: Pos): Cell {
    if 0 <= p.0 < |b| && 0 <= p.1 < |b[p.0]| then b[p.0][p.1] else Default
  }

  /** The cells at the listed indices, in the same order (the list getNeighbors builds). */
  ghost function CellsAt(b: Board, ps: seq<Pos>): seq<Cell> {
    seq(|ps|, k requires 0 <= k < |ps| => CellOf(b, ps[k]))
  }

  lemma CellsAtAppend(b: Board, ps: seq<Pos>, qs: seq<Pos>)
    ensures CellsAt(b, ps + qs) == CellsAt(b, ps) + CellsAt(b, qs)
  {
  }

  /** The hint a square should carry: the mines among its listed neighbours. */
  ghost function HintAt(b: Board, h: int, w: int, r: int, c: int): nat
    requires Rect(b, h, w)
  {
    MineCount(CellsAt(b, Neighbors(h, w, r, c)))
  }

  /** Every square's hint is the number of mined squares adjacent to it. */
  ghost predicate HintsCorrect(b: Board, h: int, w: int)
    requires Rect(b, h, w)
  {
    forall r, c | InBounds(h, w, r, c) :: b[r][c].hint == |MinedAround(b, h, w, r, c)|
  }

  /** The mined squares adjacent to (r, c), defined without the enumeration. */
  ghost function MinedAround(b: Board, h: int, w: int, r: int, c: int): set<Pos>
    requires Rect(b, h, w)
  {
    set r', c' | 0 <= r' < h && 0 <= c' < w && Adjacent((r', c'), (r, c)) && b[r'][c'].mine :: (r', c')
  }

  /** Counting the mined cells of a repetition-free list of indices counts
      the mined indices in it. */
  lemma {:induction false} MineCountOfDistinct(b: Board, ps: seq<Pos>)
    requires RowMajor(ps)
    ensures MineCount(CellsAt(b, ps)) == |MinedIn(b, ps)|
  {
    if ps != [] {
      var n := |ps| - 1;
      var init, last := ps[..n], ps[n];
      assert ps == init + [last];
      assert RowMajor(init);
      MineCountOfDistinct(b, init);
      CellsAtAppend(b, init, [last]);
      MineCountSnoc(CellsAt(b, init), CellOf(b, last));
      assert last !in init by {
        forall k | 0 <= k < n ensures init[k] != last {
          assert RowMajorBefore(ps[k], ps[n]);
        }
      }
      MinedInSnoc(b, init, last);
    }
  }

  /** The listed indices whose cells hold a mine. */
  ghost function MinedIn(b: Board, ps: seq<Pos>): set<Pos> {
    set p | p in ps && CellOf(b, p).mine
  }

  /** A new index adds itself to the mined ones exactly when it is mined. */
  lemma MinedInSnoc(b: Board, ps: seq<Pos>, p: Pos)
    requires p !in ps
    ensures |MinedIn(b, ps + [p])| == |MinedIn(b, ps)| + if CellOf(b, p).mine then 1 else 0
  {
    if CellOf(b, p).mine {
      assert MinedIn(b, ps + [p]) == MinedIn(b, ps) + {p};
    } else {
      assert MinedIn(b, ps + [p]) == MinedIn(b, ps);
    }
  }

  /** Counting one more cell. */
  lemma MineCountSnoc(cs: seq<Cell>, c: Cell)
    ensures MineCount(cs + [c]) == MineCount(cs) + if c.mine then 1 else 0
  {
    assert (cs + [c])[..|cs|] == cs;
  }

  /** A legal square's hint is the number of mined squares adjacent to it. */
  lemma HintIsMinedAround(b: Board, h: int, w: int, r: int, c: int)
    requires Rect(b, h, w) && InBounds(h, w, r, c)
    ensures HintAt(b, h, w, r, c) == |MinedAround(b, h, w, r, c)|
  {
    var ns := Neighbors(h, w, r, c);
    NeighborsRowMajor(h, w, r, c);
    MineCountOfDistinct(b, ns);
    forall p ensures p in ns <==> InBounds(h, w, p.0, p.1) && Adjacent(p, (r, c)) {
      NeighborsAreAdjacent(h, w, r, c, p);
    }
    assert MinedIn(b, ns) == MinedAround(b, h, w, r, c);
  }

  /** A hint lies in [0, 8]. */
  lemma HintInRange(b: Board, h: int, w: int, r: int, c: int)
    requires Rect(b, h, w)
    ensures 0 <= HintAt(b, h, w, r, c) <= 8
  {
    AtMostEight(h, w, r, c);
    MineCountBounded(CellsAt(b, Neighbors(h, w, r, c)));
  }

  /** Two boards of the same shape with mines in the same places. */
  ghost predicate SameMines(b0: Board, b: Board, h: int, w: int) {
    Rect(b0, h, w) && Rect(b, h, w) &&
    forall r, c | InBounds(h, w, r, c) :: b[r][c].mine == b0[r][c].mine
  }

  /** The same board with the hint of square (r, c) replaced (setHint). */
  function SetHint(b: Board, r: int, c: int, v: int): Board
    requires 0 <= r < |b| && 0 <= c < |b[r]|
  {
    b[r := b[r][c := b[r][c].(hint := v)]]
  }

  /** While hints are written into row i, b differs from bi in the hints
      of row i only. */
  ghost predicate RowFrame(bi: Board, b: Board, h: int, w: int, i: int) {
    Rect(bi, h, w) && Rect(b, h, w) && 0 <= i < h &&
    (forall r | 0 <= r < h && r != i :: b[r] == bi[r]) &&
    forall c | 0 <= c < w :: b[i][c].mine == bi[i][c].mine && b[i][c].kind == bi[i][c].kind
  }

  /** Writing one hint of row i keeps the row frame and the other hints. */
  lemma SetHintFrame(bi: Board, b: Board, h: int, w: int, i: int, j: int, v: int)
    requires RowFrame(bi, b, h, w, i) && 0 <= j < w
    ensures RowFrame(bi, SetHint(b, i, j, v), h, w, i)
    ensures SetHint(b, i, j, v)[i][j].hint == v
    ensures forall c | 0 <= c < w && c != j :: SetHint(b, i, j, v)[i][c].hint == b[i][c].hint
  {
  }

  /** A finished row frame keeps the mines, the types and the other rows. */
  lemma RowFrameKeeps(b0: Board, bi: Board, b: Board, h: int, w: int, i: int)
    requires SameMines(b0, bi, h, w) && RowFrame(bi, b, h, w, i)
    requires forall r, c | InBounds(h, w, r, c) :: bi[r][c].kind == b0[r][c].kind
    ensures SameMines(b0, b, h, w)
    ensures forall r, c | InBounds(h, w, r, c) :: b[r][c].kind == b0[r][c].kind
    ensures forall r, c | InBounds(h, w, r, c) && r != i :: b[r][c].hint == bi[r][c].hint
  {
  }

  /** The mines around a square depend on the mine layout only. */
  lemma MinedAroundSameMines(b0: Board, b: Board, h: int, w: int, r: int, c: int)
    requires SameMines(b0, b, h, w)
    ensures MinedAround(b0, h, w, r, c) == MinedAround(b, h, w, r, c)
  {
  }

  /** On a board whose hints are correct, every hint lies in [0, 8]. */
  lemma CorrectHintInRange(b: Board, h: int, w: int, r: int, c: int)
    requires Rect(b, h, w) && HintsCorrect(b, h, w) && InBounds(h, w, r, c)
    ensures 0 <= b[r][c].hint <= 8
  {
    HintIsMinedAround(b, h, w, r, c);
    HintInRange(b, h, w, r, c);
  }

  // ---------------------------------------------------------------------
  // Squares selected by a property of their cell

  /** The indices whose cells satisfy f. */
  ghost function Where(b: Board, f: Cell -> bool): set<Pos> {
    set r, c | 0 <= r < |b| && 0 <= c < |b[r]| && f(b[r][c]) :: (r, c)
  }

  predicate HasMine(x: Cell) { x.mine }
  predicate IsSafe(x: Cell) { !x.mine }
  predicate IsCoveredCell(x: Cell) { x.kind == Covered }
  predicate IsFlaggedCell(x: Cell) { x.kind == Flagged }
  predicate IsUncoveredMine(x: Cell) { x.kind == Uncovered && x.mine }
  predicate IsUncoveredSafe(x: Cell) { x.kind == Uncovered && !x.mine }

  lemma WhereMember(b: Board, f: Cell -> bool, r: int, c: int)
    ensures (r, c) in Where(b, f) <==> 0 <= r < |b| && 0 <= c < |b[r]| && f(b[r][c])
  {
  }

  /** Same mines, same mined squares and the same mines around every square. */
  lemma SameMinesSameLayout(b0: Board, b: Board, h: int, w: int)
    requires SameMines(b0, b, h, w)
    ensures Where(b, HasMine) == Where(b0, HasMine)
    ensures forall r, c :: MinedAround(b0, h, w, r, c) == MinedAround(b, h, w, r, c)
  {
    forall r, c ensures MinedAround(b0, h, w, r, c) == MinedAround(b, h, w, r, c) {
      MinedAroundSameMines(b0, b, h, w, r, c);
    }
  }

  /** The squares satisfying f, scanned row by row up to (but not including) (i, j). */
  ghost function Scanned(b: Board, f: Cell -> bool, i: int, j: int): set<Pos> {
    set r, c | 0 <= r < |b| && 0 <= c < |b[r]| && (r < i || (r == i && c < j)) && f(b[r][c]) :: (r, c)
  }

  lemma ScanStep(b: Board, f: Cell -> bool, i: int, j: int)
    requires 0 <= i < |b| && 0 <= j < |b[i]|
    ensures (i, j) !in Scanned(b, f, i, j)
    ensures Scanned(b, f, i, j + 1) == Scanned(b, f, i, j) + (if f(b[i][j]) then {(i, j)} else {})
  {
  }

  /** Scanning one more square counts it exactly when it satisfies f. */
  lemma ScanCount(b: Board, f: Cell -> bool, i: int, j: int)
    requires 0 <= i < |b| && 0 <= j < |b[i]|
    ensures |Scanned(b, f, i, j + 1)| == |Scanned(b, f, i, j)| + if f(b[i][j]) then 1 else 0
  {
    ScanStep(b, f, i, j);
  }

  lemma ScanRow(b: Board, f: Cell -> bool, i: int)
    requires 0 <= i < |b|
    ensures Scanned(b, f, i, |b[i]|) == Scanned(b, f, i + 1, 0)
  {
  }

  lemma ScanAll(b: Board, f: Cell -> bool)
    ensures Scanned(b, f, |b|, 0) == Where(b, f)
  {
  }

  // ---------------------------------------------------------------------
  // Outcome

  datatype Result = None | Win | Lose

  /** getResult: LOSE when an uncovered square holds a mine; otherwise WIN
      when the uncovered safe squares and the mines together fill the grid;
      otherwise NONE. */
  ghost function ResultOf(b: Board, h: int, w: int, mines: int): Result {
    if Where(b, IsUncoveredMine) != {} then Lose
    else if |Where(b, IsUncoveredSafe)| + mines == h * w then Win
    else None
  }

  lemma AllCellsMember(h: int, w: int, p: Pos)
    ensures p in AllCells(h, w) <==> InBounds(h, w, p.0, p.1)
  {
    if InBounds(h, w, p.0, p.1) {
      assert p == (p.0, p.1);
    }
  }

  /** The indices of one row. */
  ghost function RowOf(r: int, w: int): set<Pos> {
    set c | 0 <= c < w :: (r, c)
  }

  lemma {:induction false} RowOfCount(r: int, w: nat)
    ensures |RowOf(r, w)| == w
  {
    if w > 0 {
      RowOfCount(r, w - 1);
      assert RowOf(r, w) == RowOf(r, w - 1) + {(r, w - 1)};
    }
  }

  /** A height-by-width grid has height * width indices. */
  lemma {:induction false} AllCellsCount(h: nat, w: nat)
    ensures |AllCells(h, w)| == h * w
  {
    if h > 0 {
      AllCellsCount(h - 1, w);
      RowOfCount(h - 1, w);
      AllCellsLastRow(h, w);
      assert h * w == (h - 1) * w + w;
    }
  }

  /** The last row joins the rows above it, which it does not overlap. */
  lemma AllCellsLastRow(h: nat, w: nat)
    requires h > 0
    ensures AllCells(h - 1, w) !! RowOf(h - 1, w)
    ensures |AllCells(h, w)| == |AllCells(h - 1, w)| + |RowOf(h - 1, w)|
  {
    var top, row := AllCells(h - 1, w), RowOf(h - 1, w);
    forall p ensures p in AllCells(h, w) <==> p in top || p in row {
      AllCellsMember(h, w, p);
      AllCellsMember(h - 1, w, p);
    }
    assert AllCells(h, w) == top + row;
    forall p | p in row ensures p !in top {
      AllCellsMember(h - 1, w, p);
    }
  }

  /** Every index holds either a mine or not: the two sets split the grid. */
  lemma MinedAndSafeFillGrid(b: Board, h: nat, w: nat)
    requires Rect(b, h, w)
    ensures |Where(b, HasMine)| + |Where(b, IsSafe)| == h * w
  {
    var mined, safe := Where(b, HasMine), Where(b, IsSafe);
    AllCellsCount(h, w);
    forall p ensures p in AllCells(h, w) <==> p in mined || p in safe {
      AllCellsMember(h, w, p);
      WhereMember(b, HasMine, p.0, p.1);
      WhereMember(b, IsSafe, p.0, p.1);
    }
    assert AllCells(h, w) == mined + safe;
    forall p | p in mined ensures p !in safe {
      WhereMember(b, HasMine, p.0, p.1);
      WhereMember(b, IsSafe, p.0, p.1);
    }
    assert mined !! safe;
  }

  lemma SubsetSameSize<T>(a: set<T>, b: set<T>)
    requires a <= b && |a| == |b|
    ensures a == b
  {
    assert |b| == |a| + |b - a|;
  }

  /** Uncovering a mine loses, whatever else holds. */
  lemma UncoveredMineLoses(b: Board, h: int, w: int, mines: int, r: int, c: int)
    requires Rect(b, h, w) && InBounds(h, w, r, c)
    requires b[r][c].kind == Uncovered && b[r][c].mine
    ensures ResultOf(b, h, w, mines) == Lose
  {
    WhereMember(b, IsUncoveredMine, r, c);
  }

  /** With exactly `mines` mined squares, the game is won exactly when no
      mine is uncovered and every safe square is. */
  lemma WinIffAllSafeUncovered(b: Board, h: nat, w: nat, mines: int)
    requires Rect(b, h, w) && |Where(b, HasMine)| == mines
    ensures ResultOf(b, h, w, mines) == Win <==>
      Where(b, IsUncoveredMine) == {} &&
      forall r, c | InBounds(h, w, r, c) && !b[r][c].mine :: b[r][c].kind == Uncovered
  {
    var safe, open := Where(b, IsSafe), Where(b, IsUncoveredSafe);
    MinedAndSafeFillGrid(b, h, w);
    forall p | p in open ensures p in safe {
      WhereMember(b, IsSafe, p.0, p.1);
      WhereMember(b, IsUncoveredSafe, p.0, p.1);
    }
    var allOpen := forall r, c | InBounds(h, w, r, c) && !b[r][c].mine :: b[r][c].kind == Uncovered;
    if |open| + mines == h * w {
      SubsetSameSize(open, safe);
      forall r, c | InBounds(h, w, r, c) && !b[r][c].mine ensures b[r][c].kind == Uncovered {
        WhereMember(b, IsSafe, r, c);
        WhereMember(b, IsUncoveredSafe, r, c);
      }
    }
    if allOpen {
      forall p | p in safe ensures p in open {
        WhereMember(b, IsSafe, p.0, p.1);
        WhereMember(b, IsUncoveredSafe, p.0, p.1);
      }
      assert open == safe;
    }
  }

  // ---------------------------------------------------------------------
  // Mine placement from a sequence of draws

  /** The squares that occur among the draws. */
  ghost function Drawn(s: seq<Pos>): set<Pos> {
    set k | 0 <= k < |s| :: s[k]
  }

  /** How many of the draws, taken in order, land on a square that is neither
      in `taken` nor drawn before: the mines rejection sampling can place
      from them. */
  ghost function Fresh(draws: seq<Pos>, taken: set<Pos>): nat
    decreases |draws|
  {
    if draws == [] then 0
    else if draws[0] in taken then Fresh(draws[1..], taken)
    else 1 + Fresh(draws[1..], taken + {draws[0]})
  }

  // ---------------------------------------------------------------------
  // The per-square state machine

  /** The same board with the type of square (r, c) replaced (setType). */
  function SetKind(b: Board, r: int, c: int, k: Type): Board
    requires 0 <= r < |b| && 0 <= c < |b[r]|
  {
    b[r := b[r][c := b[r][c].(kind := k)]]
  }

  /** The type changes a single command may make to one square: none,
      covered to flagged, flagged to covered, covered to uncovered. */
  predicate Allowed(k0: Type, k: Type) {
    k0 == k || (k0 == Covered && k == Flagged) || (k0 == Flagged && k == Covered) || (k0 == Covered && k == Uncovered)
  }

  /** b follows from b0 by allowed type changes; mines and hints stay. */
  ghost predicate Evolves(b0: Board, b: Board, h: int, w: int) {
    Rect(b0, h, w) && Rect(b, h, w) &&
    forall r, c | InBounds(h, w, r, c) ::
      b[r][c].mine == b0[r][c].mine && b[r][c].hint == b0[r][c].hint && Allowed(b0[r][c].kind, b[r][c].kind)
  }

  /** A board that evolves keeps its mined squares and its correct hints. */
  lemma EvolvesKeepsLayout(b0: Board, b: Board, h: int, w: int)
    requires Evolves(b0, b, h, w)
    ensures Where(b, HasMine) == Where(b0, HasMine)
    ensures HintsCorrect(b0, h, w) ==> HintsCorrect(b, h, w)
  {
    assert SameMines(b0, b, h, w);
    SameMinesSameLayout(b0, b, h, w);
  }

  // ---------------------------------------------------------------------
  // Notifications

  /** What a notification reports about its square. */
  datatype Info = Flag | Unflag | Mine | Hint(n: int)

  /** One "row:col:info" notification. */
  datatype Event = Event(row: int, col: int, info: Info)

  /** The notification text for an info part. */
  function InfoText(i: Info): string {
    match i
    case Flag => "flag"
    case Unflag => "unflag"
    case Mine => "mine"
    case Hint(n) => Decimal.IntToString(n)
  }

  /** The string the observers receive. */
  function Message(e: Event): string {
    Decimal.IntToString(e.row) + ":" + Decimal.IntToString(e.col) + ":" + InfoText(e.info)
  }

  /** What uncovering a cell reports: its mine, or else its hint. */
  function InfoOf(x: Cell): Info {
    if x.mine then Mine else Hint(x.hint)
  }

  /** A notification for a legal square reads back field by field: the row
      digits, ':', the column digits, ':', then the info text, and neither
      number contains a ':'. */
  lemma MessageFields(e: Event)
    requires 0 <= e.row && 0 <= e.col
    ensures var m, a, b := Message(e), Decimal.NatToString(e.row), Decimal.NatToString(e.col);
      Decimal.AllDigits(a) && Decimal.AllDigits(b) &&
      m[..|a|] == a && m[|a|] == ':' && m[|a| + 1..|a| + 1 + |b|] == b && m[|a| + 1 + |b|] == ':' &&
      m[|a| + |b| + 2..] == InfoText(e.info) &&
      Decimal.ValueOf(m[..|a|]) == e.row && Decimal.ValueOf(m[|a| + 1..|a| + 1 + |b|]) == e.col
  {
    Decimal.ValueOfNatToString(e.row);
    Decimal.ValueOfNatToString(e.col);
    ThreeFields(Decimal.NatToString(e.row), Decimal.NatToString(e.col), InfoText(e.info));
  }

  /** Where the parts of a + ":" + b + ":" + t lie. */
  lemma ThreeFields(a: string, b: string, t: string)
    ensures var m := a + ":" + b + ":" + t;
      m[..|a|] == a && m[|a|] == ':' && m[|a| + 1..|a| + 1 + |b|] == b && m[|a| + 1 + |b|] == ':' &&
      m[|a| + |b| + 2..] == t
  {
    var m := a + ":" + b + ":" + t;
    assert m[|a| + 1..|a| + 1 + |b|] == b by {
      forall k | 0 <= k < |b| ensures m[|a| + 1 + k] == b[k] {
      }
    }
  }

  /** The info of an uncovered safe square with a hint in [0, 8] is that
      hint as one digit; the other infos are words, not digits. */
  lemma InfoTextDigits(i: Info)
    ensures i.Hint? && 0 <= i.n <= 8 ==>
      |InfoText(i)| == 1 && Decimal.IsDigit(InfoText(i)[0]) && Decimal.DigitValue(InfoText(i)[0]) == i.n
    ensures !i.Hint? ==> !Decimal.IsDigit(InfoText(i)[0])
  {
  }

  // ---------------------------------------------------------------------
  // Flags

  /** A new board and the notifications sent while producing it. */
  datatype Step = Step(board: Board, events: seq<Event>)

  /** placeFlagAt: a legal covered square becomes flagged and "r:c:flag" is
      sent; any other call changes nothing and sends nothing. */
  ghost function PlaceFlag(b: Board, h: int, w: int, r: int, c: int): Step
    requires Rect(b, h, w)
  {
    if InBounds(h, w, r, c) && b[r][c].kind == Covered then Step(SetKind(b, r, c, Flagged), [Event(r, c, Flag)])
    else Step(b, [])
  }

  /** removeFlagAt: a legal flagged square becomes covered and "r:c:unflag"
      is sent; any other call changes nothing and sends nothing. */
  ghost function RemoveFlag(b: Board, h: int, w: int, r: int, c: int): Step
    requires Rect(b, h, w)
  {
    if InBounds(h, w, r, c) && b[r][c].kind == Flagged then Step(SetKind(b, r, c, Covered), [Event(r, c, Unflag)])
    else Step(b, [])
  }

  /** Both flag commands obey the state machine. */
  lemma FlagCommandsEvolve(b: Board, h: int, w: int, r: int, c: int)
    requires Rect(b, h, w)
    ensures Evolves(b, PlaceFlag(b, h, w, r, c).board, h, w)
    ensures Evolves(b, RemoveFlag(b, h, w, r, c).board, h, w)
  {
  }

  /** Placing a flag twice has the effect of placing it once: the second
      call changes nothing and sends nothing. */
  lemma PlaceFlagTwice(b: Board, h: int, w: int, r: int, c: int)
    requires Rect(b, h, w)
    ensures var s := PlaceFlag(b, h, w, r, c);
      Rect(s.board, h, w) && PlaceFlag(s.board, h, w, r, c) == Step(s.board, [])
  {
  }

  /** Removing a flag just placed restores the board. */
  lemma FlagThenUnflag(b: Board, h: int, w: int, r: int, c: int)
    requires Rect(b, h, w) && InBounds(h, w, r, c) && b[r][c].kind == Covered
    ensures var s := PlaceFlag(b, h, w, r, c);
      Rect(s.board, h, w) && s.events == [Event(r, c, Flag)] &&
      RemoveFlag(s.board, h, w, r, c) == Step(b, [Event(r, c, Unflag)])
  {
    var f := SetKind(b, r, c, Flagged);
    assert SetKind(f, r, c, Covered) == b by {
      assert f[r][c := f[r][c].(kind := Covered)] == b[r];
    }
  }

  /** Placing a flag just removed restores the board. */
  lemma UnflagThenFlag(b: Board, h: int, w: int, r: int, c: int)
    requires Rect(b, h, w) && InBounds(h, w, r, c) && b[r][c].kind == Flagged
    ensures var s := RemoveFlag(b, h, w, r, c);
      Rect(s.board, h, w) && s.events == [Event(r, c, Unflag)] &&
      PlaceFlag(s.board, h, w, r, c) == Step(b, [Event(r, c, Flag)])
  {
    var u := SetKind(b, r, c, Covered);
    assert SetKind(u, r, c, Flagged) == b by {
      assert u[r][c := u[r][c].(kind := Flagged)] == b[r];
    }
  }

  // ---------------------------------------------------------------------
  // Uncovering and the cascade

  /** The directions uncoverAt visits around a zero-hint square, in order:
      N, NE, E, SE, S, SW, W, NW. */
  const Offsets: seq<Pos> := [(-1, 0), (-1, 1), (0, 1), (1, 1), (1, 0), (1, -1), (0, -1), (-1, -1)]

  /** b differs from b0 only by squares that went from covered to uncovered. */
  ghost predicate Uncovers(b0: Board, b: Board, h: int, w: int) {
    Rect(b0, h, w) && Rect(b, h, w) &&
    forall r, c | InBounds(h, w, r, c) ::
      b[r][c].mine == b0[r][c].mine && b[r][c].hint == b0[r][c].hint &&
      (b[r][c].kind == b0[r][c].kind || (b0[r][c].kind == Covered && b[r][c].kind == Uncovered))
  }

  /** Square (r, c) was covered in b0 and is uncovered in b. */
  ghost predicate Newly(b0: Board, b: Board, h: int, w: int, r: int, c: int)
    requires Rect(b0, h, w) && Rect(b, h, w)
  {
    InBounds(h, w, r, c) && b0[r][c].kind == Covered && b[r][c].kind == Uncovered
  }

  /** Apart from (row, col), every square uncovered between b0 and b is safe. */
  ghost predicate OnlySafeRevealed(b0: Board, b: Board, h: int, w: int, row: int, col: int)
    requires Rect(b0, h, w) && Rect(b, h, w)
  {
    forall r, c | Newly(b0, b, h, w, r, c) && (r, c) != (row, col) :: !b[r][c].mine
  }

  /** (r, c) on the board is no longer a covered safe square. */
  ghost predicate Done(b: Board, h: int, w: int, r: int, c: int)
    requires Rect(b, h, w)
  {
    InBounds(h, w, r, c) ==> b[r][c].kind != Covered || b[r][c].mine
  }

  /** No covered safe square is left among the squares adjacent to (r, c). */
  ghost predicate Settled(b: Board, h: int, w: int, r: int, c: int)
    requires Rect(b, h, w)
  {
    forall r', c' | InBounds(h, w, r', c') && Adjacent((r', c'), (r, c)) :: Done(b, h, w, r', c')
  }

  /** The flood fill is complete: every safe zero-hint square uncovered
      between b0 and b has no covered safe neighbour left. */
  ghost predicate Closed(b0: Board, b: Board, h: int, w: int)
    requires Rect(b0, h, w) && Rect(b, h, w)
  {
    forall r, c | Newly(b0, b, h, w, r, c) && !b[r][c].mine && b[r][c].hint == 0 :: Settled(b, h, w, r, c)
  }

  /** The events appended to l0 to give l report the squares uncovered
      between b0 and b: each event names such a square and its content, no
      square is reported twice, and every such square is reported. */
  ghost predicate Reported(b0: Board, l0: seq<Event>, b: Board, l: seq<Event>, h: int, w: int)
    requires Rect(b0, h, w) && Rect(b, h, w)
  {
    |l0| <= |l| && l[..|l0|] == l0 &&
    (forall k | |l0| <= k < |l| ::
      Newly(b0, b, h, w, l[k].row, l[k].col) && l[k].info == InfoOf(b[l[k].row][l[k].col])) &&
    (forall k, k' | |l0| <= k < k' < |l| :: (l[k].row, l[k].col) != (l[k'].row, l[k'].col)) &&
    (forall r, c | Newly(b0, b, h, w, r, c) :: exists k | |l0| <= k < |l| :: l[k].row == r && l[k].col == c)
  }

  /** Every event appended to l0 after the first reports a neighbour of a
      zero-hint square reported before it: the cascade spreads only from
      zero hints, one neighbour at a time. */
  ghost predicate Chained(l0: seq<Event>, l: seq<Event>) {
    forall k | |l0| < k < |l| :: exists k' | |l0| <= k' < k ::
      l[k'].info == Hint(0) && Adjacent((l[k].row, l[k].col), (l[k'].row, l[k'].col))
  }

  /** The state of a cascade from the safe zero-hint square (row, col)
      partway through: (row, col) is uncovered and reported first, and every
      other square uncovered so far is safe, settled when its hint is zero,
      reported once and reached from an earlier zero hint. */
  ghost predicate Cascading(b0: Board, l0: seq<Event>, b: Board, l: seq<Event>, h: int, w: int, row: int, col: int) {
    Uncovers(b0, b, h, w) && InBounds(h, w, row, col) &&
    b0[row][col].kind == Covered && b[row][col].kind == Uncovered &&
    !b[row][col].mine && b[row][col].hint == 0 &&
    OnlySafeRevealed(b0, b, h, w, row, col) &&
    (forall r, c | Newly(b0, b, h, w, r, c) && (r, c) != (row, col) && !b[r][c].mine && b[r][c].hint == 0 ::
      Settled(b, h, w, r, c)) &&
    Reported(b0, l0, b, l, h, w) && |l0| < |l| && l[|l0|] == Event(row, col, Hint(0)) &&
    Chained(l0, l)
  }

  /** What one call of uncoverAt at (row, col) does between (b0, l0) and
      (b, l): it only uncovers covered squares, no square but (row, col)
      uncovered is a mine, the cascade is complete, every square uncovered
      is reported exactly once with its content, and the reports are
      chained from zero hints. */
  ghost predicate Revealed(b0: Board, l0: seq<Event>, b: Board, l: seq<Event>, h: int, w: int, row: int, col: int) {
    Uncovers(b0, b, h, w) && OnlySafeRevealed(b0, b, h, w, row, col) && Closed(b0, b, h, w) &&
    Reported(b0, l0, b, l, h, w) && Chained(l0, l)
  }

  /** A call that changes nothing and reports nothing. */
  lemma NothingRevealed(b: Board, l: seq<Event>, h: int, w: int, row: int, col: int)
    requires Rect(b, h, w)
    ensures Revealed(b, l, b, l, h, w, row, col)
  {
    assert l[..|l|] == l;
  }

  /** Uncovering only ever removes covered squares. */
  lemma UncoversEvolves(b0: Board, b: Board, h: int, w: int)
    requires Uncovers(b0, b, h, w)
    ensures Evolves(b0, b, h, w)
  {
  }

  /** Uncovering a covered square strictly reduces the number of covered squares. */
  lemma CoveredShrinks(b0: Board, b: Board, h: int, w: int, row: int, col: int)
    requires Uncovers(b0, b, h, w) && Newly(b0, b, h, w, row, col)
    ensures |Where(b, IsCoveredCell)| < |Where(b0, IsCoveredCell)|
  {
    var before, after := Where(b0, IsCoveredCell), Where(b, IsCoveredCell);
    forall p | p in after ensures p in before {
      WhereMember(b, IsCoveredCell, p.0, p.1);
      WhereMember(b0, IsCoveredCell, p.0, p.1);
    }
    WhereMember(b0, IsCoveredCell, row, col);
    WhereMember(b, IsCoveredCell, row, col);
    ProperSubsetSmaller(after, before, (row, col));
  }

  lemma ProperSubsetSmaller<T>(a: set<T>, b: set<T>, x: T)
    requires a <= b && x in b && x !in a
    ensures |a| < |b|
  {
    assert b == a + (b - a) && x in b - a;
    assert |b| == |a| + |b - a|;
  }

  /** The first step of uncoverAt on a legal covered square: that square
      alone is uncovered and reported. */
  lemma UncoverOne(b0: Board, l0: seq<Event>, h: int, w: int, row: int, col: int)
    requires Rect(b0, h, w) && InBounds(h, w, row, col) && b0[row][col].kind == Covered
    ensures var b, l := SetKind(b0, row, col, Uncovered), l0 + [Event(row, col, InfoOf(b0[row][col]))];
      Uncovers(b0, b, h, w) && Newly(b0, b, h, w, row, col) &&
      (forall r, c | Newly(b0, b, h, w, r, c) :: (r, c) == (row, col)) &&
      OnlySafeRevealed(b0, b, h, w, row, col) && Reported(b0, l0, b, l, h, w) && Chained(l0, l) &&
      (b0[row][col].mine || b0[row][col].hint != 0 ==> Revealed(b0, l0, b, l, h, w, row, col)) &&
      (!b0[row][col].mine && b0[row][col].hint == 0 ==> Cascading(b0, l0, b, l, h, w, row, col))
  {
    var b, l := SetKind(b0, row, col, Uncovered), l0 + [Event(row, col, InfoOf(b0[row][col]))];
    assert l[..|l0|] == l0;
    forall r, c | Newly(b0, b, h, w, r, c)
      ensures exists k | |l0| <= k < |l| :: l[k].row == r && l[k].col == c
    {
      assert l[|l0|].row == r && l[|l0|].col == c;
    }
  }

  /** Composing two uncovering steps: b0 to bm, then bm to b. */
  lemma UncoversCompose(b0: Board, bm: Board, b: Board, h: int, w: int)
    requires Uncovers(b0, bm, h, w) && Uncovers(bm, b, h, w)
    ensures Uncovers(b0, b, h, w)
    ensures forall r, c | InBounds(h, w, r, c) ::
      Newly(b0, b, h, w, r, c) <==> Newly(b0, bm, h, w, r, c) || Newly(bm, b, h, w, r, c)
    ensures forall r, c | Newly(b0, bm, h, w, r, c) :: !Newly(bm, b, h, w, r, c)
    ensures forall r, c | Done(bm, h, w, r, c) :: Done(b, h, w, r, c)
  {
  }

  /** A settled square stays settled while squares are uncovered. */
  lemma SettledStays(bm: Board, b: Board, h: int, w: int, r: int, c: int)
    requires Uncovers(bm, b, h, w) && Settled(bm, h, w, r, c)
    ensures Settled(b, h, w, r, c)
  {
    UncoversCompose(bm, b, b, h, w);
  }

  lemma ReportedCompose(b0: Board, l0: seq<Event>, bm: Board, lm: seq<Event>, b: Board, l: seq<Event>, h: int, w: int)
    requires Uncovers(b0, bm, h, w) && Uncovers(bm, b, h, w)
    requires Reported(b0, l0, bm, lm, h, w) && Reported(bm, lm, b, l, h, w)
    ensures Reported(b0, l0, b, l, h, w)
  {
    UncoversCompose(b0, bm, b, h, w);
    assert l[..|l0|] == l0 by {
      assert l[..|l0|] == l[..|lm|][..|l0|];
    }
    forall k | |l0| <= k < |lm| ensures l[k] == lm[k] {
      assert l[..|lm|][k] == l[k];
    }
    forall k | |l0| <= k < |l|
      ensures Newly(b0, b, h, w, l[k].row, l[k].col) && l[k].info == InfoOf(b[l[k].row][l[k].col])
    {
    }
    forall k, k' | |l0| <= k < k' < |l| ensures (l[k].row, l[k].col) != (l[k'].row, l[k'].col) {
    }
    forall r, c | Newly(b0, b, h, w, r, c) ensures exists k | |l0| <= k < |l| :: l[k].row == r && l[k].col == c {
      if Newly(b0, bm, h, w, r, c) {
        var k :| |l0| <= k < |lm| && lm[k].row == r && lm[k].col == c;
        assert l[k] == lm[k];
      } else {
        var k :| |lm| <= k < |l| && l[k].row == r && l[k].col == c;
      }
    }
  }

  /** One recursive call of the cascade from the root (row, col) into its
      covered safe neighbour (r, c) keeps the cascade's invariant. */
  lemma CascadeStep(b0: Board, l0: seq<Event>, bm: Board, lm: seq<Event>, b: Board, l: seq<Event>,
                    h: int, w: int, row: int, col: int, r: int, c: int)
    requires Cascading(b0, l0, bm, lm, h, w, row, col)
    requires Adjacent((r, c), (row, col)) && InBounds(h, w, r, c)
    requires bm[r][c].kind == Covered && !bm[r][c].mine
    requires Revealed(bm, lm, b, l, h, w, r, c) && b[r][c].kind == Uncovered
    requires |lm| < |l| && l[|lm|].row == r && l[|lm|].col == c
    ensures Cascading(b0, l0, b, l, h, w, row, col)
    ensures DoneKept(bm, b, h, w)
  {
    UncoversCompose(b0, bm, b, h, w);
    ReportedCompose(b0, l0, bm, lm, b, l, h, w);
    SettledCompose(b0, bm, b, h, w, row, col);
    assert l[|l0|] == lm[|l0|] by {
      assert l[..|lm|][|l0|] == l[|l0|];
    }
    ChainedCompose(l0, lm, l);
  }

  /** The zero-hint squares of a cascade stay settled, and those a
      recursive call uncovers it settles. */
  lemma SettledCompose(b0: Board, bm: Board, b: Board, h: int, w: int, row: int, col: int)
    requires Uncovers(b0, bm, h, w) && Uncovers(bm, b, h, w) && Closed(bm, b, h, w)
    requires forall r, c | Newly(b0, bm, h, w, r, c) && (r, c) != (row, col) && !bm[r][c].mine && bm[r][c].hint == 0 ::
      Settled(bm, h, w, r, c)
    ensures forall r, c | Newly(b0, b, h, w, r, c) && (r, c) != (row, col) && !b[r][c].mine && b[r][c].hint == 0 ::
      Settled(b, h, w, r, c)
  {
    UncoversCompose(b0, bm, b, h, w);
    forall r', c' | Newly(b0, b, h, w, r', c') && (r', c') != (row, col) && !b[r'][c'].mine && b[r'][c'].hint == 0
      ensures Settled(b, h, w, r', c')
    {
      if Newly(b0, bm, h, w, r', c') {
        SettledStays(bm, b, h, w, r', c');
      }
    }
  }

  /** Two chained runs of reports, the second starting with a neighbour of
      the first's zero-hint root, make one chained run. */
  lemma ChainedCompose(l0: seq<Event>, lm: seq<Event>, l: seq<Event>)
    requires |l0| < |lm| < |l| && l[..|lm|] == lm
    requires Chained(l0, lm) && Chained(lm, l)
    requires lm[|l0|].info == Hint(0) && Adjacent((l[|lm|].row, l[|lm|].col), (lm[|l0|].row, lm[|l0|].col))
    ensures Chained(l0, l)
  {
    forall k | |l0| < k < |l|
      ensures exists k' | |l0| <= k' < k ::
        l[k'].info == Hint(0) && Adjacent((l[k].row, l[k].col), (l[k'].row, l[k'].col))
    {
      if k < |lm| {
        var k' :| |l0| <= k' < k && lm[k'].info == Hint(0) && Adjacent((lm[k].row, lm[k].col), (lm[k'].row, lm[k'].col));
        assert l[..|lm|][k] == l[k] && l[..|lm|][k'] == l[k'];
      } else if k == |lm| {
        assert l[..|lm|][|l0|] == l[|l0|];
      } else {
        var k' :| |lm| <= k' < k && l[k'].info == Hint(0) && Adjacent((l[k].row, l[k].col), (l[k'].row, l[k'].col));
      }
    }
  }

  /** Each direction leads to an adjacent square. */
  lemma OffsetAdjacent(row: int, col: int, k: int)
    requires 0 <= k < |Offsets|
    ensures Adjacent((row + Offsets[k].0, col + Offsets[k].1), (row, col))
  {
  }

  /** A cascade whose root is settled is complete. */
  lemma CascadeCloses(b0: Board, l0: seq<Event>, b: Board, l: seq<Event>, h: int, w: int, row: int, col: int)
    requires Cascading(b0, l0, b, l, h, w, row, col) && Settled(b, h, w, row, col)
    ensures Revealed(b0, l0, b, l, h, w, row, col)
    ensures b[row][col].kind == Uncovered && |l0| < |l| && l[|l0|] == Event(row, col, InfoOf(b[row][col]))
  {
  }

  /** The offset of a direction in the visiting order. */
  function DirectionIndex(d: Pos): (k: nat)
    requires Adjacent(d, (0, 0))
    ensures k < |Offsets| && Offsets[k] == d
  {
    if d == (-1, 0) then 0 else if d == (-1, 1) then 1 else if d == (0, 1) then 2 else if d == (1, 1) then 3
    else if d == (1, 0) then 4 else if d == (1, -1) then 5 else if d == (0, -1) then 6 else 7
  }

  /** The first i directions around (row, col) are done. */
  ghost predicate DoneUpTo(b: Board, h: int, w: int, row: int, col: int, i: int) {
    Rect(b, h, w) && forall k | 0 <= k < i && k < |Offsets| :: Done(b, h, w, row + Offsets[k].0, col + Offsets[k].1)
  }

  /** No square that was done on bm is undone on b. */
  ghost predicate DoneKept(bm: Board, b: Board, h: int, w: int) {
    Rect(bm, h, w) && Rect(b, h, w) && forall r, c | Done(bm, h, w, r, c) :: Done(b, h, w, r, c)
  }

  lemma DoneKeptRefl(b: Board, h: int, w: int)
    requires Rect(b, h, w)
    ensures DoneKept(b, b, h, w)
  {
  }

  /** Direction i done, and nothing undone since the first i were: i + 1 are done. */
  lemma DoneUpToStep(bm: Board, b: Board, h: int, w: int, row: int, col: int, i: int, r: int, c: int)
    requires DoneUpTo(bm, h, w, row, col, i) && DoneKept(bm, b, h, w) && 0 <= i < |Offsets|
    requires r == row + Offsets[i].0 && c == col + Offsets[i].1 && Done(b, h, w, r, c)
    ensures DoneUpTo(b, h, w, row, col, i + 1)
  {
  }

  /** Once all eight directions are done, every adjacent square is done. */
  lemma DirectionsCoverAdjacent(b: Board, h: int, w: int, row: int, col: int, p: Pos)
    requires DoneUpTo(b, h, w, row, col, |Offsets|) && Adjacent(p, (row, col))
    ensures Done(b, h, w, p.0, p.1)
  {
    var k := DirectionIndex((p.0 - row, p.1 - col));
    assert Done(b, h, w, row + Offsets[k].0, col + Offsets[k].1);
  }

  /** Once all eight directions are done, the root is settled. */
  lemma AllDirectionsSettle(b: Board, h: int, w: int, row: int, col: int)
    requires DoneUpTo(b, h, w, row, col, |Offsets|)
    ensures Settled(b, h, w, row, col)
  {
    forall r', c' | InBounds(h, w, r', c') && Adjacent((r', c'), (row, col)) ensures Done(b, h, w, r', c') {
      DirectionsCoverAdjacent(b, h, w, row, col, (r', c'));
    }
  }

  // ---------------------------------------------------------------------
  // Helpers for the grid's loops

  /** One more offset (i, j) of the enumeration getNeighbors performs. */
  lemma CollectStep(b: Board, h: int, w: int, row: int, col: int, i: int, j: int)
    requires -1 <= i <= 1 && -1 <= j <= 1
    ensures CellsAt(b, CandidatesBefore(h, w, row, col, i) + RowCandidates(h, w, row, col, i, j + 1)) ==
      CellsAt(b, CandidatesBefore(h, w, row, col, i) + RowCandidates(h, w, row, col, i, j)) + CellsAt(b, Candidate(h, w, row, col, i, j))
  {
    var pre, cur, cand := CandidatesBefore(h, w, row, col, i), RowCandidates(h, w, row, col, i, j), Candidate(h, w, row, col, i, j);
    RowStep(h, w, row, col, i, j);
    assert pre + (cur + cand) == (pre + cur) + cand;
    CellsAtAppend(b, pre + cur, cand);
  }

  /** One more column offset in a row of the enumeration. */
  lemma RowStep(h: int, w: int, row: int, col: int, i: int, j: int)
    requires -1 <= j <= 1
    ensures RowCandidates(h, w, row, col, i, j) + Candidate(h, w, row, col, i, j) == RowCandidates(h, w, row, col, i, j + 1)
  {
    if j == -1 {
      assert [] + Candidate(h, w, row, col, i, j) == Candidate(h, w, row, col, i, j);
    }
  }

  /** A finished row of offsets joins the rows before it. */
  lemma CollectRow(h: int, w: int, row: int, col: int, i: int)
    requires -1 <= i <= 1
    ensures CandidatesBefore(h, w, row, col, i) + RowCandidates(h, w, row, col, i, 2) == CandidatesBefore(h, w, row, col, i + 1)
  {
  }

  /** The end of row i - 1 is the start of row i. */
  lemma RowBoundary(h: int, w: int, row: int, col: int, i: int)
    requires 0 <= i <= 2
    ensures CandidatesBefore(h, w, row, col, i - 1) + RowCandidates(h, w, row, col, i - 1, 2) ==
      CandidatesBefore(h, w, row, col, i) + RowCandidates(h, w, row, col, i, -1)
  {
    CollectRow(h, w, row, col, i - 1);
    assert RowCandidates(h, w, row, col, i, -1) == [];
    assert CandidatesBefore(h, w, row, col, i) + [] == CandidatesBefore(h, w, row, col, i);
  }

  /** The cells getNeighbors' two loops have collected before offset (i, j),
      one offset at a time; the end of row i - 1 is the start of row i. */
  ghost function Gathered(b: Board, h: int, w: int, row: int, col: int, i: int, j: int): seq<Cell>
    requires -1 <= i <= 2 && -1 <= j <= 2 && (i == 2 ==> j == -1)
    decreases i + 1, j + 1
  {
    if j > -1 then Gathered(b, h, w, row, col, i, j - 1) + CellsAt(b, Candidate(h, w, row, col, i, j - 1))
    else if i > -1 then Gathered(b, h, w, row, col, i - 1, 2)
    else []
  }

  /** One more offset (i, j): the cell there is collected when it is a legal
      square other than (row, col). */
  lemma GatheredStep(b: Board, h: int, w: int, row: int, col: int, i: int, j: int)
    requires Rect(b, h, w) && -1 <= i <= 1 && -1 <= j <= 1
    ensures Gathered(b, h, w, row, col, i, j + 1) ==
      Gathered(b, h, w, row, col, i, j) +
      if InBounds(h, w, row + i, col + j) && (row + i != row || col + j != col) then [b[row + i][col + j]] else []
  {
  }

  /** The end of row i of offsets is the start of row i + 1. */
  lemma GatheredRowEnd(b: Board, h: int, w: int, row: int, col: int, i: int)
    requires -1 <= i <= 1
    ensures Gathered(b, h, w, row, col, i + 1, -1) == Gathered(b, h, w, row, col, i, 2)
  {
  }

  /** What the loops collect are the cells at the candidates enumerated so far. */
  lemma {:induction false} GatheredIsCellsAt(b: Board, h: int, w: int, row: int, col: int, i: int, j: int)
    requires -1 <= i <= 2 && -1 <= j <= 2 && (i == 2 ==> j == -1)
    ensures Gathered(b, h, w, row, col, i, j) == CellsAt(b, CandidatesBefore(h, w, row, col, i) + RowCandidates(h, w, row, col, i, j))
    decreases i + 1, j + 1
  {
    if j > -1 {
      GatheredIsCellsAt(b, h, w, row, col, i, j - 1);
      CollectStep(b, h, w, row, col, i, j - 1);
    } else if i > -1 {
      GatheredIsCellsAt(b, h, w, row, col, i - 1, 2);
      RowBoundary(h, w, row, col, i);
    } else {
      assert CandidatesBefore(h, w, row, col, i) + RowCandidates(h, w, row, col, i, j) == [];
    }
  }

  /** All nine offsets collect the cells of the neighbours. */
  lemma GatheredAll(b: Board, h: int, w: int, row: int, col: int)
    requires InBounds(h, w, row, col)
    ensures Gathered(b, h, w, row, col, 2, -1) == CellsAt(b, Neighbors(h, w, row, col))
  {
    GatheredIsCellsAt(b, h, w, row, col, 2, -1);
    assert CandidatesBefore(h, w, row, col, 2) + RowCandidates(h, w, row, col, 2, -1) == CandidatesBefore(h, w, row, col, 2);
  }

  /** The board with a mine at (x, y) (setMine(true)). */
  function AddMine(b: Board, x: int, y: int): Board
    requires 0 <= x < |b| && 0 <= y < |b[x]|
  {
    b[x := b[x][y := b[x][y].(mine := true)]]
  }

  /** Every draw lands on the grid. */
  ghost predicate OnGrid(ds: seq<Pos>, h: int, w: int) {
    forall k | 0 <= k < |ds| :: InBounds(h, w, ds[k].0, ds[k].1)
  }

  /** Rejection sampling, draw by draw: a draw on a mine-free square places
      a mine there, a draw on a mined square is skipped. */
  ghost function Sample(b: Board, h: int, w: int, ds: seq<Pos>): (b': Board)
    requires Rect(b, h, w) && OnGrid(ds, h, w)
    ensures Rect(b', h, w)
    decreases |ds|
  {
    if ds == [] then b
    else
      var prev := Sample(b, h, w, ds[..|ds| - 1]);
      var d := ds[|ds| - 1];
      if prev[d.0][d.1].mine then prev else AddMine(prev, d.0, d.1)
  }

  /** How many of the draws placed a mine. */
  ghost function Placed(b: Board, h: int, w: int, ds: seq<Pos>): nat
    requires Rect(b, h, w) && OnGrid(ds, h, w)
    decreases |ds|
  {
    if ds == [] then 0
    else
      var d := ds[|ds| - 1];
      Placed(b, h, w, ds[..|ds| - 1]) + if Sample(b, h, w, ds[..|ds| - 1])[d.0][d.1].mine then 0 else 1
  }

  /** b and count are what sampling the first `used` draws of r0 on b0 gives. */
  ghost predicate SampledTo(b0: Board, h: int, w: int, r0: seq<Pos>, used: int, b: Board, count: int) {
    Rect(b0, h, w) && 0 <= used <= |r0| && OnGrid(r0[..used], h, w) &&
    b == Sample(b0, h, w, r0[..used]) && count == Placed(b0, h, w, r0[..used])
  }

  /** The last of the draws ds placed a mine. */
  ghost predicate EndsPlacing(b0: Board, h: int, w: int, ds: seq<Pos>) {
    Rect(b0, h, w) && OnGrid(ds, h, w) && ds != [] && OnGrid(ds[..|ds| - 1], h, w) &&
    Placed(b0, h, w, ds[..|ds| - 1]) < Placed(b0, h, w, ds)
  }

  lemma SampleStart(b0: Board, h: int, w: int, r0: seq<Pos>)
    requires Rect(b0, h, w)
    ensures SampledTo(b0, h, w, r0, 0, b0, 0)
  {
    assert r0[..0] == [];
  }

  /** One more draw, as the sampling loop takes it. */
  lemma SampleStep(b0: Board, h: int, w: int, r0: seq<Pos>, used: int, b: Board, count: int)
    requires SampledTo(b0, h, w, r0, used, b, count) && used < |r0| && InBounds(h, w, r0[used].0, r0[used].1)
    ensures var d := r0[used];
      if b[d.0][d.1].mine then SampledTo(b0, h, w, r0, used + 1, b, count)
      else SampledTo(b0, h, w, r0, used + 1, AddMine(b, d.0, d.1), count + 1) && EndsPlacing(b0, h, w, r0[..used + 1])
  {
    var ds := r0[..used + 1];
    assert ds[..used] == r0[..used] && ds[used] == r0[used];
  }

  /** What sampling did to the board: the drawn squares were added to the
      mined ones, one per placed mine; no type and no hint changed. */
  lemma SampledLayout(b0: Board, h: int, w: int, r0: seq<Pos>, used: int, b: Board, count: int)
    requires SampledTo(b0, h, w, r0, used, b, count)
    ensures Rect(b, h, w)
    ensures Where(b, HasMine) == Where(b0, HasMine) + Drawn(r0[..used])
    ensures |Where(b, HasMine)| == |Where(b0, HasMine)| + count
    ensures forall r, c | InBounds(h, w, r, c) :: b[r][c].kind == b0[r][c].kind && b[r][c].hint == b0[r][c].hint
  {
    SampleLayout(b0, h, w, r0[..used]);
  }

  /** A board of default cells has no mine. */
  lemma NoMines(b: Board, h: int, w: int)
    requires Rect(b, h, w) && forall r, c | InBounds(h, w, r, c) :: b[r][c] == Default
    ensures Where(b, HasMine) == {}
  {
    forall p | p in Where(b, HasMine) ensures false {
      WhereMember(b, HasMine, p.0, p.1);
    }
  }

  /** Sampling on a board without mines: the mined squares are exactly the
      squares drawn; and when the last draw taken placed a mine, the draws
      before it land on fewer distinct squares than were placed, so no
      shorter prefix of the draws would have placed as many mines. */
  lemma SampledFromClear(b0: Board, h: int, w: int, r0: seq<Pos>, used: int, b: Board, count: int)
    requires SampledTo(b0, h, w, r0, used, b, count) && Where(b0, HasMine) == {}
    requires count > 0 ==> EndsPlacing(b0, h, w, r0[..used])
    ensures Rect(b, h, w) && Where(b, HasMine) == Drawn(r0[..used]) && |Where(b, HasMine)| == count
    ensures forall r, c | InBounds(h, w, r, c) :: b[r][c].kind == b0[r][c].kind && b[r][c].hint == b0[r][c].hint
    ensures count > 0 ==> 0 < used && |Drawn(r0[..used - 1])| < count
  {
    SampledLayout(b0, h, w, r0, used, b, count);
    assert Where(b0, HasMine) + Drawn(r0[..used]) == Drawn(r0[..used]);
    if count > 0 {
      var ds := r0[..used];
      assert ds[..|ds| - 1] == r0[..used - 1];
      SampleLayout(b0, h, w, ds[..|ds| - 1]);
      assert Where(b0, HasMine) + Drawn(ds[..|ds| - 1]) == Drawn(ds[..|ds| - 1]);
    }
  }

  /** The fresh draws still to come, plus the mines placed, are the fresh
      draws there were at the start. */
  lemma SampledFresh(b0: Board, h: int, w: int, r0: seq<Pos>, used: int, b: Board, count: int)
    requires SampledTo(b0, h, w, r0, used, b, count)
    ensures count + Fresh(r0[used..], Where(b, HasMine)) == Fresh(r0, Where(b0, HasMine))
  {
    SampleFresh(b0, h, w, r0[..used], r0[used..]);
    assert r0[..used] + r0[used..] == r0;
  }

  /** Sampling adds exactly the drawn squares to the mined ones, one new
      mine per placing draw, and changes no type and no hint. */
  lemma {:induction false} SampleLayout(b: Board, h: int, w: int, ds: seq<Pos>)
    requires Rect(b, h, w) && OnGrid(ds, h, w)
    ensures SampleKeeps(b, h, w, ds)
  {
    if ds == [] {
      assert Drawn(ds) == {};
    } else {
      var n := |ds| - 1;
      SampleLayout(b, h, w, ds[..n]);
      SampleUnfold(b, h, w, ds);
      LayoutStep(b, Sample(b, h, w, ds[..n]), h, w, ds[n], Drawn(ds[..n]));
    }
  }

  /** What sampling the draws ds on b does to the layout: it adds exactly
      the drawn squares to the mined ones, one new mine per placing draw,
      and changes no type and no hint. */
  ghost predicate SampleKeeps(b: Board, h: int, w: int, ds: seq<Pos>)
    requires Rect(b, h, w) && OnGrid(ds, h, w)
  {
    var b' := Sample(b, h, w, ds);
    Where(b', HasMine) == Where(b, HasMine) + Drawn(ds) &&
    |Where(b', HasMine)| == |Where(b, HasMine)| + Placed(b, h, w, ds) &&
    forall r, c | InBounds(h, w, r, c) :: b'[r][c].kind == b[r][c].kind && b'[r][c].hint == b[r][c].hint
  }

  /** The last draw of ds, taken on the board sampled from the others. */
  lemma SampleUnfold(b: Board, h: int, w: int, ds: seq<Pos>)
    requires Rect(b, h, w) && OnGrid(ds, h, w) && ds != []
    ensures var n := |ds| - 1;
      OnGrid(ds[..n], h, w) && InBounds(h, w, ds[n].0, ds[n].1) &&
      var prev := Sample(b, h, w, ds[..n]);
      Sample(b, h, w, ds) == (if prev[ds[n].0][ds[n].1].mine then prev else AddMine(prev, ds[n].0, ds[n].1)) &&
      Placed(b, h, w, ds) == Placed(b, h, w, ds[..n]) + (if prev[ds[n].0][ds[n].1].mine then 0 else 1) &&
      Drawn(ds) == Drawn(ds[..n]) + {ds[n]}
  {
    var n := |ds| - 1;
    DrawnExtend(ds, n);
    assert ds[..n + 1] == ds;
  }

  /** One more draw d on the board prev, sampled from b with draws D so far. */
  lemma LayoutStep(b: Board, prev: Board, h: int, w: int, d: Pos, D: set<Pos>)
    requires Rect(b, h, w) && Rect(prev, h, w) && InBounds(h, w, d.0, d.1)
    requires Where(prev, HasMine) == Where(b, HasMine) + D
    requires forall r, c | InBounds(h, w, r, c) :: prev[r][c].kind == b[r][c].kind && prev[r][c].hint == b[r][c].hint
    ensures var next := if prev[d.0][d.1].mine then prev else AddMine(prev, d.0, d.1);
      Where(next, HasMine) == Where(b, HasMine) + (D + {d}) &&
      |Where(next, HasMine)| == |Where(prev, HasMine)| + (if prev[d.0][d.1].mine then 0 else 1) &&
      forall r, c | InBounds(h, w, r, c) :: next[r][c].kind == b[r][c].kind && next[r][c].hint == b[r][c].hint
  {
    WhereMember(prev, HasMine, d.0, d.1);
    if prev[d.0][d.1].mine {
      assert Where(prev, HasMine) + {d} == Where(prev, HasMine);
    } else {
      SetMineWhere(prev, d.0, d.1);
      AddMineKeeps(b, prev, h, w, d.0, d.1);
    }
    UnionAssoc(Where(b, HasMine), D, {d});
  }

  lemma UnionAssoc<T>(a: set<T>, b: set<T>, c: set<T>)
    ensures (a + b) + c == a + (b + c)
  {
  }

  /** Sampling a prefix ds leaves, in the rest of the draws, as many fresh
      ones as the whole sequence had, less the mines already placed. */
  lemma {:induction false} SampleFresh(b: Board, h: int, w: int, ds: seq<Pos>, rest: seq<Pos>)
    requires Rect(b, h, w) && OnGrid(ds, h, w)
    ensures Placed(b, h, w, ds) + Fresh(rest, Where(Sample(b, h, w, ds), HasMine)) == Fresh(ds + rest, Where(b, HasMine))
  {
    if ds == [] {
      assert ds + rest == rest;
    } else {
      var n := |ds| - 1;
      var prev := Sample(b, h, w, ds[..n]);
      var d := ds[n];
      SampleFresh(b, h, w, ds[..n], [d] + rest);
      assert ds[..n] + ([d] + rest) == ds + rest;
      var s := [d] + rest;
      assert s[0] == d && s[1..] == rest;
      WhereMember(prev, HasMine, d.0, d.1);
      if !prev[d.0][d.1].mine {
        SetMineWhere(prev, d.0, d.1);
      }
    }
  }

  /** A draw that raised the count landed on a square neither mined at the
      start nor drawn before. */
  lemma LastPlaced(b: Board, h: int, w: int, ds: seq<Pos>)
    requires Rect(b, h, w) && OnGrid(ds, h, w) && ds != []
    requires Placed(b, h, w, ds[..|ds| - 1]) < Placed(b, h, w, ds)
    ensures ds[|ds| - 1] !in Where(b, HasMine) + Drawn(ds[..|ds| - 1])
  {
    var n := |ds| - 1;
    var d := ds[n];
    SampleLayout(b, h, w, ds[..n]);
    WhereMember(Sample(b, h, w, ds[..n]), HasMine, d.0, d.1);
  }

  /** Adding a mine keeps the shape, every type and every hint. */
  lemma AddMineKeeps(b0: Board, b: Board, h: int, w: int, x: int, y: int)
    requires Rect(b0, h, w) && Rect(b, h, w) && InBounds(h, w, x, y)
    requires forall r, c | InBounds(h, w, r, c) :: b[r][c].kind == b0[r][c].kind && b[r][c].hint == b0[r][c].hint
    ensures Rect(AddMine(b, x, y), h, w)
    ensures forall r, c | InBounds(h, w, r, c) ::
      AddMine(b, x, y)[r][c].kind == b0[r][c].kind && AddMine(b, x, y)[r][c].hint == b0[r][c].hint
  {
  }

  /** Marking a mine on a mine-free square adds exactly that square to the mined ones. */
  lemma SetMineWhere(b: Board, x: int, y: int)
    requires 0 <= x < |b| && 0 <= y < |b[x]|
    ensures Where(AddMine(b, x, y), HasMine) == Where(b, HasMine) + {(x, y)}
  {
    var b' := AddMine(b, x, y);
    forall p ensures p in Where(b', HasMine) <==> p in Where(b, HasMine) + {(x, y)} {
      WhereMember(b', HasMine, p.0, p.1);
      WhereMember(b, HasMine, p.0, p.1);
    }
  }

  lemma DrawnExtend(s: seq<Pos>, n: int)
    requires 0 <= n < |s|
    ensures Drawn(s[..n + 1]) == Drawn(s[..n]) + {s[n]}
  {
    assert forall k | 0 <= k < n :: s[..n + 1][k] == s[..n][k];
    assert s[..n + 1][n] == s[n];
  }

  // ---------------------------------------------------------------------
  // Text form (toString)

  /** The text of one square: "9" for a mine, otherwise its hint in decimal. */
  function CellText(x: Cell): string {
    if x.mine then "9" else Decimal.IntToString(x.hint)
  }

  /** The squares of a row, left to right, with nothing between them. */
  function RowText(row: seq<Cell>): string {
    if row == [] then "" else RowText(row[..|row| - 1]) + CellText(row[|row| - 1])
  }

  /** The rows, top to bottom, each followed by a newline (toString). */
  function BoardText(b: Board): string {
    if b == [] then "" else BoardText(b[..|b| - 1]) + RowText(b[|b| - 1]) + "\n"
  }

  /** One more square of a row. */
  lemma RowTextStep(row: seq<Cell>, j: int)
    requires 0 <= j < |row|
    ensures RowText(row[..j + 1]) == RowText(row[..j]) + CellText(row[j])
  {
    assert row[..j + 1][..j] == row[..j];
  }

  /** One more row of a board. */
  lemma BoardTextStep(b: Board, i: int)
    requires 0 <= i < |b|
    ensures BoardText(b[..i + 1]) == BoardText(b[..i]) + RowText(b[i][..|b[i]|]) + "\n"
  {
    assert b[..i + 1][..i] == b[..i];
    assert b[i][..|b[i]|] == b[i];
  }

  /** The one character a square with a hint in [0, 8] is written as. */
  function Glyph(x: Cell): char
    requires 0 <= x.hint <= 8
  {
    if x.mine then '9' else Decimal.DigitChar(x.hint)
  }

  /** Every square with a hint in [0, 8] is written as one character, and
      that character is '9' exactly when the square holds a mine. */
  lemma CellTextGlyph(x: Cell)
    requires 0 <= x.hint <= 8
    ensures CellText(x) == [Glyph(x)]
    ensures Glyph(x) == '9' <==> x.mine
  {
  }

  /** A row whose hints lie in [0, 8] is written one character per square. */
  lemma {:induction false} RowTextAt(row: seq<Cell>)
    requires RowInRange(row, |row|)
    ensures |RowText(row)| == |row|
    ensures forall c {:trigger RowText(row)[c]} | 0 <= c < |row| :: RowText(row)[c] == Glyph(row[c])
  {
    if row != [] {
      var front := row[..|row| - 1];
      var t, x := RowText(front), CellText(row[|row| - 1]);
      RowTextAt(front);
      CellTextGlyph(row[|row| - 1]);
      forall c | 0 <= c < |row| ensures (t + x)[c] == Glyph(row[c]) {
        if c < |row| - 1 {
          assert (t + x)[c] == t[c] && front[c] == row[c];
        } else {
          assert (t + x)[c] == x[0];
        }
      }
    }
  }

  /** Where line r starts in the text of a board w squares wide. */
  function LineStart(r: nat, w: nat): nat {
    if r == 0 then 0 else LineStart(r - 1, w) + w + 1
  }

  /** Each line is w + 1 characters long. */
  lemma {:induction false} LineStartProduct(r: nat, w: nat)
    ensures LineStart(r, w) == r * (w + 1)
  {
    if r > 0 {
      LineStartProduct(r - 1, w);
      assert r * (w + 1) == (r - 1) * (w + 1) + (w + 1);
    }
  }

  lemma {:induction false} LineStartMono(r: nat, n: nat, w: nat)
    requires r <= n
    ensures LineStart(r, w) <= LineStart(n, w)
    decreases n - r
  {
    if r < n {
      LineStartMono(r, n - 1, w);
    }
  }

  /** A row of w squares whose hints all lie in [0, 8]. */
  ghost predicate RowInRange(row: seq<Cell>, w: int) {
    |row| == w && forall c | 0 <= c < w :: 0 <= row[c].hint <= 8
  }

  /** The hints of an h-by-w board all lie in [0, 8]. */
  ghost predicate HintsInRange(b: Board, h: int, w: int) {
    |b| == h && forall r | 0 <= r < h :: RowInRange(b[r], w)
  }

  /** Rows of w squares with hints in [0, 8] are written as lines of w + 1
      characters. */
  lemma {:induction false} BoardTextLength(rows: Board, w: nat)
    requires HintsInRange(rows, |rows|, w)
    ensures |BoardText(rows)| == LineStart(|rows|, w)
  {
    if rows != [] {
      BoardTextLength(rows[..|rows| - 1], w);
      RowTextAt(rows[|rows| - 1]);
    }
  }

  /** Line r of the text holds square (r, c) at column c and ends with a
      newline at column w. */
  lemma {:induction false} BoardTextAt(rows: Board, w: nat, r: int, c: int)
    requires HintsInRange(rows, |rows|, w)
    requires 0 <= r < |rows| && 0 <= c <= w
    ensures LineStart(r, w) + c < |BoardText(rows)|
    ensures BoardText(rows)[LineStart(r, w) + c] == if c < w then Glyph(rows[r][c]) else '\n'
  {
    var front := rows[..|rows| - 1];
    var t, line := BoardText(front), RowText(rows[|rows| - 1]) + "\n";
    assert BoardText(rows) == t + line;
    BoardTextLength(front, w);
    var k := LineStart(r, w) + c;
    if r < |rows| - 1 {
      BoardTextAt(front, w, r, c);
      LineStartMono(r + 1, |rows| - 1, w);
      assert front[r] == rows[r];
      assert k < |t| && (t + line)[k] == t[k];
    } else {
      RowTextAt(rows[r]);
      assert k == |t| + c && c < |line|;
      assert (t + line)[k] == line[c];
    }
  }

  /** On a board with correct hints every hint lies in [0, 8], so every
      square is written as one character. */
  lemma HintsCorrectInRange(b: Board, h: int, w: int)
    requires Rect(b, h, w) && HintsCorrect(b, h, w)
    ensures HintsInRange(b, h, w)
  {
    forall r | 0 <= r < h ensures RowInRange(b[r], w) {
      forall c | 0 <= c < w ensures 0 <= b[r][c].hint <= 8 {
        CorrectHintInRange(b, h, w, r, c);
      }
    }
  }

  /** The text of a board with correct hints is h lines of w + 1
      characters; the square (r, c) is at LineStart(r, w) + c, that is at
      r * (w + 1) + c, and reads '9' exactly when it holds a mine. */
  lemma CorrectBoardText(b: Board, h: nat, w: nat, r: int, c: int)
    requires Rect(b, h, w) && HintsCorrect(b, h, w) && InBounds(h, w, r, c)
    ensures |BoardText(b)| == h * (w + 1)
    ensures LineStart(r, w) + c < |BoardText(b)|
    ensures BoardText(b)[LineStart(r, w) + c] == '9' <==> b[r][c].mine
  {
    HintsCorrectInRange(b, h, w);
    BoardTextLength(b, w);
    BoardTextAt(b, w, r, c);
    LineStartProduct(h, w);
    CellTextGlyph(b[r][c]);
  }

  lemma ConcatAssoc<T>(a: seq<T>, b: seq<T>, c: seq<T>)
    ensures (a + b) + c == a + (b + c)
  {
  }
}
