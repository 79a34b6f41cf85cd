/** Boards as values: the facts about a grid of cells that the game engine
    relies on. Rows are indexed first, as in the game's `field[row][col]`. */
module Grid {
  import opened Cells

  /** A board: a list of rows, each a list of cells. */
  type Board = seq<seq<Cell>>

  function Max(a: int, b: int): int { if a < b then b else a }

  function Min(a: int, b: int): int { if a < b then a else b }

  /** g has h rows of w cells each. */
  predicate IsGrid(g: Board, h: nat, w: nat)
  {
    |g| == h && forall i :: 0 <= i < h ==> |g[i]| == w
  }

  predicate InBounds(h: nat, w: nat, r: int, c: int)
  {
    0 <= r < h && 0 <= c < w
  }

  /** The board with the cell at (r, c) replaced by v. */
  function Write(g: Board, r: int, c: int, v: Cell): (g': Board)
    requires 0 <= r < |g| && 0 <= c < |g[r]|
    ensures |g'| == |g| && forall i :: 0 <= i < |g| ==> |g'[i]| == |g[i]|
    ensures g'[r][c] == v
    ensures forall i, j :: 0 <= i < |g| && 0 <= j < |g[i]| && (i != r || j != c) ==> g'[i][j] == g[i][j]
  {
    g[r := g[r][c := v]]
  }

  /** Writing back the value a cell already holds changes nothing. */
  lemma WriteSame(g: Board, r: int, c: int)
    requires 0 <= r < |g| && 0 <= c < |g[r]|
    ensures Write(g, r, c, g[r][c]) == g
  {
    assert g[r][c := g[r][c]] == g[r];
  }

  // ---------------------------------------------------------------------
  // Counting cells of one kind

  function CountRow(row: seq<Cell>, k: Cell): nat
  {
    if row == [] then 0 else (if row[0] == k then 1 else 0) + CountRow(row[1..], k)
  }

  /** The number of cells of the board equal to k. */
  function CountCells(g: Board, k: Cell): nat
  {
    if g == [] then 0 else CountRow(g[0], k) + CountCells(g[1..], k)
  }

  lemma {:induction false} CountRowWrite(row: seq<Cell>, c: int, v: Cell, k: Cell)
    requires 0 <= c < |row|
    ensures CountRow(row[c := v], k)
            == CountRow(row, k) - (if row[c] == k then 1 else 0) + (if v == k then 1 else 0)
    decreases |row|
  {
    if c == 0 {
      assert row[c := v][1..] == row[1..];
    } else {
      assert row[c := v][1..] == row[1..][c - 1 := v];
      CountRowWrite(row[1..], c - 1, v, k);
    }
  }

  /** Overwriting one cell moves it from the count of its old kind to the
      count of its new kind and leaves every other count alone. */
  lemma {:induction false} CountCellsWrite(g: Board, r: int, c: int, v: Cell, k: Cell)
    requires 0 <= r < |g| && 0 <= c < |g[r]|
    ensures CountCells(Write(g, r, c, v), k)
            == CountCells(g, k) - (if g[r][c] == k then 1 else 0) + (if v == k then 1 else 0)
    decreases |g|
  {
    if r == 0 {
      assert Write(g, r, c, v)[1..] == g[1..];
      CountRowWrite(g[0], c, v, k);
    } else {
      assert Write(g, r, c, v)[1..] == Write(g[1..], r - 1, c, v);
      CountCellsWrite(g[1..], r - 1, c, v, k);
    }
  }

  lemma {:induction false} CountRowZero(row: seq<Cell>, k: Cell)
    ensures CountRow(row, k) == 0 <==> forall j :: 0 <= j < |row| ==> row[j] != k
    decreases |row|
  {
    if row != [] {
      CountRowZero(row[1..], k);
      assert forall j :: 1 <= j < |row| ==> row[j] == row[1..][j - 1];
    }
  }

  /** A kind has count zero exactly when no cell of the board is of that kind. */
  lemma {:induction false} CountCellsZero(g: Board, k: Cell)
    ensures CountCells(g, k) == 0
            <==> forall i, j :: 0 <= i < |g| && 0 <= j < |g[i]| ==> g[i][j] != k
    decreases |g|
  {
    if g != [] {
      CountRowZero(g[0], k);
      CountCellsZero(g[1..], k);
      assert forall i :: 1 <= i < |g| ==> g[i] == g[1..][i - 1];
    }
  }

  /** A board of h rows of w hidden cells. */
  function HiddenBoard(h: nat, w: nat): (g: Board)
    ensures IsGrid(g, h, w)
    ensures forall i, j :: InBounds(h, w, i, j) ==> g[i][j] == Hidden
  {
    seq(h, _ => seq(w, _ => Hidden))
  }

  lemma {:induction false} CountRowUniform(row: seq<Cell>, v: Cell, k: Cell)
    requires forall j :: 0 <= j < |row| ==> row[j] == v
    ensures CountRow(row, k) == if v == k then |row| else 0
    decreases |row|
  {
    if row != [] {
      CountRowUniform(row[1..], v, k);
    }
  }

  /** A fresh board holds h * w hidden cells and nothing else. */
  lemma {:induction false} CountHiddenBoard(h: nat, w: nat, k: Cell)
    ensures CountCells(HiddenBoard(h, w), k) == if k == Hidden then h * w else 0
    decreases h
  {
    var g := HiddenBoard(h, w);
    if h > 0 {
      assert g[1..] == HiddenBoard(h - 1, w);
      CountRowUniform(g[0], Hidden, k);
      CountHiddenBoard(h - 1, w, k);
      assert h * w == (h - 1) * w + w;
    }
  }

  // ---------------------------------------------------------------------
  // Mines in the clipped 3x3 window

  /** Mines among the cells row[c0 .. c1 - 1]. */
  function RowMines(row: seq<Cell>, c0: int, c1: int): nat
    requires 0 <= c0 <= c1 <= |row|
    decreases c1 - c0
  {
    if c1 == c0 then 0
    else RowMines(row, c0, c1 - 1) + (if row[c1 - 1] == Mine then 1 else 0)
  }

  /** A window of rows r0 .. r1 - 1 and columns c0 .. c1 - 1 lying inside g. */
  predicate IsWindow(g: Board, r0: int, r1: int, c0: int, c1: int)
  {
    0 <= r0 <= r1 <= |g| && 0 <= c0 <= c1 && forall i :: r0 <= i < r1 ==> c1 <= |g[i]|
  }

  /** Mines in the window: the sum of the rows' mines, taken top to bottom. */
  function WindowMines(g: Board, r0: int, r1: int, c0: int, c1: int): nat
    requires IsWindow(g, r0, r1, c0, c1)
    decreases r1 - r0
  {
    if r1 == r0 then 0
    else WindowMines(g, r0, r1 - 1, c0, c1) + RowMines(g[r1 - 1], c0, c1)
  }

  /** The count the game computes for (r, c): mines in the rows
      max(0, r-1) .. min(h, r+2) - 1 and the columns max(0, c-1) .. min(w, c+2) - 1,
      so the 3x3 block around the cell, the cell itself included, cut at the edges. */
  function AdjMines(g: Board, h: nat, w: nat, r: int, c: int): nat
    requires IsGrid(g, h, w) && InBounds(h, w, r, c)
  {
    WindowMines(g, Max(0, r - 1), Min(h, r + 2), Max(0, c - 1), Min(w, c + 2))
  }

  /** The count the game's loops give for any (r, c), on the board or not:
      as with Python's range, a window whose end does not exceed its start is
      empty. On the board it is the count AdjMines. */
  function WindowCount(g: Board, h: nat, w: nat, r: int, c: int): (n: nat)
    requires IsGrid(g, h, w)
    ensures InBounds(h, w, r, c) ==> n == AdjMines(g, h, w, r, c)
    ensures r < -1 || c < -1 || r > h || c > w ==> n == 0
  {
    var r0, r1, c0, c1 := Max(0, r - 1), Min(h, r + 2), Max(0, c - 1), Min(w, c + 2);
    if r1 <= r0 || c1 <= c0 then 0 else WindowMines(g, r0, r1, c0, c1)
  }

  /** The cell Python's list indexing picks for i on a list of n items: a
      negative i counts from the far end. */
  function PyIndex(i: int, n: nat): (k: int)
    requires -(n as int) <= i < n
    ensures 0 <= k < n && (k == i || k == i + n)
    ensures 0 <= i ==> k == i
  {
    if i < 0 then i + n else i
  }

  /** The mines within one step of (r, c), (r, c) included, inside the board. */
  ghost function MinesNear(g: Board, h: nat, w: nat, r: int, c: int): set<(int, int)>
    requires IsGrid(g, h, w)
  {
    set i, j | r - 1 <= i <= r + 1 && c - 1 <= j <= c + 1 && InBounds(h, w, i, j) && g[i][j] == Mine :: (i, j)
  }

  ghost function RowMineSet(g: Board, i: int, c0: int, c1: int): set<(int, int)>
    requires 0 <= i < |g| && 0 <= c0 <= c1 <= |g[i]|
  {
    set j | c0 <= j < c1 && g[i][j] == Mine :: (i, j)
  }

  ghost function WindowMineSet(g: Board, r0: int, r1: int, c0: int, c1: int): set<(int, int)>
    requires IsWindow(g, r0, r1, c0, c1)
  {
    set i, j | r0 <= i < r1 && c0 <= j < c1 && g[i][j] == Mine :: (i, j)
  }

  lemma {:induction false} RowMinesCard(g: Board, i: int, c0: int, c1: int)
    requires 0 <= i < |g| && 0 <= c0 <= c1 <= |g[i]|
    ensures |RowMineSet(g, i, c0, c1)| == RowMines(g[i], c0, c1)
    decreases c1 - c0
  {
    if c1 == c0 {
      assert RowMineSet(g, i, c0, c1) == {};
    } else {
      RowMinesCard(g, i, c0, c1 - 1);
      var last := if g[i][c1 - 1] == Mine then {(i, c1 - 1)} else {};
      assert RowMineSet(g, i, c0, c1) == RowMineSet(g, i, c0, c1 - 1) + last;
      assert (i, c1 - 1) !in RowMineSet(g, i, c0, c1 - 1);
    }
  }

  lemma {:induction false} WindowMinesCard(g: Board, r0: int, r1: int, c0: int, c1: int)
    requires IsWindow(g, r0, r1, c0, c1)
    ensures |WindowMineSet(g, r0, r1, c0, c1)| == WindowMines(g, r0, r1, c0, c1)
    decreases r1 - r0
  {
    if r1 == r0 {
      assert WindowMineSet(g, r0, r1, c0, c1) == {};
    } else {
      WindowMinesCard(g, r0, r1 - 1, c0, c1);
      RowMinesCard(g, r1 - 1, c0, c1);
      var above, last := WindowMineSet(g, r0, r1 - 1, c0, c1), RowMineSet(g, r1 - 1, c0, c1);
      assert WindowMineSet(g, r0, r1, c0, c1) == above + last;
      assert above * last == {} by {
        forall p | p in last ensures p !in above {
        }
      }
    }
  }

  /** The window count is the number of mines within one step of the cell,
      the cell itself included; cells outside the board never take part. */
  lemma AdjMinesIsMinesNear(g: Board, h: nat, w: nat, r: int, c: int)
    requires IsGrid(g, h, w) && InBounds(h, w, r, c)
    ensures AdjMines(g, h, w, r, c) == |MinesNear(g, h, w, r, c)|
  {
    var r0, r1, c0, c1 := Max(0, r - 1), Min(h, r + 2), Max(0, c - 1), Min(w, c + 2);
    WindowMinesCard(g, r0, r1, c0, c1);
    assert MinesNear(g, h, w, r, c) == WindowMineSet(g, r0, r1, c0, c1);
  }

  lemma {:induction false} RowMinesBound(row: seq<Cell>, c0: int, c1: int, c: int)
    requires 0 <= c0 <= c1 <= |row|
    ensures RowMines(row, c0, c1) <= c1 - c0 - (if c0 <= c < c1 && row[c] != Mine then 1 else 0)
    decreases c1 - c0
  {
    if c1 > c0 {
      RowMinesBound(row, c0, c1 - 1, c);
    }
  }

  lemma {:induction false} WindowMinesBound(g: Board, r0: int, r1: int, c0: int, c1: int, r: int, c: int)
    requires IsWindow(g, r0, r1, c0, c1) && c1 - c0 <= 3
    ensures WindowMines(g, r0, r1, c0, c1)
            <= 3 * (r1 - r0) - (if r0 <= r < r1 && c0 <= c < c1 && g[r][c] != Mine then 1 else 0)
    decreases r1 - r0
  {
    if r1 > r0 {
      WindowMinesBound(g, r0, r1 - 1, c0, c1, r, c);
      RowMinesBound(g[r1 - 1], c0, c1, c);
    }
  }

  /** A count is at most 9, and at most 8 for a cell that is not a mine. */
  lemma AdjMinesBound(g: Board, h: nat, w: nat, r: int, c: int)
    requires IsGrid(g, h, w) && InBounds(h, w, r, c)
    ensures AdjMines(g, h, w, r, c) <= 9
    ensures g[r][c] != Mine ==> AdjMines(g, h, w, r, c) <= 8
  {
    WindowMinesBound(g, Max(0, r - 1), Min(h, r + 2), Max(0, c - 1), Min(w, c + 2), r, c);
  }

  // ---------------------------------------------------------------------
  // Boards that agree on where the mines are

  /** g1 and g2 have the same shape and mines in the same places. */
  ghost predicate SameMines(g1: Board, g2: Board)
  {
    && |g1| == |g2|
    && (forall i :: 0 <= i < |g1| ==> |g1[i]| == |g2[i]|)
    && (forall i, j :: 0 <= i < |g1| && 0 <= j < |g1[i]| ==> (g1[i][j] == Mine <==> g2[i][j] == Mine))
  }

  lemma {:induction false} RowMinesSame(g1: Board, g2: Board, i: int, c0: int, c1: int)
    requires SameMines(g1, g2) && 0 <= i < |g1| && 0 <= c0 <= c1 <= |g1[i]|
    ensures RowMines(g1[i], c0, c1) == RowMines(g2[i], c0, c1)
    decreases c1 - c0
  {
    if c1 > c0 {
      RowMinesSame(g1, g2, i, c0, c1 - 1);
    }
  }

  lemma {:induction false} WindowMinesSame(g1: Board, g2: Board, r0: int, r1: int, c0: int, c1: int)
    requires SameMines(g1, g2) && IsWindow(g1, r0, r1, c0, c1)
    ensures IsWindow(g2, r0, r1, c0, c1)
    ensures WindowMines(g1, r0, r1, c0, c1) == WindowMines(g2, r0, r1, c0, c1)
    decreases r1 - r0
  {
    if r1 > r0 {
      WindowMinesSame(g1, g2, r0, r1 - 1, c0, c1);
      RowMinesSame(g1, g2, r1 - 1, c0, c1);
    }
  }

  /** A count depends only on where the mines are. */
  lemma AdjMinesSame(g1: Board, g2: Board, h: nat, w: nat, r: int, c: int)
    requires IsGrid(g1, h, w) && SameMines(g1, g2) && InBounds(h, w, r, c)
    ensures IsGrid(g2, h, w)
    ensures AdjMines(g1, h, w, r, c) == AdjMines(g2, h, w, r, c)
  {
    WindowMinesSame(g1, g2, Max(0, r - 1), Min(h, r + 2), Max(0, c - 1), Min(w, c + 2));
  }

  // ---------------------------------------------------------------------
  // The board shown after a loss

  /** g1 is g0 fully revealed: every mine exploded, every other cell
      opened with its count of mines in g0. */
  ghost predicate RevealedFrom(g0: Board, g1: Board, h: nat, w: nat)
    requires IsGrid(g0, h, w)
  {
    && IsGrid(g1, h, w)
    && forall i, j :: InBounds(h, w, i, j) ==>
         g1[i][j] == if g0[i][j] == Mine then Exploded else Opened(AdjMines(g0, h, w, i, j))
  }

  /** (i, j) comes strictly before (r, c) in row-major order. */
  predicate Before(i: int, j: int, r: int, c: int)
  {
    i < r || (i == r && j < c)
  }

  /** g with every mine strictly before (r, c) in row-major order already
      exploded: the board a single row-major reveal pass sees at (r, c). */
  function ExplodedBefore(g: Board, r: int, c: int): (g': Board)
    ensures |g'| == |g| && forall i :: 0 <= i < |g| ==> |g'[i]| == |g[i]|
    ensures forall i, j :: 0 <= i < |g| && 0 <= j < |g[i]| ==>
              g'[i][j] == if Before(i, j, r, c) && g[i][j] == Mine then Exploded else g[i][j]
  {
    seq(|g|, i requires 0 <= i < |g| =>
      seq(|g[i]|, j requires 0 <= j < |g[i]| =>
        if Before(i, j, r, c) && g[i][j] == Mine then Exploded else g[i][j]))
  }

  /** What the single reveal pass writes at (i, j) of g. */
  function RevealedCellAsWritten(g: Board, h: nat, w: nat, i: int, j: int): Cell
    requires IsGrid(g, h, w) && InBounds(h, w, i, j)
  {
    if g[i][j] == Mine then Exploded else Opened(AdjMines(ExplodedBefore(g, i, j), h, w, i, j))
  }

  /** g1 is what the single row-major reveal pass makes of g0. */
  ghost predicate RevealedAsWrittenFrom(g0: Board, g1: Board, h: nat, w: nat)
    requires IsGrid(g0, h, w)
  {
    && IsGrid(g1, h, w)
    && forall i, j :: InBounds(h, w, i, j) ==> g1[i][j] == RevealedCellAsWritten(g0, h, w, i, j)
  }

  /** On the one-row board "M", " " the single pass shows a 0 beside the
      exploded mine, where the cell has one mine next to it. */
  lemma RevealAsWrittenUndercounts(g1: Board)
    requires RevealedAsWrittenFrom([[Mine, Hidden]], g1, 1, 2)
    ensures g1 == [[Exploded, Opened(0)]]
    ensures AdjMines([[Mine, Hidden]], 1, 2, 0, 1) == 1
    ensures !RevealedFrom([[Mine, Hidden]], g1, 1, 2)
  {
    var g0: Board := [[Mine, Hidden]];
    var e := ExplodedBefore(g0, 0, 1);
    assert e[0][0] == Exploded && e[0][1] == Hidden;
    assert e[0] == [Exploded, Hidden];
    assert g1[0][0] == Exploded;
    assert g1[0][1] == Opened(0);
    assert g1[0] == [Exploded, Opened(0)];
  }
}
