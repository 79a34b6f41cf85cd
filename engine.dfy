/** The board engine: one game's field, its mine placement, the counting of
    nearby mines, the stack-driven flood fill and the full reveal on a loss. */
module Engine {
  import opened Cells
  import opened Grid

  /** A (row, column) pair, as the game pushes them on its stack. */
  type Pos = (int, int)

  /** The bookkeeping that holds while a game is in play: the mines are all
      still hidden, every opened cell shows its true count, and the opened
      counter plus the hidden and mine cells make up the whole board. */
  ghost predicate InPlay(g: Board, h: nat, w: nat, mines: nat, openCount: nat)
  {
    && IsGrid(g, h, w)
    && CountCells(g, Mine) == mines
    && openCount + CountCells(g, Hidden) + mines == w * h
    && forall i, j :: InBounds(h, w, i, j) ==>
         g[i][j] != Exploded && (g[i][j].Opened? ==> g[i][j].n == AdjMines(g, h, w, i, j))
  }

  /** The win test `opened + mines == width * height` holds exactly when no
      hidden empty cell is left, and the counter never exceeds the safe cells. */
  lemma WonIffAllSafeOpened(g: Board, h: nat, w: nat, mines: nat, openCount: nat)
    requires InPlay(g, h, w, mines, openCount)
    ensures openCount <= w * h - mines
    ensures openCount + mines == w * h <==> forall i, j :: InBounds(h, w, i, j) ==> g[i][j] != Hidden
  {
    CountCellsZero(g, Hidden);
  }

  /** With negative coordinates the re-stamp of line 119 breaks the game:
      on the one-row field " ", "M", "1" the move (-1, -1) picks the opened
      cell (0, 2) but counts around (-1, -1), which sees only (0, 0), so the
      cell next to the mine now shows 0. */
  lemma NegativeRestampMiscounts()
    ensures InPlay([[Hidden, Mine, Opened(1)]], 1, 3, 1, 1)
    ensures Write([[Hidden, Mine, Opened(1)]], PyIndex(-1, 1), PyIndex(-1, 3),
                  Opened(WindowCount([[Hidden, Mine, Opened(1)]], 1, 3, -1, -1)))
            == [[Hidden, Mine, Opened(0)]]
    ensures !InPlay([[Hidden, Mine, Opened(0)]], 1, 3, 1, 1)
  {
    SampleInPlay();
    SampleRestamp();
    SampleBroken();
  }

  /** The field " ", "M", "1" with one cell opened is in play. */
  lemma SampleInPlay()
    ensures InPlay([[Hidden, Mine, Opened(1)]], 1, 3, 1, 1)
  {
    var g := [[Hidden, Mine, Opened(1)]];
    assert AdjMines(g, 1, 3, 0, 2) == 1;
    assert CountCells(g, Mine) == 1 && CountCells(g, Hidden) == 1;
  }

  /** The move (-1, -1) on " ", "M", "1" writes a 0 into (0, 2). */
  lemma SampleRestamp()
    ensures Write([[Hidden, Mine, Opened(1)]], PyIndex(-1, 1), PyIndex(-1, 3),
                  Opened(WindowCount([[Hidden, Mine, Opened(1)]], 1, 3, -1, -1)))
            == [[Hidden, Mine, Opened(0)]]
  {
    var g := [[Hidden, Mine, Opened(1)]];
    assert WindowCount(g, 1, 3, -1, -1) == 0;
    assert Write(g, 0, 2, Opened(0))[0] == [Hidden, Mine, Opened(0)];
  }

  /** " ", "M", "0" is not in play: (0, 2) touches the mine. */
  lemma SampleBroken()
    ensures !InPlay([[Hidden, Mine, Opened(0)]], 1, 3, 1, 1)
  {
    assert AdjMines([[Hidden, Mine, Opened(0)]], 1, 3, 0, 2) == 1;
  }

  /** g1 comes from g0 by opening hidden cells only, each with its count. */
  ghost predicate OnlyOpens(g0: Board, g1: Board, h: nat, w: nat)
    requires IsGrid(g0, h, w)
  {
    && IsGrid(g1, h, w)
    && forall i, j :: InBounds(h, w, i, j) ==>
         g1[i][j] == g0[i][j] || (g0[i][j] == Hidden && g1[i][j] == Opened(AdjMines(g0, h, w, i, j)))
  }

  lemma OnlyOpensSameMines(g0: Board, g1: Board, h: nat, w: nat)
    requires IsGrid(g0, h, w) && OnlyOpens(g0, g1, h, w)
    ensures SameMines(g0, g1)
  {
  }

  /** Opening one more hidden cell with its count keeps g0 to g1 an opening. */
  lemma OnlyOpensWrite(g0: Board, g1: Board, h: nat, w: nat, r: int, c: int)
    requires IsGrid(g0, h, w) && OnlyOpens(g0, g1, h, w)
    requires InBounds(h, w, r, c) && g1[r][c] == Hidden
    ensures OnlyOpens(g0, Write(g1, r, c, Opened(AdjMines(g0, h, w, r, c))), h, w)
  {
  }

  /** Every hidden in-bounds cell within one step of (i, j) is on the stack. */
  ghost predicate NeighboursPending(g: Board, h: nat, w: nat, stack: seq<Pos>, i: int, j: int)
    requires IsGrid(g, h, w)
  {
    forall a, b :: i - 1 <= a <= i + 1 && j - 1 <= b <= j + 1 && InBounds(h, w, a, b) ==>
      g[a][b] != Hidden || (a, b) in stack
  }

  /** Every cell that went from hidden to 0 between g0 and g1 has its hidden
      neighbours on the stack. */
  ghost predicate ZerosClosed(g0: Board, g1: Board, h: nat, w: nat, stack: seq<Pos>)
    requires IsGrid(g0, h, w) && IsGrid(g1, h, w)
  {
    forall i, j :: InBounds(h, w, i, j) && g0[i][j] == Hidden && g1[i][j] == Opened(0) ==>
      NeighboursPending(g1, h, w, stack, i, j)
  }

  /** q lies within one row and one column of p (p itself included). */
  predicate Near(p: Pos, q: Pos)
  {
    p.0 - 1 <= q.0 <= p.0 + 1 && p.1 - 1 <= q.1 <= p.1 + 1
  }

  /** p is on the board and was opened between g0 and g1. */
  ghost predicate OpenedAt(g0: Board, g1: Board, h: nat, w: nat, p: Pos)
    requires IsGrid(g0, h, w) && IsGrid(g1, h, w)
  {
    InBounds(h, w, p.0, p.1) && g0[p.0][p.1] == Hidden && g1[p.0][p.1] != Hidden
  }

  /** p is on the board and went from hidden to 0 between g0 and g1. */
  ghost predicate ZeroAt(g0: Board, g1: Board, h: nat, w: nat, p: Pos)
    requires IsGrid(g0, h, w) && IsGrid(g1, h, w)
  {
    InBounds(h, w, p.0, p.1) && g0[p.0][p.1] == Hidden && g1[p.0][p.1] == Opened(0)
  }

  /** order lists every cell opened between g0 and g1, each once, in the
      order the fill opened them: the first is the start (r, c), and each
      later one lies next to an earlier one, at index parent[k], that went to
      0. Following parent from any opened cell therefore walks back to the
      start through cells set to 0. */
  ghost predicate Chain(g0: Board, g1: Board, h: nat, w: nat, r: int, c: int,
                        order: seq<Pos>, parent: seq<nat>)
    requires IsGrid(g0, h, w) && IsGrid(g1, h, w)
  {
    && |parent| == |order|
    && (|order| > 0 ==> order[0] == (r, c))
    && (forall k :: 0 <= k < |order| ==> OpenedAt(g0, g1, h, w, order[k]))
    && (forall k, l :: 0 <= k < l < |order| ==> order[k] != order[l])
    && (forall k {:trigger parent[k]} :: 0 < k < |order| ==>
          parent[k] < k && Near(order[parent[k]], order[k]) && ZeroAt(g0, g1, h, w, order[parent[k]]))
    && (forall i, j :: InBounds(h, w, i, j) && g0[i][j] == Hidden && g1[i][j] != Hidden ==> (i, j) in order)
  }

  /** Before anything is opened the stack holds at most the start; after
      that, every cell on it was pushed by a cell of order that went to 0
      (from[k] is that cell's index). */
  ghost predicate Stacked(g0: Board, g1: Board, h: nat, w: nat, r: int, c: int,
                          order: seq<Pos>, stack: seq<Pos>, from: seq<nat>)
    requires IsGrid(g0, h, w) && IsGrid(g1, h, w)
  {
    && |from| == |stack|
    && (|order| == 0 ==> stack == [] || stack == [(r, c)])
    && (|order| > 0 ==> forall k :: 0 <= k < |stack| ==>
          from[k] < |order| && Near(order[from[k]], stack[k]) && ZeroAt(g0, g1, h, w, order[from[k]]))
  }

  /** What the flood fill from (r, c) leaves: only hidden cells were opened,
      each with its count; (r, c) is no longer hidden; no hidden cell is left
      next to a cell the fill set to 0; and every opened cell is joined to the
      start by a chain of cells the fill set to 0. */
  ghost predicate Filled(g0: Board, g1: Board, h: nat, w: nat, r: int, c: int)
    requires IsGrid(g0, h, w)
  {
    && OnlyOpens(g0, g1, h, w)
    && (InBounds(h, w, r, c) ==> g1[r][c] != Hidden)
    && ZerosClosed(g0, g1, h, w, [])
    && exists order, parent :: Chain(g0, g1, h, w, r, c, order, parent)
  }

  /** On the one-row field " ", " ", "M", " ", " " every cell of a chain
      from (0, 0) lies in the first two columns: the only cell there that can
      go to 0 is (0, 0), since (0, 1) counts the mine. */
  lemma {:induction false} ChainStaysLeft(g1: Board, order: seq<Pos>, parent: seq<nat>, k: nat)
    requires IsGrid(g1, 1, 5) && OnlyOpens([[Hidden, Hidden, Mine, Hidden, Hidden]], g1, 1, 5)
    requires Chain([[Hidden, Hidden, Mine, Hidden, Hidden]], g1, 1, 5, 0, 0, order, parent)
    requires k < |order|
    ensures order[k].1 <= 1
    decreases k
  {
    var g0 := [[Hidden, Hidden, Mine, Hidden, Hidden]];
    if k > 0 {
      var m := parent[k];
      ChainStaysLeft(g1, order, parent, m);
      assert AdjMines(g0, 1, 5, 0, 1) == 1;
      assert ZeroAt(g0, g1, 1, 5, order[m]);
      assert order[m] == (0, 0);
    }
  }

  /** On that field the fill from (0, 0) opens (0, 0) with 0 and (0, 1) with
      1, and nothing beyond the mine: the zero at (0, 4) is not reached. */
  lemma FillStopsAtCounts(g1: Board)
    requires Filled([[Hidden, Hidden, Mine, Hidden, Hidden]], g1, 1, 5, 0, 0)
    ensures g1 == [[Opened(0), Opened(1), Mine, Hidden, Hidden]]
  {
    var g0 := [[Hidden, Hidden, Mine, Hidden, Hidden]];
    var order, parent :| Chain(g0, g1, 1, 5, 0, 0, order, parent);
    assert AdjMines(g0, 1, 5, 0, 0) == 0;
    assert AdjMines(g0, 1, 5, 0, 1) == 1;
    assert g1[0][0] == Opened(0);
    assert NeighboursPending(g1, 1, 5, [], 0, 0);
    assert g1[0][1] == Opened(1);
    forall j | 3 <= j < 5
      ensures g1[0][j] == Hidden
    {
      if g1[0][j] != Hidden {
        assert (0, j) in order;
        var k :| 0 <= k < |order| && order[k] == (0, j);
        ChainStaysLeft(g1, order, parent, k);
      }
    }
    assert g1[0] == [Opened(0), Opened(1), Mine, Hidden, Hidden];
  }

  /** Opening the popped cell p keeps the chain: p was the start, or was
      pushed by a cell that went to 0, so it joins order with that cell as
      its parent, and the rest of the stack keeps its pushers. */
  lemma ChainOpen(g0: Board, g1: Board, g2: Board, h: nat, w: nat, r: int, c: int,
                  order: seq<Pos>, parent: seq<nat>, stack: seq<Pos>, from: seq<nat>, p: Pos, f: nat)
    requires IsGrid(g0, h, w) && IsGrid(g1, h, w) && IsGrid(g2, h, w)
    requires OnlyOpens(g0, g1, h, w) && Chain(g0, g1, h, w, r, c, order, parent)
    requires Stacked(g0, g1, h, w, r, c, order, stack + [p], from + [f])
    requires InBounds(h, w, p.0, p.1) && g1[p.0][p.1] == Hidden && g2[p.0][p.1] != Hidden
    requires forall i, j :: InBounds(h, w, i, j) && (i, j) != p ==> g2[i][j] == g1[i][j]
    ensures Chain(g0, g2, h, w, r, c, order + [p], parent + [f])
    ensures Stacked(g0, g2, h, w, r, c, order + [p], stack, from)
  {
    assert (stack + [p])[|stack|] == p && (from + [f])[|stack|] == f;
    forall q | ZeroAt(g0, g1, h, w, q)
      ensures ZeroAt(g0, g2, h, w, q)
    {
      assert q != p;
    }
    ChainExtend(g0, g1, g2, h, w, r, c, order, parent, p, f);
    ChainSkip(g0, g1, h, w, r, c, order, stack, from, p, f);
    if |order| == 0 {
      assert |stack + [p]| == 1;
    }
    StackedExtend(g0, g1, g2, h, w, r, c, order, stack, from, p);
  }

  /** The chain part of ChainOpen: p joins order with parent f. */
  lemma ChainExtend(g0: Board, g1: Board, g2: Board, h: nat, w: nat, r: int, c: int,
                    order: seq<Pos>, parent: seq<nat>, p: Pos, f: nat)
    requires IsGrid(g0, h, w) && IsGrid(g1, h, w) && IsGrid(g2, h, w)
    requires OnlyOpens(g0, g1, h, w) && Chain(g0, g1, h, w, r, c, order, parent)
    requires InBounds(h, w, p.0, p.1) && g1[p.0][p.1] == Hidden && g2[p.0][p.1] != Hidden
    requires forall i, j :: InBounds(h, w, i, j) && (i, j) != p ==> g2[i][j] == g1[i][j]
    requires |order| == 0 ==> p == (r, c)
    requires |order| > 0 ==> f < |order| && Near(order[f], p) && ZeroAt(g0, g1, h, w, order[f])
    requires forall q :: ZeroAt(g0, g1, h, w, q) ==> ZeroAt(g0, g2, h, w, q)
    ensures Chain(g0, g2, h, w, r, c, order + [p], parent + [f])
  {
    var order2, parent2 := order + [p], parent + [f];
    forall k | 0 <= k < |order2|
      ensures OpenedAt(g0, g2, h, w, order2[k])
    {
      if k < |order| {
        assert OpenedAt(g0, g1, h, w, order[k]) && order[k] != p;
      }
    }
    forall k, l | 0 <= k < l < |order2|
      ensures order2[k] != order2[l]
    {
      if l == |order| {
        assert OpenedAt(g0, g1, h, w, order[k]);
      }
    }
    forall k | 0 < k < |order2|
      ensures parent2[k] < k && Near(order2[parent2[k]], order2[k]) && ZeroAt(g0, g2, h, w, order2[parent2[k]])
    {
      if k < |order| {
        assert ZeroAt(g0, g1, h, w, order[parent[k]]);
      }
    }
  }

  /** The stack part of ChainOpen: the rest of the stack keeps its pushers
      once p is appended to order. */
  lemma StackedExtend(g0: Board, g1: Board, g2: Board, h: nat, w: nat, r: int, c: int,
                      order: seq<Pos>, stack: seq<Pos>, from: seq<nat>, p: Pos)
    requires IsGrid(g0, h, w) && IsGrid(g1, h, w) && IsGrid(g2, h, w)
    requires Stacked(g0, g1, h, w, r, c, order, stack, from) && (|order| == 0 ==> stack == [])
    requires forall q :: ZeroAt(g0, g1, h, w, q) ==> ZeroAt(g0, g2, h, w, q)
    ensures Stacked(g0, g2, h, w, r, c, order + [p], stack, from)
  {
    var order2 := order + [p];
    forall k | 0 <= k < |stack|
      ensures from[k] < |order2| && Near(order2[from[k]], stack[k]) && ZeroAt(g0, g2, h, w, order2[from[k]])
    {
      assert |order| > 0;
      assert ZeroAt(g0, g1, h, w, order[from[k]]);
    }
  }

  /** Popping a cell that is not opened keeps the rest of the stack's pushers. */
  lemma ChainSkip(g0: Board, g1: Board, h: nat, w: nat, r: int, c: int,
                  order: seq<Pos>, stack: seq<Pos>, from: seq<nat>, p: Pos, f: nat)
    requires IsGrid(g0, h, w) && IsGrid(g1, h, w)
    requires Stacked(g0, g1, h, w, r, c, order, stack + [p], from + [f])
    ensures Stacked(g0, g1, h, w, r, c, order, stack, from)
  {
    if |order| == 0 {
      assert |stack + [p]| == 1;
    } else {
      forall k | 0 <= k < |stack|
        ensures from[k] < |order| && Near(order[from[k]], stack[k]) && ZeroAt(g0, g1, h, w, order[from[k]])
      {
        assert (stack + [p])[k] == stack[k] && (from + [f])[k] == from[k];
      }
    }
  }

  /** Pushing cells next to order[z], the last cell of order, which went to
      0, records that cell as their pusher. */
  lemma ChainPush(g0: Board, g1: Board, h: nat, w: nat, r: int, c: int,
                  order: seq<Pos>, stack: seq<Pos>, from: seq<nat>, block: seq<Pos>, z: nat)
    requires IsGrid(g0, h, w) && IsGrid(g1, h, w)
    requires Stacked(g0, g1, h, w, r, c, order, stack, from) && z + 1 == |order|
    requires ZeroAt(g0, g1, h, w, order[z])
    requires forall k :: 0 <= k < |block| ==> Near(order[z], block[k])
    ensures Stacked(g0, g1, h, w, r, c, order, stack + block, from + Repeat(z, |block|))
  {
    var s, fr := stack + block, from + Repeat(z, |block|);
    forall k | 0 <= k < |s|
      ensures fr[k] < |order| && Near(order[fr[k]], s[k]) && ZeroAt(g0, g1, h, w, order[fr[k]])
    {
      if k < |stack| {
        assert s[k] == stack[k] && fr[k] == from[k];
      } else {
        assert s[k] == block[k - |stack|] && fr[k] == z;
      }
    }
  }

  /** n copies of v: the pusher recorded for each cell of a pushed block. */
  function Repeat(v: nat, n: nat): (s: seq<nat>)
    ensures |s| == n && forall k :: 0 <= k < n ==> s[k] == v
  {
    if n == 0 then [] else Repeat(v, n - 1) + [v]
  }

  /** One pop of the fill keeps the hidden neighbours of every opened 0 on
      the stack: the popped cell p is either off the board or no longer hidden. */
  lemma ZerosClosedStep(g0: Board, g1: Board, g2: Board, h: nat, w: nat,
                        s1: seq<Pos>, s2: seq<Pos>, p: Pos)
    requires IsGrid(g0, h, w) && IsGrid(g1, h, w) && IsGrid(g2, h, w)
    requires ZerosClosed(g0, g1, h, w, s1)
    requires |s1| > 0 && p == s1[|s1| - 1]
    requires forall q :: q in s1[..|s1| - 1] ==> q in s2
    requires InBounds(h, w, p.0, p.1) ==> g2[p.0][p.1] != Hidden
    requires forall i, j :: InBounds(h, w, i, j) && (i, j) != p ==> g2[i][j] == g1[i][j]
    requires InBounds(h, w, p.0, p.1) && g1[p.0][p.1] != Hidden ==> g2[p.0][p.1] == g1[p.0][p.1]
    requires InBounds(h, w, p.0, p.1) && g1[p.0][p.1] == Hidden && g2[p.0][p.1] == Opened(0) ==>
               NeighboursPending(g2, h, w, s2, p.0, p.1)
    ensures ZerosClosed(g0, g2, h, w, s2)
  {
    assert s1 == s1[..|s1| - 1] + [p];
    forall i, j | InBounds(h, w, i, j) && g0[i][j] == Hidden && g2[i][j] == Opened(0)
      ensures NeighboursPending(g2, h, w, s2, i, j)
    {
      if (i, j) != p || g1[i][j] != Hidden {
        assert g1[i][j] == Opened(0);
        assert NeighboursPending(g1, h, w, s1, i, j);
        forall a, b | i - 1 <= a <= i + 1 && j - 1 <= b <= j + 1 && InBounds(h, w, a, b)
          ensures g2[a][b] != Hidden || (a, b) in s2
        {
          if (a, b) != p && g1[a][b] == Hidden {
            assert (a, b) in s1[..|s1| - 1];
          }
        }
      }
    }
  }

  /** Opening cells keeps the in-play bookkeeping, given the counter grew by
      the number of cells opened. */
  lemma InPlayAfterOpens(g0: Board, g1: Board, h: nat, w: nat, mines: nat, opened0: nat, opened1: nat)
    requires InPlay(g0, h, w, mines, opened0) && OnlyOpens(g0, g1, h, w)
    requires CountCells(g1, Mine) == CountCells(g0, Mine)
    requires opened1 + CountCells(g1, Hidden) == opened0 + CountCells(g0, Hidden)
    ensures InPlay(g1, h, w, mines, opened1)
  {
    OnlyOpensSameMines(g0, g1, h, w);
    forall i, j | InBounds(h, w, i, j)
      ensures AdjMines(g0, h, w, i, j) == AdjMines(g1, h, w, i, j)
    {
      AdjMinesSame(g0, g1, h, w, i, j);
    }
  }

  /** The random cells handed to mine placement lie on the board and include
      at least m distinct ones, so that placement finishes within them. */
  predicate DrawsSuffice(draws: seq<Pos>, h: int, w: int, m: int)
  {
    && (forall k :: 0 <= k < |draws| ==> 0 <= draws[k].0 < h && 0 <= draws[k].1 < w)
    && m <= |set p | p in draws|
  }

  /** g has the shape h by w, and its cells are hidden except for mines at
      exactly the cells of placed. */
  ghost predicate MinesAt(g: Board, h: nat, w: nat, placed: set<Pos>)
  {
    IsGrid(g, h, w) &&
    forall i, j :: InBounds(h, w, i, j) ==>
      (g[i][j] == Hidden || g[i][j] == Mine) && (g[i][j] == Mine <==> (i, j) in placed)
  }

  /** Placing a mine on a hidden cell adds it to placed and moves one cell
      from the hidden count to the mine count. */
  lemma MinesAtWrite(g: Board, h: nat, w: nat, placed: set<Pos>, r: int, c: int)
    requires MinesAt(g, h, w, placed) && InBounds(h, w, r, c) && g[r][c] != Mine
    ensures MinesAt(Write(g, r, c, Mine), h, w, placed + {(r, c)})
    ensures CountCells(Write(g, r, c, Mine), Mine) == CountCells(g, Mine) + 1
    ensures CountCells(Write(g, r, c, Mine), Hidden) == CountCells(g, Hidden) - 1
  {
    CountCellsWrite(g, r, c, Mine, Mine);
    CountCellsWrite(g, r, c, Mine, Hidden);
  }

  /** The cells drawn in the first j = k + 1 draws are those of the first k
      and draw k. */
  lemma DrawnStep(draws: seq<Pos>, k: nat, j: nat)
    requires j == k + 1 <= |draws|
    ensures (set p | p in draws[..j]) == (set p | p in draws[..k]) + {draws[k]}
  {
    assert draws[..j] == draws[..k] + [draws[k]];
  }

  /** What one move does to a game that is in play, for a cell on the board:
      a mine ends the game with every cell revealed; a hidden cell is flood
      filled; an opened cell stays as it is. After a move that is not a mine,
      the game is complete exactly when the win test holds. */
  ghost predicate TurnEffect(g0: Board, opened0: nat, g1: Board, opened1: nat, completed1: bool,
                             h: nat, w: nat, mines: nat, row: int, col: int)
    requires IsGrid(g0, h, w) && InBounds(h, w, row, col)
  {
    if g0[row][col] == Mine then
      completed1 && RevealedFrom(g0, g1, h, w) && opened1 == opened0
    else
      && (if g0[row][col] == Hidden then
            Filled(g0, g1, h, w, row, col) &&
            opened1 == opened0 + CountCells(g0, Hidden) - CountCells(g1, Hidden)
          else
            g1 == g0 && opened1 == opened0)
      && (completed1 <==> opened1 + mines == w * h)
  }

  /** The cells (i, j0) .. (i, j1 - 1), left to right. */
  function RowCells(i: int, j0: int, j1: int): seq<Pos>
    decreases j1 - j0
  {
    if j1 <= j0 then [] else RowCells(i, j0, j1 - 1) + [(i, j1 - 1)]
  }

  /** Columns j0 .. j1 - 1 of the rows i0 .. i1 - 1, row by row. */
  function RowsCells(i0: int, i1: int, j0: int, j1: int): seq<Pos>
    decreases i1 - i0
  {
    if i1 <= i0 then [] else RowsCells(i0, i1 - 1, j0, j1) + RowCells(i1 - 1, j0, j1)
  }

  /** The 3x3 block around (r, c), cut at the edges of an h by w board, in
      the order the fill pushes it. */
  function Block(r: int, c: int, h: nat, w: nat): seq<Pos>
  {
    RowsCells(Max(0, r - 1), Min(h, r + 2), Max(0, c - 1), Min(w, c + 2))
  }

  lemma {:induction false} RowCellsMembers(i: int, j0: int, j1: int)
    ensures forall q :: q in RowCells(i, j0, j1) <==> q.0 == i && j0 <= q.1 < j1
    decreases j1 - j0
  {
    if j1 > j0 {
      RowCellsMembers(i, j0, j1 - 1);
    }
  }

  lemma {:induction false} RowsCellsMembers(i0: int, i1: int, j0: int, j1: int)
    ensures forall q :: q in RowsCells(i0, i1, j0, j1) <==> i0 <= q.0 < i1 && j0 <= q.1 < j1
    decreases i1 - i0
  {
    if i1 > i0 {
      RowsCellsMembers(i0, i1 - 1, j0, j1);
      RowCellsMembers(i1 - 1, j0, j1);
    }
  }

  /** The block holds exactly the cells of the board within one step of (r, c). */
  lemma BlockCells(r: int, c: int, h: nat, w: nat)
    ensures forall q :: q in Block(r, c, h, w) <==> Near((r, c), q) && InBounds(h, w, q.0, q.1)
  {
    RowsCellsMembers(Max(0, r - 1), Min(h, r + 2), Max(0, c - 1), Min(w, c + 2));
  }

  /** Every entry of the block around (r, c) is on the board and near (r, c). */
  lemma BlockNear(r: int, c: int, h: nat, w: nat)
    ensures forall k :: 0 <= k < |Block(r, c, h, w)| ==>
              Near((r, c), Block(r, c, h, w)[k]) && InBounds(h, w, Block(r, c, h, w)[k].0, Block(r, c, h, w)[k].1)
  {
    var block := Block(r, c, h, w);
    forall k | 0 <= k < |block|
      ensures Near((r, c), block[k]) && InBounds(h, w, block[k].0, block[k].1)
    {
      BlockCells(r, c, h, w);
      assert block[k] in block;
    }
  }

  /** After the block around (r, c) is pushed, every cell of the board near
      (r, c) is on the stack, and so is everything that was on it before. */
  lemma BlockPending(g: Board, h: nat, w: nat, stack: seq<Pos>, r: int, c: int)
    requires IsGrid(g, h, w)
    ensures forall q :: q in stack ==> q in stack + Block(r, c, h, w)
    ensures NeighboursPending(g, h, w, stack + Block(r, c, h, w), r, c)
  {
    BlockCells(r, c, h, w);
    forall a, b | r - 1 <= a <= r + 1 && c - 1 <= b <= c + 1 && InBounds(h, w, a, b)
      ensures (a, b) in stack + Block(r, c, h, w)
    {
      assert Near((r, c), (a, b));
    }
  }

  /** The invariant of the flood fill started from (row, col) on the field
      f0 with opened0 cells opened, at field g with openCount cells opened: g
      has the shape of f0 and differs from it only by opened hidden cells,
      each with its count; the counter has grown by the number opened and the
      mines are as they were; the start is opened or still stacked; every
      cell set to 0 has its hidden neighbours on the stack; order chains the
      opened cells back to the start, and from records who pushed each
      stacked cell. */
  ghost predicate FillState(f0: Board, opened0: nat, g: Board, openCount: nat, h: nat, w: nat,
                            row: int, col: int, stack: seq<Pos>,
                            order: seq<Pos>, parent: seq<nat>, from: seq<nat>)
  {
    && IsGrid(f0, h, w) && IsGrid(g, h, w)
    && OnlyOpens(f0, g, h, w)
    && openCount + CountCells(g, Hidden) == opened0 + CountCells(f0, Hidden)
    && CountCells(g, Mine) == CountCells(f0, Mine)
    && (InBounds(h, w, row, col) ==> g[row][col] != Hidden || (row, col) in stack)
    && ZerosClosed(f0, g, h, w, stack)
    && Chain(f0, g, h, w, row, col, order, parent)
    && Stacked(f0, g, h, w, row, col, order, stack, from)
  }

  /** Opening the hidden cell (r, c) with its count keeps the bookkeeping
      part of the fill's invariant: only hidden cells opened, the counter one
      up for one hidden cell fewer, the mines as they were, and the start
      opened or still on a stack s1 that keeps what s held. */
  lemma OpenStepCounts(f0: Board, opened0: nat, g: Board, openCount: nat, h: nat, w: nat, row: int, col: int,
                       s: seq<Pos>, s1: seq<Pos>, r: int, c: int)
    requires IsGrid(f0, h, w) && IsGrid(g, h, w) && OnlyOpens(f0, g, h, w)
    requires openCount + CountCells(g, Hidden) == opened0 + CountCells(f0, Hidden)
    requires CountCells(g, Mine) == CountCells(f0, Mine)
    requires InBounds(h, w, row, col) ==> g[row][col] != Hidden || (row, col) in s + [(r, c)]
    requires InBounds(h, w, r, c) && g[r][c] == Hidden
    requires forall q :: q in s ==> q in s1
    ensures var g1 := Write(g, r, c, Opened(AdjMines(g, h, w, r, c)));
            && IsGrid(g1, h, w) && OnlyOpens(f0, g1, h, w)
            && openCount + 1 + CountCells(g1, Hidden) == opened0 + CountCells(f0, Hidden)
            && CountCells(g1, Mine) == CountCells(f0, Mine)
            && (InBounds(h, w, row, col) ==> g1[row][col] != Hidden || (row, col) in s1)
            && CountCells(g1, Hidden) < CountCells(g, Hidden)
  {
    var n := AdjMines(g, h, w, r, c);
    OnlyOpensSameMines(f0, g, h, w);
    AdjMinesSame(f0, g, h, w, r, c);
    CountCellsWrite(g, r, c, Opened(n), Hidden);
    CountCellsWrite(g, r, c, Opened(n), Mine);
    OnlyOpensWrite(f0, g, h, w, r, c);
  }

  /** Opening the popped hidden cell (r, c) with its count n, and pushing
      the block around it when n is 0, keeps the fill's invariant (with (r, c)
      added to the chain) and leaves one hidden cell fewer. */
  lemma OpenStep(f0: Board, opened0: nat, g: Board, openCount: nat, h: nat, w: nat, row: int, col: int,
                 s: seq<Pos>, r: int, c: int, order: seq<Pos>, parent: seq<nat>, from: seq<nat>, f: nat)
    requires FillState(f0, opened0, g, openCount, h, w, row, col, s + [(r, c)], order, parent, from + [f])
    requires InBounds(h, w, r, c) && g[r][c] == Hidden
    ensures var n := AdjMines(g, h, w, r, c);
            var g1 := Write(g, r, c, Opened(n));
            var s1 := if n == 0 then s + Block(r, c, h, w) else s;
            var from1 := if n == 0 then from + Repeat(|order|, |Block(r, c, h, w)|) else from;
            && FillState(f0, opened0, g1, openCount + 1, h, w, row, col, s1, order + [(r, c)], parent + [f], from1)
            && CountCells(g1, Hidden) < CountCells(g, Hidden)
  {
    if AdjMines(g, h, w, r, c) == 0 {
      OpenStepZero(f0, opened0, g, openCount, h, w, row, col, s, r, c, order, parent, from, f);
    } else {
      OpenStepDigit(f0, opened0, g, openCount, h, w, row, col, s, r, c, order, parent, from, f);
    }
  }

  /** OpenStep for a cell whose count is 0: its block goes on the stack,
      each entry pushed by the cell's place in the chain. */
  lemma OpenStepZero(f0: Board, opened0: nat, g: Board, openCount: nat, h: nat, w: nat, row: int, col: int,
                     s: seq<Pos>, r: int, c: int, order: seq<Pos>, parent: seq<nat>, from: seq<nat>, f: nat)
    requires FillState(f0, opened0, g, openCount, h, w, row, col, s + [(r, c)], order, parent, from + [f])
    requires InBounds(h, w, r, c) && g[r][c] == Hidden && AdjMines(g, h, w, r, c) == 0
    ensures var g1 := Write(g, r, c, Opened(0));
            && FillState(f0, opened0, g1, openCount + 1, h, w, row, col, s + Block(r, c, h, w),
                         order + [(r, c)], parent + [f], from + Repeat(|order|, |Block(r, c, h, w)|))
            && CountCells(g1, Hidden) < CountCells(g, Hidden)
  {
    var g1 := Write(g, r, c, Opened(0));
    OpenZeroChain(f0, g, g1, h, w, row, col, s, r, c, order, parent, from, f);
    ZerosClosedPush(f0, g, g1, h, w, s, r, c);
    BlockPending(g1, h, w, s, r, c);
    OpenStepCounts(f0, opened0, g, openCount, h, w, row, col, s, s + Block(r, c, h, w), r, c);
  }

  /** The chain part of OpenStepZero: (r, c) joins the chain, and the cells
      of its block record it as their pusher. */
  lemma OpenZeroChain(f0: Board, g: Board, g1: Board, h: nat, w: nat, row: int, col: int,
                      s: seq<Pos>, r: int, c: int, order: seq<Pos>, parent: seq<nat>, from: seq<nat>, f: nat)
    requires IsGrid(f0, h, w) && IsGrid(g, h, w) && IsGrid(g1, h, w) && OnlyOpens(f0, g, h, w)
    requires Chain(f0, g, h, w, row, col, order, parent)
    requires Stacked(f0, g, h, w, row, col, order, s + [(r, c)], from + [f])
    requires ZerosClosed(f0, g, h, w, s + [(r, c)])
    requires InBounds(h, w, r, c) && g[r][c] == Hidden && g1[r][c] == Opened(0)
    requires forall i, j :: InBounds(h, w, i, j) && (i, j) != (r, c) ==> g1[i][j] == g[i][j]
    ensures var order1 := order + [(r, c)];
            && Chain(f0, g1, h, w, row, col, order1, parent + [f])
            && Stacked(f0, g1, h, w, row, col, order1, s + Block(r, c, h, w), from + Repeat(|order|, |Block(r, c, h, w)|))
  {
    var block, order1 := Block(r, c, h, w), order + [(r, c)];
    assert Chain(f0, g1, h, w, row, col, order1, parent + [f]) && Stacked(f0, g1, h, w, row, col, order1, s, from) by {
      ChainOpen(f0, g, g1, h, w, row, col, order, parent, s, from, (r, c), f);
    }
    BlockNear(r, c, h, w);
    ChainPush(f0, g1, h, w, row, col, order1, s, from, block, |order|);
  }

  /** Setting the popped cell (r, c) to 0 and pushing its block keeps every
      cell set to 0 with its hidden neighbours on the stack. */
  lemma ZerosClosedPush(f0: Board, g: Board, g1: Board, h: nat, w: nat, s: seq<Pos>, r: int, c: int)
    requires IsGrid(f0, h, w) && IsGrid(g, h, w) && IsGrid(g1, h, w)
    requires ZerosClosed(f0, g, h, w, s + [(r, c)])
    requires InBounds(h, w, r, c) && g[r][c] == Hidden && g1[r][c] == Opened(0)
    requires forall i, j :: InBounds(h, w, i, j) && (i, j) != (r, c) ==> g1[i][j] == g[i][j]
    ensures ZerosClosed(f0, g1, h, w, s + Block(r, c, h, w))
  {
    BlockPending(g1, h, w, s, r, c);
    ZerosClosedStep(f0, g, g1, h, w, s + [(r, c)], s + Block(r, c, h, w), (r, c));
  }

  /** OpenStep for a cell with a nonzero count: nothing is pushed. */
  lemma OpenStepDigit(f0: Board, opened0: nat, g: Board, openCount: nat, h: nat, w: nat, row: int, col: int,
                      s: seq<Pos>, r: int, c: int, order: seq<Pos>, parent: seq<nat>, from: seq<nat>, f: nat)
    requires FillState(f0, opened0, g, openCount, h, w, row, col, s + [(r, c)], order, parent, from + [f])
    requires InBounds(h, w, r, c) && g[r][c] == Hidden && AdjMines(g, h, w, r, c) != 0
    ensures var g1 := Write(g, r, c, Opened(AdjMines(g, h, w, r, c)));
            && FillState(f0, opened0, g1, openCount + 1, h, w, row, col, s, order + [(r, c)], parent + [f], from)
            && CountCells(g1, Hidden) < CountCells(g, Hidden)
  {
    var g1 := Write(g, r, c, Opened(AdjMines(g, h, w, r, c)));
    OpenStepCounts(f0, opened0, g, openCount, h, w, row, col, s, s, r, c);
    ChainOpen(f0, g, g1, h, w, row, col, order, parent, s, from, (r, c), f);
    ZerosClosedStep(f0, g, g1, h, w, s + [(r, c)], s, (r, c));
  }

  /** Pushes the 3x3 block around (r, c), cut at the edges of an h by w
      board, row by row onto the stack. */
  method PushBlock(stack: seq<Pos>, r: int, c: int, h: nat, w: nat) returns (s: seq<Pos>)
    requires InBounds(h, w, r, c)
    ensures s == stack + Block(r, c, h, w)
    ensures forall k :: |stack| <= k < |s| ==> Near((r, c), s[k]) && InBounds(h, w, s[k].0, s[k].1)
    ensures forall q :: Near((r, c), q) && InBounds(h, w, q.0, q.1) ==> q in s[|stack|..]
  {
    var r0, c0, c1 := Max(0, r - 1), Max(0, c - 1), Min(w, c + 2);
    s := stack;
    for i := r0 to Min(h, r + 2)
      invariant s == stack + RowsCells(r0, i, c0, c1)
    {
      for j := c0 to c1
        invariant s == stack + RowsCells(r0, i, c0, c1) + RowCells(i, c0, j)
      {
        s := s + [(i, j)];
      }
    }
    BlockCells(r, c, h, w);
    assert s[|stack|..] == Block(r, c, h, w);
    forall k | |stack| <= k < |s|
      ensures Near((r, c), s[k]) && InBounds(h, w, s[k].0, s[k].1)
    {
      assert s[k] in s[|stack|..];
    }
  }

  /** One game: its field of cells, its counter of opened cells and whether
      it is over. */
  class Game {
    const id: string
    const width: nat
    const height: nat
    const minesCount: nat
    var field: Board
    var completed: bool
    var openedCells: nat

    /** The field has the game's shape, and while the game is not over its
        bookkeeping holds. */
    ghost predicate Valid()
      reads this
    {
      IsGrid(field, height, width) &&
      (!completed ==> InPlay(field, height, width, minesCount, openedCells))
    }

    /** A new game of h rows of w cells with m mines placed at cells drawn
        from draws, everything else hidden. */
    constructor (gid: string, w: nat, h: nat, m: nat, draws: seq<Pos>)
      requires DrawsSuffice(draws, h, w, m)
      ensures id == gid && width == w && height == h && minesCount == m
      ensures !completed && openedCells == 0 && Valid()
      ensures CountCells(field, Mine) == m
      ensures forall i, j :: InBounds(h, w, i, j) ==> field[i][j] == Hidden || field[i][j] == Mine
      ensures forall i, j :: InBounds(h, w, i, j) && field[i][j] == Mine ==> (i, j) in draws
    {
      id, width, height, minesCount := gid, w, h, m;
      field := HiddenBoard(h, w);
      completed := false;
      openedCells := 0;
      new;
      CountHiddenBoard(h, w, Hidden);
      CountHiddenBoard(h, w, Mine);
      GenerateMines(draws);
    }

    /** Rejection sampling: take the next drawn cell, and make it a mine
        unless it already is one, until minesCount mines are placed. */
    method GenerateMines(draws: seq<Pos>)
      requires IsGrid(field, height, width)
      requires forall i, j :: InBounds(height, width, i, j) ==> field[i][j] == Hidden
      requires CountCells(field, Mine) == 0 && CountCells(field, Hidden) == width * height
      requires DrawsSuffice(draws, height, width, minesCount)
      modifies this`field
      ensures IsGrid(field, height, width)
      ensures CountCells(field, Mine) == minesCount
      ensures CountCells(field, Hidden) == width * height - minesCount
      ensures forall i, j :: InBounds(height, width, i, j) ==> field[i][j] == Hidden || field[i][j] == Mine
      ensures forall i, j :: InBounds(height, width, i, j) && field[i][j] == Mine ==> (i, j) in draws
    {
      var minesGenerated := 0;
      var k := 0;
      ghost var placed: set<Pos> := {};
      assert draws[..|draws|] == draws;
      while minesGenerated < minesCount
        invariant 0 <= k <= |draws|
        invariant placed == set p | p in draws[..k]
        invariant minesGenerated == |placed| <= minesCount
        invariant MinesAt(field, height, width, placed)
        invariant CountCells(field, Mine) == minesGenerated
        invariant CountCells(field, Hidden) == width * height - minesGenerated
        decreases |draws| - k
      {
        assert k == |draws| ==> placed == set p | p in draws;
        assert k < |draws|;
        var (row, col) := draws[k];
        DrawnStep(draws, k, k + 1);
        if field[row][col] != Mine {
          MinesAtWrite(field, height, width, placed, row, col);
          field := Write(field, row, col, Mine);
          minesGenerated := minesGenerated + 1;
          placed := placed + {(row, col)};
        }
        k := k + 1;
      }
      assert forall p :: p in placed ==> p in draws;
    }

    /** Counts the mines in the 3x3 block around (row, col), the cell itself
        included, cut at the edges of the field. The coordinates need not be
        on the field: Python's range is empty when its end does not exceed
        its start, which the guard states. */
    method CountAdjacentMines(row: int, col: int) returns (count: nat)
      requires IsGrid(field, height, width)
      ensures count == WindowCount(field, height, width, row, col)
      ensures InBounds(height, width, row, col) ==> count == AdjMines(field, height, width, row, col)
    {
      count := 0;
      var r0, r1, c0, c1 := Max(0, row - 1), Min(height, row + 2), Max(0, col - 1), Min(width, col + 2);
      if r0 < r1 && c0 < c1 {
        for i := r0 to r1
          invariant count == WindowMines(field, r0, i, c0, c1)
        {
          for j := c0 to c1
            invariant count == WindowMines(field, r0, i, c0, c1) + RowMines(field[i], c0, j)
          {
            if field[i][j] == Mine {
              count := count + 1;
            }
          }
        }
      }
    }

    /** Line 119 as the service runs it for every index Python's lists
        accept: the cell field[row][col], a negative index counting from the
        far end, is overwritten with the loops' count for (row, col) as given,
        not for the cell written. */
    method RestampAsWritten(row: int, col: int)
      requires IsGrid(field, height, width)
      requires -(height as int) <= row < height && -(width as int) <= col < width
      modifies this`field
      ensures field == Write(old(field), PyIndex(row, height), PyIndex(col, width),
                             Opened(WindowCount(old(field), height, width, row, col)))
    {
      var minesNearby := CountAdjacentMines(row, col);
      field := Write(field, PyIndex(row, height), PyIndex(col, width), Opened(minesNearby));
    }

    /** The win test: during play it holds exactly when no hidden cell that
        is not a mine is left. */
    function IsGameWon(): (won: bool)
      reads this
      ensures Valid() && !completed ==>
                (won <==> forall i, j :: InBounds(height, width, i, j) ==> field[i][j] != Hidden)
    {
      assert Valid() && !completed ==>
               (openedCells + minesCount == width * height <==>
                forall i, j :: InBounds(height, width, i, j) ==> field[i][j] != Hidden) by {
        if Valid() && !completed {
          WonIffAllSafeOpened(field, height, width, minesCount, openedCells);
        }
      }
      openedCells + minesCount == width * height
    }

    /** The reveal on a loss as the game does it: one row-major pass that
        turns each mine into an exploded one and every other cell into its
        count on the field as it is at that moment, so mines already passed
        no longer count. */
    method RevealAllCellsAsWritten()
      requires IsGrid(field, height, width)
      modifies this`field
      ensures RevealedAsWrittenFrom(old(field), field, height, width)
    {
      for row := 0 to height
        invariant IsGrid(field, height, width)
        invariant forall i, j :: InBounds(height, width, i, j) ==>
                    field[i][j] == if Before(i, j, row, 0) then RevealedCellAsWritten(old(field), height, width, i, j)
                                   else old(field)[i][j]
      {
        for col := 0 to width
          invariant IsGrid(field, height, width)
          invariant forall i, j :: InBounds(height, width, i, j) ==>
                      field[i][j] == if Before(i, j, row, col) then RevealedCellAsWritten(old(field), height, width, i, j)
                                     else old(field)[i][j]
        {
          if field[row][col] == Mine {
            field := Write(field, row, col, Exploded);
          } else {
            ghost var seen := ExplodedBefore(old(field), row, col);
            assert SameMines(field, seen);
            AdjMinesSame(field, seen, height, width, row, col);
            var minesNearby := CountAdjacentMines(row, col);
            field := Write(field, row, col, Opened(minesNearby));
          }
        }
      }
    }

    /** The reveal on a loss with every count taken on the original field:
        first every cell that is not a mine is opened with its count, while
        all mines are still in place, then every mine is exploded. */
    method RevealAllCells()
      requires IsGrid(field, height, width)
      modifies this`field
      ensures RevealedFrom(old(field), field, height, width)
    {
      for row := 0 to height
        invariant IsGrid(field, height, width)
        invariant forall i, j :: InBounds(height, width, i, j) ==>
                    field[i][j] == if Before(i, j, row, 0) && old(field)[i][j] != Mine
                                   then Opened(AdjMines(old(field), height, width, i, j)) else old(field)[i][j]
      {
        for col := 0 to width
          invariant IsGrid(field, height, width)
          invariant forall i, j :: InBounds(height, width, i, j) ==>
                      field[i][j] == if Before(i, j, row, col) && old(field)[i][j] != Mine
                                     then Opened(AdjMines(old(field), height, width, i, j)) else old(field)[i][j]
        {
          if field[row][col] != Mine {
            assert SameMines(field, old(field));
            AdjMinesSame(field, old(field), height, width, row, col);
            var minesNearby := CountAdjacentMines(row, col);
            field := Write(field, row, col, Opened(minesNearby));
          }
        }
      }
      for row := 0 to height
        invariant IsGrid(field, height, width)
        invariant forall i, j :: InBounds(height, width, i, j) ==>
                    field[i][j] == if old(field)[i][j] != Mine then Opened(AdjMines(old(field), height, width, i, j))
                                   else if Before(i, j, row, 0) then Exploded else Mine
      {
        for col := 0 to width
          invariant IsGrid(field, height, width)
          invariant forall i, j :: InBounds(height, width, i, j) ==>
                      field[i][j] == if old(field)[i][j] != Mine then Opened(AdjMines(old(field), height, width, i, j))
                                     else if Before(i, j, row, col) then Exploded else Mine
        {
          if field[row][col] == Mine {
            field := Write(field, row, col, Exploded);
          }
        }
      }
    }

    /** The flood fill's invariant on this game (see FillState). */
    ghost predicate Filling(f0: Board, opened0: nat, row: int, col: int, stack: seq<Pos>,
                            order: seq<Pos>, parent: seq<nat>, from: seq<nat>)
      reads this
    {
      FillState(f0, opened0, field, openedCells, height, width, row, col, stack, order, parent, from)
    }

    /** The fill's work on a popped cell (r, c) that is on the field and
        hidden: open it with its count, and if that count is 0 push the whole
        3x3 block around it. The invariant carries over from the stack
        s + [(r, c)] to the stack returned, and one cell fewer is hidden. */
    method OpenPopped(ghost f0: Board, ghost opened0: nat, ghost row: int, ghost col: int,
                      s: seq<Pos>, r: int, c: int,
                      ghost order: seq<Pos>, ghost parent: seq<nat>, ghost from: seq<nat>, ghost f: nat)
      returns (s1: seq<Pos>, ghost order1: seq<Pos>, ghost parent1: seq<nat>, ghost from1: seq<nat>)
      requires Filling(f0, opened0, row, col, s + [(r, c)], order, parent, from + [f])
      requires InBounds(height, width, r, c) && field[r][c] == Hidden
      modifies this`field, this`openedCells
      ensures Filling(f0, opened0, row, col, s1, order1, parent1, from1)
      ensures CountCells(field, Hidden) < old(CountCells(field, Hidden))
    {
      ghost var g, count0 := field, openedCells;
      var minesNearby := CountAdjacentMines(r, c);
      field := Write(field, r, c, Opened(minesNearby));
      openedCells := openedCells + 1;
      s1, order1, parent1, from1 := s, order + [(r, c)], parent + [f], from;
      if minesNearby == 0 {
        s1 := PushBlock(s, r, c, height, width);
        from1 := from + Repeat(|order|, |Block(r, c, height, width)|);
      }
      OpenStep(f0, opened0, g, count0, height, width, row, col, s, r, c, order, parent, from, f);
    }

    /** One round of the flood fill: pop a cell; if it is on the field and
        hidden, it is opened (OpenPopped), otherwise it is skipped. Keeps the
        fill's invariant and makes progress: a cell is opened or the stack
        shrinks. */
    method FillStep(ghost f0: Board, ghost opened0: nat, ghost row: int, ghost col: int, stack: seq<Pos>,
                    ghost order: seq<Pos>, ghost parent: seq<nat>, ghost from: seq<nat>)
      returns (s: seq<Pos>, ghost order1: seq<Pos>, ghost parent1: seq<nat>, ghost from1: seq<nat>)
      requires stack != [] && Filling(f0, opened0, row, col, stack, order, parent, from)
      modifies this`field, this`openedCells
      ensures Filling(f0, opened0, row, col, s, order1, parent1, from1)
      ensures CountCells(field, Hidden) < old(CountCells(field, Hidden)) ||
              (field == old(field) && |s| < |stack|)
    {
      var (r, c) := stack[|stack| - 1];
      s := stack[..|stack| - 1];
      ghost var f := from[|from| - 1];
      from1 := from[..|from| - 1];
      assert stack == s + [(r, c)] && from == from1 + [f];
      if 0 <= r < height && 0 <= c < width && field[r][c] == Hidden {
        s, order1, parent1, from1 := OpenPopped(f0, opened0, row, col, s, r, c, order, parent, from1, f);
      } else {
        order1, parent1 := order, parent;
        ChainSkip(f0, field, height, width, row, col, order, s, from1, (r, c), f);
        ZerosClosedStep(f0, field, field, height, width, stack, s, (r, c));
      }
    }

    /** The flood fill from (row, col), run until its stack is empty. */
    method OpenCell(row: int, col: int)
      requires IsGrid(field, height, width)
      modifies this`field, this`openedCells
      ensures Filled(old(field), field, height, width, row, col)
      ensures openedCells == old(openedCells) + CountCells(old(field), Hidden) - CountCells(field, Hidden)
      ensures CountCells(field, Mine) == CountCells(old(field), Mine)
      ensures old(InPlay(field, height, width, minesCount, openedCells)) ==>
                InPlay(field, height, width, minesCount, openedCells)
    {
      var stack: seq<Pos> := [(row, col)];
      ghost var order: seq<Pos>, parent: seq<nat>, from: seq<nat> := [], [], [0];
      while stack != []
        invariant Filling(old(field), old(openedCells), row, col, stack, order, parent, from)
        decreases CountCells(field, Hidden), |stack|
      {
        stack, order, parent, from := FillStep(old(field), old(openedCells), row, col, stack, order, parent, from);
      }
      if old(InPlay(field, height, width, minesCount, openedCells)) {
        InPlayAfterOpens(old(field), field, height, width, minesCount, old(openedCells), openedCells);
      }
    }

    /** Starts the flood fill at (row, col) when that cell is on the field
        and hidden; otherwise does nothing. */
    method OpenEmptyCells(row: int, col: int)
      requires IsGrid(field, height, width)
      modifies this`field, this`openedCells
      ensures if InBounds(height, width, row, col) && old(field)[row][col] == Hidden then
                && Filled(old(field), field, height, width, row, col)
                && openedCells == old(openedCells) + CountCells(old(field), Hidden) - CountCells(field, Hidden)
                && CountCells(field, Mine) == CountCells(old(field), Mine)
                && (old(InPlay(field, height, width, minesCount, openedCells)) ==>
                      InPlay(field, height, width, minesCount, openedCells))
              else field == old(field) && openedCells == old(openedCells)
    {
      if 0 <= row < height && 0 <= col < width && field[row][col] == Hidden {
        OpenCell(row, col);
      }
    }
  }
}
