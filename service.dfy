/** The session registry: checks the parameters of a new game, keeps every
    game under its id, refuses moves on unknown or finished games, applies
    a move and shows callers a view of the game that hides its mines. */
module Service {
  import opened Cells
  import opened Grid
  import opened Engine

  /** The ways a request is refused. */
  datatype Error = InvalidParameters | GameNotFound | GameAlreadyCompleted | OutOfBounds

  datatype Result<T> = Ok(value: T) | Err(error: Error)

  /** What a caller is shown of a game. */
  datatype View = View(gameId: string, width: nat, height: nat, minesCount: nat, field: Board, completed: bool)

  /** The largest width and height a game may have. */
  const MaxSide := 30

  /** The parameter check as the service writes it: refuse a board wider or
      taller than MaxSide, or with no cell left free of mines. */
  predicate AcceptsAsWritten(width: int, height: int, minesCount: int)
  {
    !(width > MaxSide || height > MaxSide || minesCount > width * height - 1)
  }

  /** The check as intended: both sides from 1 to MaxSide, and between 0 and
      width * height - 1 mines. */
  predicate ValidParameters(width: int, height: int, minesCount: int)
  {
    1 <= width <= MaxSide && 1 <= height <= MaxSide && 0 <= minesCount <= width * height - 1
  }

  /** The written check lets through parameters no game can be played
      with. Width -2 and height -3 have a positive product, so 5 mines pass,
      but no sequence of draws can place them, since with negative sides
      mine placement has no cell (the source's randint(0, -4) raises). With
      3 by 3 and -1 mines no mine is placed, and every field the game can
      reach keeps opened + hidden + mines at 9 cells, so the win test, which
      asks for 10 opened cells, never holds. */
  lemma AcceptsAsWrittenUnplayable(draws: seq<Pos>, g: Board, openCount: nat)
    requires IsGrid(g, 3, 3) && openCount + CountCells(g, Hidden) + CountCells(g, Mine) == 3 * 3
    ensures AcceptsAsWritten(-2, -3, 5) && !ValidParameters(-2, -3, 5)
    ensures !DrawsSuffice(draws, -3, -2, 5)
    ensures AcceptsAsWritten(3, 3, -1) && !ValidParameters(3, 3, -1)
    ensures openCount + -1 != 3 * 3
  {
    if |draws| > 0 {
      assert !(0 <= draws[0].0 < -3);
    } else {
      assert (set p | p in draws) == {};
    }
  }

  /** The intended check is the written one plus positive sides and a mine
      count that is not negative; what it accepts has room for every mine
      and at least one safe cell, on at most MaxSide * MaxSide cells. */
  lemma ValidParametersChar(width: int, height: int, minesCount: int)
    ensures ValidParameters(width, height, minesCount) <==>
              AcceptsAsWritten(width, height, minesCount) && width >= 1 && height >= 1 && minesCount >= 0
    ensures ValidParameters(width, height, minesCount) ==>
              0 <= minesCount < width * height <= MaxSide * MaxSide
  {
    if ValidParameters(width, height, minesCount) {
      assert width * height <= MaxSide * height <= MaxSide * MaxSide;
    }
  }

  /** The field as shown: while the game is on, a mine shows as a hidden
      cell and every other cell as it is; once the game is over (won or lost)
      the field is shown unchanged. */
  function MaskField(g: Board, completed: bool): (v: Board)
    ensures |v| == |g| && forall i :: 0 <= i < |g| ==> |v[i]| == |g[i]|
    ensures !completed ==> forall i, j :: 0 <= i < |g| && 0 <= j < |g[i]| ==> v[i][j] != Mine
    ensures forall i, j :: 0 <= i < |g| && 0 <= j < |g[i]| && g[i][j] != Mine ==> v[i][j] == g[i][j]
    ensures forall i, j :: 0 <= i < |g| && 0 <= j < |g[i]| && g[i][j] == Mine && !completed ==> v[i][j] == Hidden
    ensures completed ==> v == g
  {
    var v := seq(|g|, i requires 0 <= i < |g| =>
               seq(|g[i]|, j requires 0 <= j < |g[i]| => if g[i][j] == Mine && !completed then Hidden else g[i][j]));
    assert completed ==> forall i :: 0 <= i < |g| ==> v[i] == g[i];
    v
  }

  /** While the game is on, the view does not depend on where the mines are:
      two fields that differ only in which hidden cells are mines look alike. */
  lemma MaskHidesMines(g1: Board, g2: Board)
    requires |g1| == |g2| && forall i :: 0 <= i < |g1| ==> |g1[i]| == |g2[i]|
    requires forall i, j :: 0 <= i < |g1| && 0 <= j < |g1[i]| ==>
               g1[i][j] == g2[i][j] || ((g1[i][j] == Hidden || g1[i][j] == Mine) && (g2[i][j] == Hidden || g2[i][j] == Mine))
    ensures MaskField(g1, false) == MaskField(g2, false)
  {
    var v1, v2 := MaskField(g1, false), MaskField(g2, false);
    forall i | 0 <= i < |g1|
      ensures v1[i] == v2[i]
    {
      assert forall j :: 0 <= j < |g1[i]| ==> v1[i][j] == v2[i][j];
    }
  }

  /** The response for a game: its id, sizes, mine count, masked field and
      whether it is over. */
  function FormatResponse(game: Game): (v: View)
    reads game
    ensures v.gameId == game.id && v.width == game.width && v.height == game.height
    ensures v.minesCount == game.minesCount && v.completed == game.completed
    ensures |v.field| == |game.field| && forall i :: 0 <= i < |game.field| ==> |v.field[i]| == |game.field[i]|
    ensures !game.completed ==> forall i, j :: 0 <= i < |v.field| && 0 <= j < |v.field[i]| ==> v.field[i][j] != Mine
    ensures forall i, j :: 0 <= i < |game.field| && 0 <= j < |game.field[i]| && game.field[i][j] != Mine ==>
              v.field[i][j] == game.field[i][j]
    ensures game.completed ==> v.field == game.field
  {
    View(game.id, game.width, game.height, game.minesCount, MaskField(game.field, game.completed), game.completed)
  }

  /** The registry of games in progress and finished, keyed by game id. */
  class Registry {
    var games: map<string, Game>

    /** Each game is stored under its own id and is itself valid. */
    ghost predicate Valid()
      reads this, games.Values
    {
      forall gid :: gid in games ==> games[gid].id == gid && games[gid].Valid()
    }

    constructor ()
      ensures Valid() && games == map[]
    {
      games := map[];
    }

    /** Checks the parameters, then creates a game with mines at cells taken
        from draws, stores it under the fresh id gid and returns its view. */
    method NewGame(gid: string, width: int, height: int, minesCount: int, draws: seq<Pos>)
      returns (r: Result<View>)
      requires Valid() && gid !in games
      requires ValidParameters(width, height, minesCount) ==> DrawsSuffice(draws, height, width, minesCount)
      modifies this
      ensures Valid()
      ensures !ValidParameters(width, height, minesCount) ==>
                r == Err(InvalidParameters) && games == old(games)
      ensures ValidParameters(width, height, minesCount) ==>
                && gid in games && fresh(games[gid])
                && games == old(games)[gid := games[gid]]
                && r == Ok(FormatResponse(games[gid]))
                && (var game := games[gid];
                    && game.width == width && game.height == height && game.minesCount == minesCount
                    && !game.completed && game.openedCells == 0
                    && CountCells(game.field, Mine) == minesCount
                    && forall i, j :: InBounds(game.height, game.width, i, j) ==>
                         game.field[i][j] == Hidden || game.field[i][j] == Mine)
    {
      if !ValidParameters(width, height, minesCount) {
        return Err(InvalidParameters);
      }
      var game := new Game(gid, width, height, minesCount, draws);
      games := games[gid := game];
      r := Ok(FormatResponse(game));
    }

    /** After a change to one stored game that leaves it valid, the registry
        is valid again: every other game is another object, since it is
        stored under another id. */
    twostate lemma UpdatedStaysValid(game: Game)
      requires old(Valid()) && game.id in games && games[game.id] == game
      requires unchanged(this) && game.Valid()
      requires forall k :: k in games && games[k] != game ==> unchanged(games[k])
      ensures Valid()
    {
    }

    /** One move on the game gid at (row, col): refused for an unknown id,
        a finished game or a cell off the field, none of which changes
        anything; otherwise a mine ends the game and reveals the field, a
        hidden cell is flood filled and an opened cell is written again with
        its count, after which a won game is marked complete. */
    method Turn(gid: string, row: int, col: int) returns (r: Result<View>)
      requires Valid()
      modifies if gid in games then {games[gid]} else {}
      ensures Valid() && games == old(games)
      ensures gid !in games ==> r == Err(GameNotFound)
      ensures gid in games && old(games[gid].completed) ==>
                r == Err(GameAlreadyCompleted) && unchanged(games[gid])
      ensures gid in games && !old(games[gid].completed) &&
              !InBounds(games[gid].height, games[gid].width, row, col) ==>
                r == Err(OutOfBounds) && unchanged(games[gid])
      ensures gid in games && !old(games[gid].completed) &&
              InBounds(games[gid].height, games[gid].width, row, col) ==>
                && r == Ok(FormatResponse(games[gid]))
                && TurnEffect(old(games[gid].field), old(games[gid].openedCells),
                              games[gid].field, games[gid].openedCells, games[gid].completed,
                              games[gid].height, games[gid].width, games[gid].minesCount, row, col)
    {
      if gid !in games {
        return Err(GameNotFound);
      }
      var game := games[gid];
      if game.completed {
        return Err(GameAlreadyCompleted);
      }
      if !(0 <= row < game.height && 0 <= col < game.width) {
        return Err(OutOfBounds);
      }
      ghost var g0, opened0 := game.field, game.openedCells;
      if game.field[row][col] == Mine {
        game.completed := true;
        game.RevealAllCells();
        assert TurnEffect(g0, opened0, game.field, game.openedCells, game.completed,
                          game.height, game.width, game.minesCount, row, col);
        UpdatedStaysValid(game);
        return Ok(FormatResponse(game));
      }
      if game.field[row][col] == Hidden {
        game.OpenEmptyCells(row, col);
      } else {
        var minesNearby := game.CountAdjacentMines(row, col);
        WriteSame(game.field, row, col);
        game.field := Write(game.field, row, col, Opened(minesNearby));
      }
      if game.IsGameWon() {
        game.completed := true;
      }
      assert TurnEffect(g0, opened0, game.field, game.openedCells, game.completed,
                        game.height, game.width, game.minesCount, row, col);
      UpdatedStaysValid(game);
      r := Ok(FormatResponse(game));
    }
  }
}
