/** The cells of a minesweeper board and the one-character markers the
    game stores for them. */
module Cells {

  datatype Option<T> = None | Some(value: T)

  /** One board cell. The game stores each cell as a one-character string:
      " " hidden and empty, "M" a hidden mine, a digit for an opened cell
      showing its count of nearby mines, "X" for a mine shown after a loss. */
  datatype Cell = Hidden | Mine | Opened(n: nat) | Exploded

  /** The marker stored for a cell; a count is written as its single digit. */
  function Marker(c: Cell): (s: string)
    requires c.Opened? ==> c.n <= 9
    ensures |s| == 1
    ensures s[0] != ' ' <==> c != Hidden
  {
    match c
    case Hidden => " "
    case Mine => "M"
    case Opened(n) => [('0' as int + n) as char]
    case Exploded => "X"
  }

  /** Reads a stored marker back into a cell; any other string is none. */
  function Parse(s: string): (r: Option<Cell>)
    ensures r.Some? ==> |s| == 1
    ensures r.Some? && r.value.Opened? ==> r.value.n <= 9
  {
    if s == " " then Some(Hidden)
    else if s == "M" then Some(Mine)
    else if s == "X" then Some(Exploded)
    else if |s| == 1 && '0' <= s[0] <= '9' then Some(Opened(s[0] as int - '0' as int))
    else None
  }

  /** Every cell survives being written as a marker and read back. */
  lemma ParseMarker(c: Cell)
    requires c.Opened? ==> c.n <= 9
    ensures Parse(Marker(c)) == Some(c)
  {
    match c
    case Hidden =>
    case Mine =>
    case Opened(n) =>
      var s := Marker(c);
      assert s[0] as int == '0' as int + n;
    case Exploded =>
  }

  /** Every string that reads as a cell is exactly that cell's marker. */
  lemma MarkerParse(s: string)
    requires Parse(s).Some?
    ensures Marker(Parse(s).value) == s
  {
    if s != " " && s != "M" && s != "X" {
      assert |s| == 1 && '0' <= s[0] <= '9';
      assert Marker(Parse(s).value) == [s[0]];
      assert s == [s[0]];
    }
  }
}
