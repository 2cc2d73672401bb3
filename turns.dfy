/**
 * A position with its player to move, and the drop rule as a function on
 * positions: the specification of ConnectFour.drop.
 */
module Turns {
  import opened Board
  import opened Lines
  import opened Outcome

  /** The rack and the player whose token the next drop places. */
  datatype Pos = Pos(grid: Grid, cur: Token)

  /**
   * Dropping into column c: the mover's token lands in the lowest empty cell
   * when the game is live and the column valid; then the turn passes unless
   * the game is over.
   */
  function Play(s: Pos, c: int): (t: Pos)
    requires WellFormed(s.grid)
    ensures WellFormed(t.grid)
  {
    var g := if !IsOver(s.grid) && ValidCol(s.grid, c) then Place(s.grid, c, s.cur) else s.grid;
    Pos(g, if IsOver(g) then s.cur else Next(s.cur))
  }

  /** Once the game is over a drop changes nothing. */
  lemma DropWhenOver(s: Pos, c: int)
    requires WellFormed(s.grid) && IsOver(s.grid)
    ensures Play(s, c) == s
  {
  }

  /** A drop into an invalid column of a live game leaves the rack alone but still passes the turn. */
  lemma DropInvalidColumn(s: Pos, c: int)
    requires WellFormed(s.grid) && !IsOver(s.grid) && !ValidCol(s.grid, c)
    ensures Play(s, c).grid == s.grid
    ensures Play(s, c).cur == Next(s.cur) != s.cur
  {
  }

  /**
   * A drop into a valid column of a live game fills exactly the lowest empty
   * cell of that column with the mover's token; the token count rises by one
   * and gravity is kept when the mover is a player; only the mover can have
   * won; and the turn passes exactly when the game goes on.
   */
  lemma DropLive(s: Pos, c: int)
    requires WellFormed(s.grid) && !IsOver(s.grid) && ValidCol(s.grid, c)
    ensures var r, h := Lowest(s.grid, c), Play(s, c).grid;
      0 <= r < ROWS && s.grid[r][c] == Empty && h[r][c] == s.cur
      && (forall i, j :: InBounds(i, j) && (i != r || j != c) ==> h[i][j] == s.grid[i][j])
      && (s.cur != Empty ==> TokenCount(h) == TokenCount(s.grid) + 1)
      && (s.cur != Empty && Gravity(s.grid) ==> Gravity(h))
      && (Winner(h) == Empty || Winner(h) == s.cur)
      && (Play(s, c).cur != s.cur <==> !IsOver(h))
      && (!IsOver(h) ==> Play(s, c).cur == Next(s.cur))
  {
    var g, r, p := s.grid, Lowest(s.grid, c), s.cur;
    var h := Play(s, c).grid;
    assert h == SetCell(g, r, c, p);
    MoverOnlyWinner(g, r, c, p);
    if p != Empty {
      TokenCountFill(g, r, c, p, ROWS);
      if Gravity(g) {
        PlaceKeepsGravity(g, c, p);
      }
    }
  }
}
