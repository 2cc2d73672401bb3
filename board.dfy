/**
 * The fixed 6x7 rack, its tokens and the gravity rules that say where a
 * dropped token lands. Row 0 is the top row, row ROWS - 1 the bottom one.
 */
module Board {

  const ROWS: int := 6
  const COLUMNS: int := 7
  /** Number of equal tokens in a line needed to win. */
  const LINE_LENGTH: int := 4
  /** Ply bound of the computer's search. */
  const MAX_DEPTH: int := 5
  /** Java's Integer.MIN_VALUE and Integer.MAX_VALUE, used as search sentinels. */
  const MIN_VALUE: int := -0x8000_0000
  const MAX_VALUE: int := 0x7fff_ffff

  /** The contents of one cell. */
  datatype Token = P1 | P2 | Empty

  /** The computer's strength; Unset is the state a new game starts in. */
  datatype Difficulty = Unset | Easy | Medium | Hard

  type Grid = seq<seq<Token>>

  predicate WellFormed(g: Grid)
  {
    |g| == ROWS && forall r :: 0 <= r < ROWS ==> |g[r]| == COLUMNS
  }

  predicate InBounds(r: int, c: int)
  {
    0 <= r < ROWS && 0 <= c < COLUMNS
  }

  function EmptyGrid(): (g: Grid)
    ensures WellFormed(g)
    ensures forall r, c :: InBounds(r, c) ==> g[r][c] == Empty
  {
    seq(ROWS, _ => seq(COLUMNS, _ => Empty))
  }

  /** Two well-formed grids that agree on every cell are equal. */
  lemma GridExt(g: Grid, h: Grid)
    requires WellFormed(g) && WellFormed(h)
    requires forall r, c :: InBounds(r, c) ==> g[r][c] == h[r][c]
    ensures g == h
  {
    forall r | 0 <= r < ROWS
      ensures g[r] == h[r]
    {
      assert forall c :: 0 <= c < COLUMNS ==> g[r][c] == h[r][c];
    }
  }

  /** Every cell is occupied. */
  predicate Full(g: Grid)
    requires WellFormed(g)
  {
    forall r, c :: 0 <= r < ROWS && 0 <= c < COLUMNS ==> g[r][c] != Empty
  }

  /** The player who moves after p; anything but P1 is followed by P1. */
  function Next(p: Token): (q: Token)
    ensures q != Empty && q != p
  {
    if p == P1 then P2 else P1
  }

  /** Scans column c upwards (towards row 0) from row s for the first empty cell; -1 when there is none. */
  function LowestFrom(g: Grid, c: int, s: int): (r: int)
    requires WellFormed(g) && 0 <= c < COLUMNS && -1 <= s < ROWS
    ensures -1 <= r <= s
    ensures r >= 0 ==> g[r][c] == Empty
    decreases s + 1
  {
    if s < 0 then -1
    else if g[s][c] == Empty then s
    else LowestFrom(g, c, s - 1)
  }

  /** Every cell the scan from row s passes over before it stops is occupied. */
  lemma {:induction false} LowestFromFilled(g: Grid, c: int, s: int)
    requires WellFormed(g) && 0 <= c < COLUMNS && -1 <= s < ROWS
    ensures forall i :: LowestFrom(g, c, s) < i <= s ==> g[i][c] != Empty
    decreases s + 1
  {
    if s >= 0 && g[s][c] != Empty {
      LowestFromFilled(g, c, s - 1);
    }
  }

  /** The row a token dropped into column c lands in, or -1 when c is full. */
  function Lowest(g: Grid, c: int): (r: int)
    requires WellFormed(g) && 0 <= c < COLUMNS
    ensures -1 <= r < ROWS
    ensures r >= 0 ==> g[r][c] == Empty
  {
    LowestFrom(g, c, ROWS - 1)
  }

  /**
   * A token lands on the empty cell with only occupied cells below it, and
   * there is no landing row exactly when the whole column is occupied.
   */
  lemma LowestMeaning(g: Grid, c: int)
    requires WellFormed(g) && 0 <= c < COLUMNS
    ensures Lowest(g, c) == -1 <==> forall i :: 0 <= i < ROWS ==> g[i][c] != Empty
    ensures forall i :: Lowest(g, c) < i < ROWS ==> g[i][c] != Empty
  {
    LowestFromFilled(g, c, ROWS - 1);
  }

  /** A column a token can be dropped into. */
  predicate ValidCol(g: Grid, c: int)
    requires WellFormed(g)
  {
    0 <= c < COLUMNS && Lowest(g, c) >= 0
  }

  /** A column is valid exactly when it is on the board and holds an empty cell. */
  lemma ValidColMeaning(g: Grid, c: int)
    requires WellFormed(g)
    ensures ValidCol(g, c) <==> 0 <= c < COLUMNS && exists r :: 0 <= r < ROWS && g[r][c] == Empty
  {
    if 0 <= c < COLUMNS {
      LowestMeaning(g, c);
    }
  }

  /** A board that is not full has a column a token can be dropped into. */
  lemma NotFullHasValidCol(g: Grid)
    requires WellFormed(g) && !Full(g)
    ensures exists c :: ValidCol(g, c)
  {
    var r, c :| 0 <= r < ROWS && 0 <= c < COLUMNS && g[r][c] == Empty;
    LowestMeaning(g, c);
    assert ValidCol(g, c);
  }

  /** The valid columns below n, in increasing order. */
  function ValidColumnsUpTo(g: Grid, n: int): (cs: seq<int>)
    requires WellFormed(g) && 0 <= n <= COLUMNS
    ensures forall k :: 0 <= k < |cs| ==> 0 <= cs[k] < n && ValidCol(g, cs[k])
    ensures forall c :: 0 <= c < n && ValidCol(g, c) ==> c in cs
    ensures forall k1, k2 :: 0 <= k1 < k2 < |cs| ==> cs[k1] < cs[k2]
  {
    if n == 0 then []
    else ValidColumnsUpTo(g, n - 1) + (if ValidCol(g, n - 1) then [n - 1] else [])
  }

  /** Every valid column, in increasing order. */
  function ValidColumns(g: Grid): seq<int>
    requires WellFormed(g)
  {
    ValidColumnsUpTo(g, COLUMNS)
  }

  /** There is a valid column to choose from exactly when the board is not full. */
  lemma ValidColumnsNonEmpty(g: Grid)
    requires WellFormed(g)
    ensures ValidColumns(g) != [] <==> !Full(g)
  {
    if !Full(g) {
      NotFullHasValidCol(g);
      var c :| ValidCol(g, c);
      assert c in ValidColumns(g);
    }
    if ValidColumns(g) != [] {
      var c := ValidColumns(g)[0];
      assert g[Lowest(g, c)][c] == Empty;
    }
  }

  /** g with cell (r, c) replaced by p. */
  function SetCell(g: Grid, r: int, c: int, p: Token): (h: Grid)
    requires WellFormed(g) && InBounds(r, c)
    ensures WellFormed(h)
  {
    g[r := g[r][c := p]]
  }

  /** g with p dropped into the valid column c. */
  function Place(g: Grid, c: int, p: Token): (h: Grid)
    requires WellFormed(g) && ValidCol(g, c)
    ensures WellFormed(h)
  {
    SetCell(g, Lowest(g, c), c, p)
  }

  /** No empty cell lies below an occupied one in the same column. */
  predicate Gravity(g: Grid)
    requires WellFormed(g)
  {
    forall r1, r2, c :: 0 <= r1 < r2 < ROWS && 0 <= c < COLUMNS && g[r1][c] != Empty ==> g[r2][c] != Empty
  }

  /** Dropping a player's token into a valid column keeps gravity. */
  lemma PlaceKeepsGravity(g: Grid, c: int, p: Token)
    requires WellFormed(g) && ValidCol(g, c) && p != Empty && Gravity(g)
    ensures Gravity(Place(g, c, p))
  {
    var h, r := Place(g, c, p), Lowest(g, c);
    LowestMeaning(g, c);
    forall r1, r2, c' | 0 <= r1 < r2 < ROWS && 0 <= c' < COLUMNS && h[r1][c'] != Empty
      ensures h[r2][c'] != Empty
    {
    }
  }

  /** Number of occupied cells of a row. */
  function RowCount(s: seq<Token>): (n: nat)
    ensures n <= |s|
  {
    if s == [] then 0
    else RowCount(s[..|s| - 1]) + (if s[|s| - 1] != Empty then 1 else 0)
  }

  /** Number of occupied cells of the first k rows. */
  function TokenCountUpTo(g: Grid, k: int): nat
    requires WellFormed(g) && 0 <= k <= ROWS
  {
    if k == 0 then 0 else TokenCountUpTo(g, k - 1) + RowCount(g[k - 1])
  }

  function TokenCount(g: Grid): nat
    requires WellFormed(g)
  {
    TokenCountUpTo(g, ROWS)
  }

  /** Filling one empty cell of a row adds one to its count. */
  lemma {:induction false} RowCountFill(s: seq<Token>, j: int, p: Token)
    requires 0 <= j < |s| && s[j] == Empty && p != Empty
    ensures RowCount(s[j := p]) == RowCount(s) + 1
  {
    var t := s[j := p];
    if j == |s| - 1 {
      assert t[..|t| - 1] == s[..|s| - 1];
    } else {
      assert t[..|t| - 1] == s[..|s| - 1][j := p];
      RowCountFill(s[..|s| - 1], j, p);
    }
  }

  /** Filling one empty cell of a grid adds one to its token count. */
  lemma {:induction false} TokenCountFill(g: Grid, r: int, c: int, p: Token, k: int)
    requires WellFormed(g) && InBounds(r, c) && g[r][c] == Empty && p != Empty
    requires 0 <= k <= ROWS
    ensures TokenCountUpTo(SetCell(g, r, c, p), k) == TokenCountUpTo(g, k) + (if r < k then 1 else 0)
  {
    var h := SetCell(g, r, c, p);
    if k > 0 {
      TokenCountFill(g, r, c, p, k - 1);
      if k - 1 == r {
        assert h[r] == g[r][c := p];
        RowCountFill(g[r], c, p);
      } else {
        assert h[k - 1] == g[k - 1];
      }
    }
  }
}
