/**
 * The lines the engine scans, in the order it scans them, and the run
 * counter it keeps while walking one line.
 */
module Lines {
  import opened Board

  /** A line starts at (row, col) and steps by (dRow, dCol) until it leaves the board. */
  datatype Line = Line(row: int, col: int, dRow: int, dCol: int)

  /** The four directions the engine walks: right, down, down-right, down-left. */
  predicate Heading(dr: int, dc: int)
  {
    (dr == 0 && dc == 1) || (dr == 1 && -1 <= dc <= 1)
  }

  function Reach(r: int, c: int, dr: int): int
  {
    if dr == 1 then ROWS - r else COLUMNS - c
  }

  /** The tokens met walking from (r, c) in direction (dr, dc) while on the board. */
  function TokensFrom(g: Grid, r: int, c: int, dr: int, dc: int): (t: seq<Token>)
    requires WellFormed(g) && Heading(dr, dc)
    ensures |t| <= if InBounds(r, c) then Reach(r, c, dr) else 0
    ensures |t| <= COLUMNS
    decreases if InBounds(r, c) then Reach(r, c, dr) else 0
  {
    if InBounds(r, c) then [g[r][c]] + TokensFrom(g, r + dr, c + dc, dr, dc) else []
  }

  /** The coordinate x after k unit steps in direction d, one of -1, 0 and 1. */
  function Advance(x: int, d: int, k: int): int
  {
    if d == 0 then x else if d == 1 then x + k else x - k
  }

  /**
   * Walking from (r, c), the k-th token met is the cell k steps on, and the
   * walk ends at the first cell off the board.
   */
  lemma {:induction false} TokensFromAt(g: Grid, r: int, c: int, dr: int, dc: int, k: int)
    requires WellFormed(g) && Heading(dr, dc) && 0 <= k <= |TokensFrom(g, r, c, dr, dc)|
    ensures k < |TokensFrom(g, r, c, dr, dc)| ==>
      InBounds(Advance(r, dr, k), Advance(c, dc, k)) && TokensFrom(g, r, c, dr, dc)[k] == g[Advance(r, dr, k)][Advance(c, dc, k)]
    ensures k == |TokensFrom(g, r, c, dr, dc)| ==> !InBounds(Advance(r, dr, k), Advance(c, dc, k))
    decreases k
  {
    if k > 0 {
      TokensFromAt(g, r + dr, c + dc, dr, dc, k - 1);
    }
  }

  /** The tokens along line l of grid g, in walking order. */
  function Tokens(g: Grid, l: Line): (t: seq<Token>)
    requires WellFormed(g) && Heading(l.dRow, l.dCol)
    ensures |t| <= COLUMNS
  {
    TokensFrom(g, l.row, l.col, l.dRow, l.dCol)
  }

  /** u agrees with v except at positions where it holds p. */
  predicate SameOr(u: seq<Token>, v: seq<Token>, p: Token)
  {
    |u| == |v| && forall j :: 0 <= j < |u| ==> u[j] == v[j] || u[j] == p
  }

  lemma SameOrCons(x: Token, u: seq<Token>, y: Token, v: seq<Token>, p: Token)
    requires SameOr(u, v, p) && (x == y || x == p)
    ensures SameOr([x] + u, [y] + v, p)
  {
    forall j | 0 < j <= |u|
      ensures ([x] + u)[j] == ([y] + v)[j] || ([x] + u)[j] == p
    {
      assert ([x] + u)[j] == u[j - 1] && ([y] + v)[j] == v[j - 1];
    }
  }

  /**
   * Changing cell (r, c) to p changes a walk only where it meets that cell:
   * every token of the new walk is the old one or p.
   */
  lemma {:induction false} TokensFromSetCell(g: Grid, r: int, c: int, p: Token, r0: int, c0: int, dr: int, dc: int)
    requires WellFormed(g) && InBounds(r, c) && Heading(dr, dc)
    ensures SameOr(TokensFrom(SetCell(g, r, c, p), r0, c0, dr, dc), TokensFrom(g, r0, c0, dr, dc), p)
    decreases if InBounds(r0, c0) then Reach(r0, c0, dr) else 0
  {
    if InBounds(r0, c0) {
      var h := SetCell(g, r, c, p);
      TokensFromSetCell(g, r, c, p, r0 + dr, c0 + dc, dr, dc);
      SameOrCons(h[r0][c0], TokensFrom(h, r0 + dr, c0 + dc, dr, dc), g[r0][c0], TokensFrom(g, r0 + dr, c0 + dc, dr, dc), p);
    }
  }

  /** Number of lines the engine scans. */
  const LINE_COUNT: int := 24

  /**
   * The i-th line in the order the engine walks them: every row, every
   * column, the down-right diagonals starting at (2,0), (1,0) and
   * (0,0)..(0,3), and the down-left diagonals starting at (2,6), (1,6) and
   * (0,6), (0,5), (0,4).
   */
  function LineAt(i: int): (l: Line)
    requires 0 <= i < LINE_COUNT
    ensures Heading(l.dRow, l.dCol)
  {
    if i < ROWS then Line(i, 0, 0, 1)
    else if i < ROWS + COLUMNS then Line(0, i - ROWS, 1, 0)
    else if i < 15 then Line(ROWS - LINE_LENGTH - (i - 13), 0, 1, 1)
    else if i < 19 then Line(0, i - 15, 1, 1)
    else if i < 21 then Line(ROWS - LINE_LENGTH - (i - 19), COLUMNS - 1, 1, -1)
    else Line(0, COLUMNS - 1 - (i - 21), 1, -1)
  }

  /**
   * The run counter after the walk has read t[k]: the number of equal
   * non-empty tokens ending at k, 0 on an empty cell.
   */
  function RunLen(t: seq<Token>, k: int): (n: nat)
    requires 0 <= k < |t|
    ensures n <= k + 1
    ensures n == 0 <==> t[k] == Empty
  {
    if t[k] == Empty then 0
    else if k > 0 && t[k - 1] == t[k] then RunLen(t, k - 1) + 1
    else 1
  }

  /**
   * One step of the counter as the engine's loops take it: reading t[k]
   * after t[k - 1] (after Empty when k is 0) restarts the count on a change
   * of token and adds one for a non-empty token.
   */
  lemma RunStep(t: seq<Token>, k: int, last: Token, count: int)
    requires 0 <= k < |t|
    requires last == if k == 0 then Empty else t[k - 1]
    requires count == if k == 0 then 0 else RunLen(t, k - 1)
    ensures RunLen(t, k) ==
      (if t[k] != last then 0 else count) + (if t[k] != Empty then 1 else 0)
  {
  }

  /** Four equal non-empty tokens at t[k], ..., t[k + 3]. */
  predicate Four(t: seq<Token>, k: int)
  {
    0 <= k && k + LINE_LENGTH <= |t| && t[k] != Empty
    && forall j :: k <= j < k + LINE_LENGTH ==> t[j] == t[k]
  }

  /** A four in u not made of p tokens was already there in v, when u differs from v only by p tokens. */
  lemma SameOrFour(u: seq<Token>, v: seq<Token>, p: Token, k: int)
    requires Four(u, k) && SameOr(u, v, p)
    ensures u[k] == p || Four(v, k)
  {
  }

  /** The counter at k counts cells equal to t[k], back to where the run starts. */
  lemma {:induction false} RunLenMeaning(t: seq<Token>, k: int)
    requires 0 <= k < |t|
    ensures forall i :: k - RunLen(t, k) < i <= k ==> t[i] == t[k]
    ensures 0 < RunLen(t, k) < k + 1 ==> t[k - RunLen(t, k)] != t[k]
  {
    if t[k] != Empty && k > 0 && t[k - 1] == t[k] {
      RunLenMeaning(t, k - 1);
    }
  }

  /** A run of n equal non-empty tokens ending at k makes the counter reach at least n. */
  lemma {:induction false} RunLenAtLeast(t: seq<Token>, k: int, n: int)
    requires 0 <= k < |t| && 0 < n <= k + 1 && t[k] != Empty
    requires forall i :: k - n < i <= k ==> t[i] == t[k]
    ensures RunLen(t, k) >= n
  {
    if n > 1 {
      assert t[k - 1] == t[k];
      RunLenAtLeast(t, k - 1, n - 1);
    }
  }

  /** A counter of m >= n at k passed through exactly n, m - n cells earlier. */
  lemma {:induction false} RunLenPassesThrough(t: seq<Token>, k: int, n: int)
    requires 0 <= k < |t| && 0 < n <= RunLen(t, k)
    ensures 0 <= k - (RunLen(t, k) - n) && RunLen(t, k - (RunLen(t, k) - n)) == n
  {
    if RunLen(t, k) > n {
      RunLenPassesThrough(t, k - 1, n);
    }
  }

  /** The counter has reached 4 at k exactly when the four cells ending at k hold one non-empty token. */
  lemma RunLenFour(t: seq<Token>, k: int)
    requires 0 <= k < |t|
    ensures RunLen(t, k) >= LINE_LENGTH <==> Four(t, k - LINE_LENGTH + 1)
  {
    RunLenMeaning(t, k);
    if Four(t, k - LINE_LENGTH + 1) {
      RunLenAtLeast(t, k, LINE_LENGTH);
    }
  }

  /**
   * The counter equals n >= 1 at k exactly when k is the n-th cell of a run:
   * t[k - n + 1..k] hold one non-empty token and the cell before differs.
   * So a run of length m is counted once at each length n <= m.
   */
  lemma RunLenIs(t: seq<Token>, k: int, n: int)
    requires 0 <= k < |t| && 1 <= n
    ensures RunLen(t, k) == n <==>
      (0 <= k - n + 1 && t[k] != Empty && (forall i :: k - n < i <= k ==> t[i] == t[k])
       && (k - n < 0 || t[k - n] != t[k]))
  {
    RunLenMeaning(t, k);
    if 0 <= k - n + 1 && t[k] != Empty && (forall i :: k - n < i <= k ==> t[i] == t[k]) {
      RunLenAtLeast(t, k, n);
    }
  }
}
