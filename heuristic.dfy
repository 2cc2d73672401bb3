/**
 * The positional heuristic used at the search horizon: for every length
 * L = LINE_LENGTH, ..., 1 it counts the positions of the scanned lines where
 * the run counter equals L, and weighs each by PointValue(L).
 */
module Heuristic {
  import opened Board
  import opened Lines
  import opened Outcome

  /** x divided by ten, n times over. */
  function Shrink(x: int, n: int): int
    decreases n
  {
    if n <= 0 then x else Shrink(x / 10, n - 1)
  }

  /** Points for each run reaching length L: 1000 divided by ten once per token short of LINE_LENGTH. */
  function PointValue(L: int): (v: int)
    requires 1 <= L
    ensures 0 <= v <= 1000
    ensures L >= LINE_LENGTH ==> v == 1000
    ensures L == 3 ==> v == 100
    ensures L == 2 ==> v == 10
    ensures L == 1 ==> v == 1
  {
    Shrink(1000, LINE_LENGTH - L)
  }

  /** Number of positions before k where the counter equals L. */
  function Hits(t: seq<Token>, L: int, k: int): (n: nat)
    requires 0 <= k <= |t|
    ensures n <= k
  {
    if k == 0 then 0
    else Hits(t, L, k - 1) + (if RunLen(t, k - 1) == L then 1 else 0)
  }

  /** Position k holds the last token of a maximal run of equal player tokens. */
  predicate RunEnd(t: seq<Token>, k: int)
    requires 0 <= k < |t|
  {
    t[k] != Empty && (k + 1 == |t| || t[k + 1] != t[k])
  }

  /** The maximal runs of t ending before k that are at least L long. */
  function LongRuns(t: seq<Token>, L: int, k: int): nat
    requires 0 <= k <= |t|
  {
    if k == 0 then 0
    else LongRuns(t, L, k - 1) + (if RunEnd(t, k - 1) && RunLen(t, k - 1) >= L then 1 else 0)
  }

  /**
   * Up to k, the counter has hit L once for each finished run of at least L
   * tokens, plus once more when the run still going at k - 1 has reached L.
   */
  lemma {:induction false} HitsUpTo(t: seq<Token>, L: int, k: int)
    requires 1 <= L && 0 <= k <= |t|
    ensures Hits(t, L, k) == LongRuns(t, L, k)
      + (if 0 < k && t[k - 1] != Empty && !RunEnd(t, k - 1) && RunLen(t, k - 1) >= L then 1 else 0)
  {
    if k > 0 {
      HitsUpTo(t, L, k - 1);
    }
  }

  /** A line credits length L once for every maximal run of at least L equal player tokens. */
  lemma HitsCountRuns(t: seq<Token>, L: int)
    requires 1 <= L
    ensures Hits(t, L, |t|) == LongRuns(t, L, |t|)
  {
    HitsUpTo(t, L, |t|);
  }

  /** Lines no longer than a row. */
  predicate Short(ls: seq<seq<Token>>)
  {
    forall j :: 0 <= j < |ls| ==> |ls[j]| <= COLUMNS
  }

  /** Hits summed over the first i lines of ls. */
  function LevelHits(ls: seq<seq<Token>>, L: int, i: int): (n: nat)
    requires Short(ls) && 0 <= i <= |ls|
    ensures n <= COLUMNS * i
  {
    if i == 0 then 0
    else LevelHits(ls, L, i - 1) + Hits(ls[i - 1], L, |ls[i - 1]|)
  }

  /** Monotonicity of products of naturals; bounds LevelScore's points by 1000 per scanned cell. */
  lemma MulBound(a: int, b: int, x: int, y: int)
    requires 0 <= a <= x && 0 <= b <= y
    ensures a * b <= x * y
  {
    assert a * b <= x * b;
  }

  /**
   * Distributivity; lets ScoreLine and ScoreBoard add pointValue one cell
   * or one line at a time and still total pointValue times the hits.
   */
  lemma MulAdd(x: int, a: int, b: int)
    ensures x * (a + b) == x * a + x * b
  {
  }

  /** The points of length L: PointValue(L) for each position of a scanned line where the counter equals L. */
  function LevelScore(g: Grid, L: int): (p: nat)
    requires WellFormed(g) && 1 <= L
    ensures p <= 1000 * COLUMNS * LINE_COUNT
  {
    var hits := LevelHits(Scan(g), L, LINE_COUNT);
    MulBound(PointValue(L), hits, 1000, COLUMNS * LINE_COUNT);
    PointValue(L) * hits
  }

  /** The points of every length from 1 to n. */
  function ScoreUpTo(g: Grid, n: int): (s: nat)
    requires WellFormed(g) && 0 <= n
    ensures n <= LINE_LENGTH ==> s <= 1000 * COLUMNS * LINE_COUNT * n
  {
    if n == 0 then 0 else ScoreUpTo(g, n - 1) + LevelScore(g, n)
  }

  /** The heuristic value of a position: what scoreBoard(LINE_LENGTH, 0) returns. */
  function Score(g: Grid): (s: nat)
    requires WellFormed(g)
    ensures s <= 1000 * COLUMNS * LINE_COUNT * LINE_LENGTH < MAX_VALUE
  {
    ScoreUpTo(g, LINE_LENGTH)
  }

  /** P1 and P2 exchanged. */
  function Swap(p: Token): Token
  {
    match p
    case P1 => P2
    case P2 => P1
    case Empty => Empty
  }

  /** h is g with P1 and P2 exchanged in every cell. */
  predicate Swapped(g: Grid, h: Grid)
    requires WellFormed(g) && WellFormed(h)
  {
    forall r, c :: 0 <= r < ROWS && 0 <= c < COLUMNS ==> h[r][c] == Swap(g[r][c])
  }

  /** v holds the tokens of u with the players exchanged. */
  predicate SwappedLine(u: seq<Token>, v: seq<Token>)
  {
    |v| == |u| && forall j :: 0 <= j < |u| ==> v[j] == Swap(u[j])
  }

  lemma {:induction false} RunLenSwap(t: seq<Token>, u: seq<Token>, k: int)
    requires SwappedLine(t, u) && 0 <= k < |t|
    ensures RunLen(u, k) == RunLen(t, k)
  {
    if k > 0 {
      RunLenSwap(t, u, k - 1);
    }
  }

  lemma {:induction false} HitsSwap(t: seq<Token>, u: seq<Token>, L: int, k: int)
    requires SwappedLine(t, u) && 0 <= k <= |t|
    ensures Hits(u, L, k) == Hits(t, L, k)
  {
    if k > 0 {
      HitsSwap(t, u, L, k - 1);
      RunLenSwap(t, u, k - 1);
    }
  }

  lemma SwappedCons(x: Token, u: seq<Token>, v: seq<Token>)
    requires SwappedLine(u, v)
    ensures SwappedLine([x] + u, [Swap(x)] + v)
  {
    forall j | 0 < j <= |u|
      ensures ([Swap(x)] + v)[j] == Swap(([x] + u)[j])
    {
      assert ([x] + u)[j] == u[j - 1] && ([Swap(x)] + v)[j] == v[j - 1];
    }
  }

  lemma {:induction false} TokensFromSwap(g: Grid, h: Grid, r: int, c: int, dr: int, dc: int)
    requires WellFormed(g) && WellFormed(h) && Swapped(g, h) && Heading(dr, dc)
    ensures SwappedLine(TokensFrom(g, r, c, dr, dc), TokensFrom(h, r, c, dr, dc))
    decreases if InBounds(r, c) then Reach(r, c, dr) else 0
  {
    if InBounds(r, c) {
      TokensFromSwap(g, h, r + dr, c + dc, dr, dc);
      SwappedCons(g[r][c], TokensFrom(g, r + dr, c + dc, dr, dc), TokensFrom(h, r + dr, c + dc, dr, dc));
    }
  }

  /** A scanned line of the swapped rack holds the swapped tokens. */
  lemma LineTokensSwap(g: Grid, h: Grid, i: int)
    requires WellFormed(g) && WellFormed(h) && Swapped(g, h) && 0 <= i < LINE_COUNT
    ensures |LineTokens(h, i)| == |LineTokens(g, i)|
    ensures forall j :: 0 <= j < |LineTokens(g, i)| ==> LineTokens(h, i)[j] == Swap(LineTokens(g, i)[j])
  {
    var l := LineAt(i);
    TokensFromSwap(g, h, l.row, l.col, l.dRow, l.dCol);
  }

  /** Every scanned line of the swapped rack holds the swapped tokens. */
  lemma ScanSwap(g: Grid, h: Grid)
    requires WellFormed(g) && WellFormed(h) && Swapped(g, h)
    ensures forall j :: 0 <= j < LINE_COUNT ==> |Scan(h)[j]| == |Scan(g)[j]|
    ensures forall j, k :: 0 <= j < LINE_COUNT && 0 <= k < |Scan(g)[j]| ==> Scan(h)[j][k] == Swap(Scan(g)[j][k])
  {
    forall j | 0 <= j < LINE_COUNT
      ensures |Scan(h)[j]| == |Scan(g)[j]|
      ensures forall k :: 0 <= k < |Scan(g)[j]| ==> Scan(h)[j][k] == Swap(Scan(g)[j][k])
    {
      LineTokensSwap(g, h, j);
    }
  }

  lemma {:induction false} LevelHitsSwap(ls: seq<seq<Token>>, us: seq<seq<Token>>, L: int, i: int)
    requires Short(ls) && Short(us) && |ls| == |us| && 0 <= i <= |ls|
    requires forall j :: 0 <= j < |ls| ==> |us[j]| == |ls[j]|
    requires forall j, k :: 0 <= j < |ls| && 0 <= k < |ls[j]| ==> us[j][k] == Swap(ls[j][k])
    ensures LevelHits(us, L, i) == LevelHits(ls, L, i)
  {
    if i > 0 {
      LevelHitsSwap(ls, us, L, i - 1);
      HitsSwap(ls[i - 1], us[i - 1], L, |ls[i - 1]|);
    }
  }

  lemma LevelScoreSwap(g: Grid, h: Grid, L: int)
    requires WellFormed(g) && WellFormed(h) && Swapped(g, h) && 1 <= L
    ensures LevelScore(h, L) == LevelScore(g, L)
  {
    ScanSwap(g, h);
    LevelHitsSwap(Scan(g), Scan(h), L, LINE_COUNT);
  }

  /** The heuristic does not care who owns a run: exchanging the players leaves the score unchanged. */
  lemma {:induction false} ScoreSwap(g: Grid, h: Grid, n: int)
    requires WellFormed(g) && WellFormed(h) && Swapped(g, h) && 0 <= n
    ensures ScoreUpTo(h, n) == ScoreUpTo(g, n)
  {
    if n > 0 {
      ScoreSwap(g, h, n - 1);
      LevelScoreSwap(g, h, n);
    }
  }

  /** A line holding no token. */
  predicate AllEmpty(t: seq<Token>)
  {
    forall j :: 0 <= j < |t| ==> t[j] == Empty
  }

  lemma {:induction false} HitsNone(t: seq<Token>, L: int, k: int)
    requires 0 <= k <= |t| && 1 <= L && AllEmpty(t)
    ensures Hits(t, L, k) == 0
  {
    if k > 0 {
      HitsNone(t, L, k - 1);
    }
  }

  lemma EmptyCons(u: seq<Token>)
    requires AllEmpty(u)
    ensures AllEmpty([Empty] + u)
  {
    forall j | 0 < j <= |u|
      ensures ([Empty] + u)[j] == Empty
    {
      assert ([Empty] + u)[j] == u[j - 1];
    }
  }

  lemma {:induction false} TokensFromEmpty(g: Grid, r: int, c: int, dr: int, dc: int)
    requires WellFormed(g) && Heading(dr, dc)
    requires forall r, c :: InBounds(r, c) ==> g[r][c] == Empty
    ensures AllEmpty(TokensFrom(g, r, c, dr, dc))
    decreases if InBounds(r, c) then Reach(r, c, dr) else 0
  {
    if InBounds(r, c) {
      TokensFromEmpty(g, r + dr, c + dc, dr, dc);
      EmptyCons(TokensFrom(g, r + dr, c + dc, dr, dc));
    }
  }

  /** A scanned line of a rack with no token on it is empty. */
  lemma LineTokensEmpty(g: Grid, i: int)
    requires WellFormed(g) && 0 <= i < LINE_COUNT
    requires forall r, c :: InBounds(r, c) ==> g[r][c] == Empty
    ensures AllEmpty(LineTokens(g, i))
  {
    var l := LineAt(i);
    TokensFromEmpty(g, l.row, l.col, l.dRow, l.dCol);
  }

  /** Every scanned line of a rack with no token on it is empty. */
  lemma ScanEmpty(g: Grid)
    requires WellFormed(g)
    requires forall r, c :: InBounds(r, c) ==> g[r][c] == Empty
    ensures forall j :: 0 <= j < LINE_COUNT ==> AllEmpty(Scan(g)[j])
  {
    forall j | 0 <= j < LINE_COUNT
      ensures AllEmpty(Scan(g)[j])
    {
      LineTokensEmpty(g, j);
    }
  }

  lemma {:induction false} LevelHitsEmpty(ls: seq<seq<Token>>, L: int, i: int)
    requires Short(ls) && 1 <= L && 0 <= i <= |ls|
    requires forall j :: 0 <= j < |ls| ==> AllEmpty(ls[j])
    ensures LevelHits(ls, L, i) == 0
  {
    if i > 0 {
      LevelHitsEmpty(ls, L, i - 1);
      HitsNone(ls[i - 1], L, |ls[i - 1]|);
    }
  }

  /** A rack with no token on it scores 0 at every length. */
  lemma {:induction false} ScoreEmpty(g: Grid, n: int)
    requires WellFormed(g) && 0 <= n
    requires forall r, c :: InBounds(r, c) ==> g[r][c] == Empty
    ensures ScoreUpTo(g, n) == 0
  {
    if n > 0 {
      ScoreEmpty(g, n - 1);
      ScanEmpty(g);
      LevelHitsEmpty(Scan(g), n, LINE_COUNT);
    }
  }
}
