/**
 * Win and end-of-game detection: the first line, in scan order, on which
 * the run counter reaches LINE_LENGTH names the winner.
 */
module Outcome {
  import opened Board
  import opened Lines

  /** The token at the first position from k on where the counter reaches LINE_LENGTH, else Empty. */
  function FirstFourFrom(t: seq<Token>, k: int): Token
    requires 0 <= k <= |t|
    decreases |t| - k
  {
    if k == |t| then Empty
    else if RunLen(t, k) == LINE_LENGTH then t[k]
    else FirstFourFrom(t, k + 1)
  }

  /** What one line reports: the owner of its first four-in-a-row, or Empty. */
  function LineWinner(t: seq<Token>): Token
  {
    FirstFourFrom(t, 0)
  }

  /** The first position from i on where the counter reaches LINE_LENGTH, or |t| when there is none. */
  lemma {:induction false} FirstFourFromHit(t: seq<Token>, i: int) returns (e: int)
    requires 0 <= i <= |t|
    ensures i <= e <= |t|
    ensures forall e' :: i <= e' < e ==> RunLen(t, e') != LINE_LENGTH
    ensures e < |t| ==> RunLen(t, e) == LINE_LENGTH && FirstFourFrom(t, i) == t[e] != Empty
    ensures e == |t| ==> FirstFourFrom(t, i) == Empty
    decreases |t| - i
  {
    if i == |t| || RunLen(t, i) == LINE_LENGTH {
      e := i;
    } else {
      e := FirstFourFromHit(t, i + 1);
    }
  }

  /** Four in a row starting at k makes the counter hit LINE_LENGTH by position k + 3. */
  lemma FourReached(t: seq<Token>, k: int) returns (e: int)
    requires Four(t, k)
    ensures 0 <= e <= k + LINE_LENGTH - 1 && RunLen(t, e) == LINE_LENGTH
  {
    var last := k + LINE_LENGTH - 1;
    RunLenFour(t, last);
    RunLenPassesThrough(t, last, LINE_LENGTH);
    e := last - (RunLen(t, last) - LINE_LENGTH);
  }

  /**
   * A line reports a winner exactly when it holds four equal non-empty
   * tokens in a row, and then it reports the owner of the first such four.
   */
  lemma LineWinnerSpec(t: seq<Token>)
    ensures LineWinner(t) != Empty <==> exists k :: Four(t, k)
    ensures LineWinner(t) != Empty ==>
      exists k :: Four(t, k) && LineWinner(t) == t[k] && forall j :: 0 <= j < k ==> !Four(t, j)
  {
    var e := FirstFourFromHit(t, 0);
    if e < |t| {
      RunLenFour(t, e);
      var k := e - LINE_LENGTH + 1;
      assert Four(t, k) && t[k] == t[e];
      forall j | 0 <= j < k
        ensures !Four(t, j)
      {
        if Four(t, j) {
          var e' := FourReached(t, j);
        }
      }
    } else {
      forall k | Four(t, k)
        ensures false
      {
        var e' := FourReached(t, k);
      }
    }
  }

  /** The tokens of the i-th scanned line. */
  function LineTokens(g: Grid, i: int): seq<Token>
    requires WellFormed(g) && 0 <= i < LINE_COUNT
  {
    Tokens(g, LineAt(i))
  }

  /** Four in a row at position k of the i-th scanned line. */
  predicate ScannedFour(g: Grid, i: int, k: int)
    requires WellFormed(g)
  {
    0 <= i < LINE_COUNT && Four(LineTokens(g, i), k)
  }

  /** The tokens of every scanned line, in scan order. */
  function Scan(g: Grid): (ls: seq<seq<Token>>)
    requires WellFormed(g)
    ensures |ls| == LINE_COUNT
    ensures forall i :: 0 <= i < LINE_COUNT ==> ls[i] == LineTokens(g, i) && |ls[i]| <= COLUMNS
  {
    seq(LINE_COUNT, i requires 0 <= i < LINE_COUNT => LineTokens(g, i))
  }

  /** The report of the first line of ls from the i-th on that reports a winner, else Empty. */
  function FirstReport(ls: seq<seq<Token>>, i: int): Token
    requires 0 <= i <= |ls|
    decreases |ls| - i
  {
    if i == |ls| then Empty
    else
      var w := LineWinner(ls[i]);
      if w != Empty then w else FirstReport(ls, i + 1)
  }

  /** The winner of the position, Empty when no scanned line holds four in a row. */
  function Winner(g: Grid): Token
    requires WellFormed(g)
  {
    FirstReport(Scan(g), 0)
  }

  /** The game is over once someone has won or the rack is full. */
  predicate IsOver(g: Grid)
    requires WellFormed(g)
  {
    Winner(g) != Empty || Full(g)
  }

  /** The first line of ls from the i-th on that reports a winner, or |ls| when none does. */
  lemma {:induction false} FirstReportHit(ls: seq<seq<Token>>, i: int) returns (j: int)
    requires 0 <= i <= |ls|
    ensures i <= j <= |ls|
    ensures forall j' :: i <= j' < j ==> LineWinner(ls[j']) == Empty
    ensures j < |ls| ==> FirstReport(ls, i) == LineWinner(ls[j]) != Empty
    ensures j == |ls| ==> FirstReport(ls, i) == Empty
    decreases |ls| - i
  {
    if i == |ls| || LineWinner(ls[i]) != Empty {
      j := i;
    } else {
      j := FirstReportHit(ls, i + 1);
    }
  }

  /**
   * There is a winner exactly when some scanned line holds four equal
   * non-empty tokens in a row; the winner is the owner of the first such
   * four in scan order (first line, then first position on it).
   */
  lemma WinnerSpec(g: Grid)
    requires WellFormed(g)
    ensures Winner(g) != Empty <==> exists i, k :: ScannedFour(g, i, k)
    ensures Winner(g) != Empty ==>
      exists i, k :: ScannedFour(g, i, k) && Winner(g) == LineTokens(g, i)[k]
        && (forall j, k' :: 0 <= j < i ==> !ScannedFour(g, j, k'))
        && (forall k' :: 0 <= k' < k ==> !ScannedFour(g, i, k'))
  {
    var i := FirstReportHit(Scan(g), 0);
    if i < LINE_COUNT {
      LineWinnerSpec(LineTokens(g, i));
      var k :| Four(LineTokens(g, i), k) && Winner(g) == LineTokens(g, i)[k]
        && forall j :: 0 <= j < k ==> !Four(LineTokens(g, i), j);
      assert ScannedFour(g, i, k);
      forall j, k' | 0 <= j < i
        ensures !ScannedFour(g, j, k')
      {
        LineWinnerSpec(LineTokens(g, j));
      }
    } else {
      forall i', k | ScannedFour(g, i', k)
        ensures false
      {
        LineWinnerSpec(LineTokens(g, i'));
      }
    }
  }

  /**
   * Changing one cell of a position nobody has won can only produce a win
   * for the token written there: every new four-in-a-row runs through it.
   */
  lemma MoverOnlyWinner(g: Grid, r: int, c: int, p: Token)
    requires WellFormed(g) && InBounds(r, c) && Winner(g) == Empty
    ensures Winner(SetCell(g, r, c, p)) == Empty || Winner(SetCell(g, r, c, p)) == p
  {
    var h := SetCell(g, r, c, p);
    WinnerSpec(h);
    WinnerSpec(g);
    if Winner(h) != Empty {
      var i, k :| ScannedFour(h, i, k) && Winner(h) == LineTokens(h, i)[k];
      var l := LineAt(i);
      var th, tg := LineTokens(h, i), LineTokens(g, i);
      TokensFromSetCell(g, r, c, p, l.row, l.col, l.dRow, l.dCol);
      SameOrFour(th, tg, p, k);
      assert !ScannedFour(g, i, k);
    }
  }
}
