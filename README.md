# Connect Four engine, modelled in Dafny

This project models the game engine of a small Java Connect Four program,
the class `tech.octopusdragon.connectfour.ConnectFour`. The class holds a
6 x 7 rack of `Token`s (`P1`, `P2`, `EMPTY`), the player to move and the
computer's difficulty. It supports:

- dropping tokens under gravity and passing the turn;
- finding a winner by walking 24 lines with a run counter;
- telling whether the game is over;
- choosing the computer's move. On Easy the move is random; on Medium it is
  random or minimax by coin; otherwise it is minimax. The minimax search is
  depth-limited (MAX_DEPTH = 5), uses fail-soft alpha-beta pruning, and
  scores positions at the horizon with a run-length heuristic.

The model has two layers.

- **Pure layer** (modules `Board`, `Lines`, `Outcome`, `Heuristic`,
  `Turns`, `Search`). It defines the game on values:
  - a rack is a `seq<seq<Token>>`;
  - a position `Pos` is a rack and the player to move;
  - `Play` is one call of `drop`;
  - `Winner` is the result of the line scan;
  - `Score` is the heuristic;
  - `Value` is the unpruned depth-limited minimax value.

  The properties of the game are proved at this layer.
- **Object layer** (module `Engine`, class `ConnectFour`). It keeps the
  source's form:
  - the rack is an `array2<Token>` updated in place;
  - a ghost `board` mirrors the array;
  - every loop of the Java class is a `while` loop with invariants.

  Each method is proved against the pure layer:
  - `GetWinner` returns `Winner(board)`;
  - `Drop` moves the state to `Play(old state, column)`;
  - `ScoreBoard` returns the heuristic;
  - `Minimax` returns a fail-soft bound of `Value` for its window.

The search's pruning is proved sound in the fail-soft sense. Inside the
window the result is the exact minimax value; outside it, the result is a
bound on the correct side.

The model keeps these behaviours of the source as written:

- **The turn passes on an invalid column.** `drop` into an invalid column of
  a live game leaves the rack unchanged but still passes the turn.
- **One diagonal is never scanned.** The scan covers:
  - every row and every column;
  - the down-right diagonals starting at (2,0), (1,0) and (0,0)..(0,3);
  - the down-left diagonals starting at (2,6), (1,6) and (0,6), (0,5),
    (0,4).

  The down-left diagonal from (0,3) to (3,0) is therefore never scanned. A
  four in a row there neither wins nor scores.
- **The heuristic ignores ownership.** It credits both players' runs alike:
  the score is unchanged when P1 and P2 are exchanged (`ScoreSwap`), so the
  horizon value does not depend on whose runs they are.
- **The heuristic counts a long run once per length.** `scoreBoard` scores
  the lengths 4, 3, 2 and 1, so a run of m tokens earns points at every
  length L <= min(m, 4): the counter passes through each such L once
  (`HitsCountRuns`).
- **Terminal values are measured from the searching player's side.** A
  finished game d plies below the root scores:
  - `MAX_VALUE - d` when the winner's token equals the root's player;
  - `MIN_VALUE + d` when it equals the player after the root's player;
  - 0 otherwise.

  For a root player P1 or P2 this gives 0 for a draw. A game whose player to
  move is EMPTY compares the draw's EMPTY "winner" with EMPTY, so it scores a
  drawn board `MAX_VALUE - d` (`Search.TerminalSides`).
- **The root's list of best columns starts as `[0]`.** Column 0 stays in the
  list even when it is not valid, until some column scores above
  `MIN_VALUE`.
- **A tie at the root does not prove an equal value.** The root search uses
  the window (best so far, MAX_VALUE). A column whose search returns exactly
  the best so far is added to the list, but under fail-soft pruning that
  result is only an upper bound on the column's value. So only the head of
  the list is proved optimal. The other listed columns are proved valid and
  no better.
- **The first immediate win ends the root loop.** A win scores MAX_VALUE,
  and the loop stops there, so the computer plays the lowest column that
  wins at once.

Randomness is replaced by parameters that the caller supplies:

- `coin: bool` chooses the starting player and the Medium difficulty's
  choice;
- `pick: nat`, taken modulo the list's length, replaces `Random.nextInt`.

## Model

All source paths are relative to the repository root.

| member | source | states |
|---|---|---|
| Board.EmptyGrid | src/tech/octopusdragon/connectfour/ConnectFour.java:37-43 | a new rack is 6 x 7 and every cell is EMPTY |
| Board.Next | src/tech/octopusdragon/connectfour/ConnectFour.java:620-627 | the player after p is a real player and differs from p |
| Board.LowestFrom | src/tech/octopusdragon/connectfour/ConnectFour.java:605-613 | the scan upwards (towards row 0) from row s stops at -1 or at an empty cell of the column at row s or above it |
| Board.LowestFromFilled | src/tech/octopusdragon/connectfour/ConnectFour.java:608-610 | every cell the scan stepped over is filled |
| Board.Lowest | src/tech/octopusdragon/connectfour/ConnectFour.java:605-613 | the landing row is -1 or an empty cell of the column |
| Board.LowestMeaning | src/tech/octopusdragon/connectfour/ConnectFour.java:605-613 | the landing row is -1 exactly when the column is full, and every cell above the landing row's index is filled |
| Board.ValidCol | src/tech/octopusdragon/connectfour/ConnectFour.java:387-403 | the source's three tests (below 0, beyond the last column, full); it has no contract of its own, and its meaning is stated by ValidColMeaning |
| Board.Place | src/tech/octopusdragon/connectfour/ConnectFour.java:82 | the rack stays 6 x 7; which cell changes and which stay is stated by Turns.DropLive |
| Board.ValidColMeaning | src/tech/octopusdragon/connectfour/ConnectFour.java:387-403 | a column is valid exactly when it lies in 0..6 and has an empty cell |
| Board.NotFullHasValidCol | src/tech/octopusdragon/connectfour/ConnectFour.java:582-592 | a rack that is not full has a valid column |
| Board.ValidColumnsUpTo | src/tech/octopusdragon/connectfour/ConnectFour.java:119-125 | the collected list is strictly ascending, holds only valid columns below n, and holds every one of them |
| Board.ValidColumnsNonEmpty | src/tech/octopusdragon/connectfour/ConnectFour.java:119-125 | the list of valid columns is empty exactly when the rack is full |
| Board.PlaceKeepsGravity | src/tech/octopusdragon/connectfour/ConnectFour.java:80-83 | dropping a player's token into a valid column keeps every token resting on a filled cell or the floor |
| Board.RowCountFill | src/tech/octopusdragon/connectfour/ConnectFour.java:82 | filling an empty cell of a row adds one to the row's token count |
| Board.TokenCountFill | src/tech/octopusdragon/connectfour/ConnectFour.java:80-83 | filling an empty cell adds exactly one token to the rack's count |
| Lines.TokensFrom | src/tech/octopusdragon/connectfour/ConnectFour.java:473-493 | the cells read from (r, c) along a heading number at most the cells left on the board in that direction and at most 7 |
| Lines.TokensFromAt | src/tech/octopusdragon/connectfour/ConnectFour.java:479-492 | the k-th token read is the cell k steps from the start, and the walk ends at the first cell off the board |
| Lines.TokensFromSetCell | src/tech/octopusdragon/connectfour/ConnectFour.java:80-83 | after one cell is set to p, every line agrees with the old one except at cells now holding p |
| Lines.LineAt | src/tech/octopusdragon/connectfour/ConnectFour.java:437-561 | the 24 lines in the scan's order each head right, down, down-right or down-left |
| Lines.RunLen | src/tech/octopusdragon/connectfour/ConnectFour.java:441-447 | the run counter is 0 exactly on an empty cell and never exceeds the cells read |
| Lines.RunStep | src/tech/octopusdragon/connectfour/ConnectFour.java:441-447 | the source's update (reset on a change of token, then +1 unless the cell is empty) produces the counter's next value |
| Lines.RunLenMeaning | src/tech/octopusdragon/connectfour/ConnectFour.java:441-447 | the counter counts the equal tokens that end at the current cell, and the cell before them differs |
| Lines.RunLenAtLeast | src/tech/octopusdragon/connectfour/ConnectFour.java:441-447 | n equal player tokens ending at k make the counter at least n |
| Lines.RunLenPassesThrough | src/tech/octopusdragon/connectfour/ConnectFour.java:441-447 | a counter at m passed through every smaller positive value on the way, one cell per value |
| Lines.RunLenFour | src/tech/octopusdragon/connectfour/ConnectFour.java:448 | the counter reaches LINE_LENGTH exactly when the last four cells hold one player's token |
| Lines.RunLenIs | src/tech/octopusdragon/connectfour/ConnectFour.java:259 | the counter equals n exactly at the n-th cell of a run, so along a run of length m the counter takes every value 1..m once |
| Outcome.FirstFourFromHit | src/tech/octopusdragon/connectfour/ConnectFour.java:440-451 | walking a line from cell i reports the token at the first cell where the counter hits LINE_LENGTH, or EMPTY when it never does |
| Outcome.FourReached | src/tech/octopusdragon/connectfour/ConnectFour.java:448 | four equal player tokens make the counter hit LINE_LENGTH within them |
| Outcome.LineWinnerSpec | src/tech/octopusdragon/connectfour/ConnectFour.java:437-452 | a line reports a winner exactly when it holds four in a row, and then the owner of its first four |
| Outcome.Scan | src/tech/octopusdragon/connectfour/ConnectFour.java:437-561 | the scan reads the 24 lines in the source's order, none longer than 7 cells |
| Outcome.FirstReportHit | src/tech/octopusdragon/connectfour/ConnectFour.java:432-563 | the scan's answer is the report of the first line that reports a winner, or EMPTY |
| Outcome.Winner | src/tech/octopusdragon/connectfour/ConnectFour.java:432-564 | the result of the 24-line scan; it has no contract of its own, and its meaning is stated by WinnerSpec |
| Outcome.IsOver | src/tech/octopusdragon/connectfour/ConnectFour.java:572-596 | over exactly when there is a winner or the rack is full; it has no contract of its own, and Engine.ConnectFour.IsOver is proved to return it |
| Outcome.WinnerSpec | src/tech/octopusdragon/connectfour/ConnectFour.java:432-563 | there is a winner exactly when some scanned line holds four in a row, and it is the owner of the first such four in scan order |
| Lines.SameOrFour | src/tech/octopusdragon/connectfour/ConnectFour.java:80-83 | a four of the new line whose owner is not the written token was already a four of the old line |
| Outcome.MoverOnlyWinner | src/tech/octopusdragon/connectfour/ConnectFour.java:80-83 | on a rack without a winner, setting one cell to p can make only p the winner |
| Heuristic.PointValue | src/tech/octopusdragon/connectfour/ConnectFour.java:243-245 | a run of length L is worth 1000 for L >= 4, then 100, 10 and 1 for L = 3, 2 and 1, by integer division |
| Heuristic.Hits | src/tech/octopusdragon/connectfour/ConnectFour.java:259-261 | the number of cells where the counter equals L is at most the cells read |
| Heuristic.HitsUpTo | src/tech/octopusdragon/connectfour/ConnectFour.java:259-261 | up to cell k the counter has hit L once per finished run of at least L tokens, plus once for the run still going if it has reached L |
| Heuristic.HitsCountRuns | src/tech/octopusdragon/connectfour/ConnectFour.java:248-303 | a line credits length L exactly once for every maximal run of at least L equal player tokens |
| Heuristic.LevelHits | src/tech/octopusdragon/connectfour/ConnectFour.java:248-372 | the counted cells over i lines number at most 7 per line |
| Heuristic.LevelScore | src/tech/octopusdragon/connectfour/ConnectFour.java:248-372 | the points for one length are at most 1000 per cell of the 24 lines |
| Heuristic.ScoreUpTo | src/tech/octopusdragon/connectfour/ConnectFour.java:374-377 | the points for lengths 1..n are bounded by n times the per-length bound |
| Heuristic.Score | src/tech/octopusdragon/connectfour/ConnectFour.java:239-378 | the heuristic is non-negative and stays below Integer.MAX_VALUE, so the int sum cannot overflow |
| Heuristic.RunLenSwap | src/tech/octopusdragon/connectfour/ConnectFour.java:259 | exchanging P1 and P2 along a line leaves the counter unchanged |
| Heuristic.HitsSwap | src/tech/octopusdragon/connectfour/ConnectFour.java:259-261 | exchanging P1 and P2 along a line leaves the credited cells unchanged |
| Heuristic.TokensFromSwap | src/tech/octopusdragon/connectfour/ConnectFour.java:286-303 | walking the exchanged rack reads the exchanged tokens |
| Heuristic.LineTokensSwap | src/tech/octopusdragon/connectfour/ConnectFour.java:248-372 | each scanned line of the exchanged rack is the exchanged line |
| Heuristic.ScanSwap | src/tech/octopusdragon/connectfour/ConnectFour.java:248-372 | the whole scan of the exchanged rack is the exchanged scan |
| Heuristic.LevelHitsSwap | src/tech/octopusdragon/connectfour/ConnectFour.java:248-372 | the credited cells of one length are unchanged by the exchange |
| Heuristic.LevelScoreSwap | src/tech/octopusdragon/connectfour/ConnectFour.java:248-372 | the points of one length are unchanged by the exchange |
| Heuristic.ScoreSwap | src/tech/octopusdragon/connectfour/ConnectFour.java:239-378 | the heuristic is the same for a rack and for the rack with P1 and P2 exchanged: it does not tell the players apart |
| Heuristic.HitsNone | src/tech/octopusdragon/connectfour/ConnectFour.java:259-261 | an all-empty line credits nothing |
| Heuristic.TokensFromEmpty | src/tech/octopusdragon/connectfour/ConnectFour.java:286-303 | every line of an empty rack reads only EMPTY |
| Heuristic.LineTokensEmpty | src/tech/octopusdragon/connectfour/ConnectFour.java:248-372 | each scanned line of an empty rack is all EMPTY |
| Heuristic.ScanEmpty | src/tech/octopusdragon/connectfour/ConnectFour.java:248-372 | the whole scan of an empty rack is all EMPTY |
| Heuristic.LevelHitsEmpty | src/tech/octopusdragon/connectfour/ConnectFour.java:248-372 | no cell of an all-empty scan is credited |
| Heuristic.ScoreEmpty | src/tech/octopusdragon/connectfour/ConnectFour.java:239-378 | an empty rack scores 0 |
| Turns.Play | src/tech/octopusdragon/connectfour/ConnectFour.java:80-86 | the rack after a drop is still 6 x 7; what the drop does in each case is stated by DropWhenOver, DropInvalidColumn and DropLive |
| Turns.DropWhenOver | src/tech/octopusdragon/connectfour/ConnectFour.java:80-86 | a drop on a finished game changes neither the rack nor the player |
| Turns.DropInvalidColumn | src/tech/octopusdragon/connectfour/ConnectFour.java:80-86 | a drop into an invalid column of a live game leaves the rack unchanged but passes the turn |
| Turns.DropLive | src/tech/octopusdragon/connectfour/ConnectFour.java:80-86 | a drop into a valid column of a live game fills exactly the column's lowest empty cell with the mover's token. Only the mover can have won; a player's drop adds one token and keeps gravity; the turn passes exactly when the game goes on |
| Search.Terminal | src/tech/octopusdragon/connectfour/ConnectFour.java:183-194 | the score of a finished game; it has no contract of its own, and its values are stated by TerminalSides |
| Search.TerminalSides | src/tech/octopusdragon/connectfour/ConnectFour.java:183-194 | a finished game's score lies in the int range, strictly inside it below the root. For a real searcher the two sides' scores of a won game sum to MAX_VALUE + MIN_VALUE and a draw scores 0 for both; an EMPTY searcher scores a draw MAX_VALUE - d |
| Search.Value | src/tech/octopusdragon/connectfour/ConnectFour.java:181-234 | the minimax value lies between Integer.MIN_VALUE and Integer.MAX_VALUE |
| Search.Node | src/tech/octopusdragon/connectfour/ConnectFour.java:200-234 | the value of a node that is searched further lies in the int range; Engine.ConnectFour.Minimax is proved fail-soft against it |
| Search.Best | src/tech/octopusdragon/connectfour/ConnectFour.java:202-215 | folding the children by max (min) never falls below (rises above) the starting accumulator and stays in int range |
| Search.ChildrenAt | src/tech/octopusdragon/connectfour/ConnectFour.java:203-204 | the children list from column i holds column j at position j - i |
| Search.BestCoversChild | src/tech/octopusdragon/connectfour/ConnectFour.java:208 | a maximizing node's value is at least, and a minimizing node's at most, each valid child's value |
| Search.MaxStep | src/tech/octopusdragon/connectfour/ConnectFour.java:207-212 | one child searched with alpha raised to the running maximum keeps the running maximum a fail-soft bound of the exact one |
| Search.MinStep | src/tech/octopusdragon/connectfour/ConnectFour.java:225-230 | the mirror of MaxStep for a minimizing node, with beta lowered to the running minimum |
| Search.MaxLoopStart | src/tech/octopusdragon/connectfour/ConnectFour.java:202 | a maximizing node's loop starts with the running maximum at Integer.MIN_VALUE |
| Search.MaxLoopSkip | src/tech/octopusdragon/connectfour/ConnectFour.java:204 | an invalid column leaves the maximizing loop unchanged |
| Search.MaxLoopNext | src/tech/octopusdragon/connectfour/ConnectFour.java:205-212 | a searched column either keeps the maximizing loop's invariant or, once the maximum reaches beta, makes it a fail-soft bound of the node's value |
| Search.MaxLoopDone | src/tech/octopusdragon/connectfour/ConnectFour.java:215 | a maximizing loop that ran through every column returns a fail-soft bound of the node's value |
| Search.MinLoopStart | src/tech/octopusdragon/connectfour/ConnectFour.java:220 | a minimizing node's loop starts with the running minimum at Integer.MAX_VALUE |
| Search.MinLoopSkip | src/tech/octopusdragon/connectfour/ConnectFour.java:222 | an invalid column leaves the minimizing loop unchanged |
| Search.MinLoopNext | src/tech/octopusdragon/connectfour/ConnectFour.java:223-230 | a searched column either keeps the minimizing loop's invariant or, once the minimum falls to alpha, makes it a fail-soft bound of the node's value |
| Search.MinLoopDone | src/tech/octopusdragon/connectfour/ConnectFour.java:233 | a minimizing loop that ran through every column returns a fail-soft bound of the node's value |
| Search.RootStep | src/tech/octopusdragon/connectfour/ConnectFour.java:145-160 | with the window (best, MAX_VALUE) a column's result beats the best exactly when its value does, and then it is the value. A result equal to the best only bounds the value from above |
| Search.RootLoopStart | src/tech/octopusdragon/connectfour/ConnectFour.java:137-141 | the root loop starts with the list [0] and the best at Integer.MIN_VALUE |
| Search.RootLoopSkip | src/tech/octopusdragon/connectfour/ConnectFour.java:143 | an invalid column leaves the root loop unchanged |
| Search.RootLoopRaise | src/tech/octopusdragon/connectfour/ConnectFour.java:148-152 | a result above the best is the column's value and restarts the list with that column; a win ends the choice with that column alone |
| Search.RootLoopTie | src/tech/octopusdragon/connectfour/ConnectFour.java:153-155 | a result equal to the best appends the column, and the invariant holds again |
| Search.RootLoopBelow | src/tech/octopusdragon/connectfour/ConnectFour.java:145-158 | a result below the best leaves the list and the best unchanged |
| Search.RootLoopDone | src/tech/octopusdragon/connectfour/ConnectFour.java:142-163 | a root loop that ran through every column has gathered the root choice |
| Search.RootChildren | src/tech/octopusdragon/connectfour/ConnectFour.java:142-147 | the root lists one value, in int range, for each of the 7 columns |
| Search.RootChildrenAt | src/tech/octopusdragon/connectfour/ConnectFour.java:143-146 | the root lists column j exactly when it is valid, with the value of dropping there |
| Search.RootChoiceColumns | src/tech/octopusdragon/connectfour/ConnectFour.java:135-166 | the returned best is the root's minimax value, and no valid column is worth more. Every listed column after the head is valid and worth at most the best, and so is the head once the best beats MIN_VALUE; while the best is MIN_VALUE the head is column 0, valid or not. Once the best beats MIN_VALUE, the head of the list is the lowest column worth the best. Every column worth the best is listed unless the best is a win, and a win lists one column |
| Search.RootChoiceLive | src/tech/octopusdragon/connectfour/ConnectFour.java:135-166 | while the game goes on the best beats MIN_VALUE and the head of the list is a valid column |
| Search.RootChoiceWin | src/tech/octopusdragon/connectfour/ConnectFour.java:148-160 | when some column wins at once, the list is exactly the lowest such column |
| Search.RootLoopInvalid | src/tech/octopusdragon/connectfour/ConnectFour.java:143 | a column not valid at the root leaves the root loop unchanged |
| Search.RootPick | src/tech/octopusdragon/connectfour/ConnectFour.java:164-166 | any listed column is on the board. While the game goes on it is valid and worth at most the root's value, and the head of the list is worth exactly that. When an immediate win exists, it is the lowest one |
| Search.BestStrict | src/tech/octopusdragon/connectfour/ConnectFour.java:202-233 | folding values strictly inside the int range from an accumulator strictly inside it stays strictly inside |
| Search.ChildrenStrict | src/tech/octopusdragon/connectfour/ConnectFour.java:203-231 | below the root every child's value lies strictly between MIN_VALUE and MAX_VALUE |
| Search.EntryStrict | src/tech/octopusdragon/connectfour/ConnectFour.java:204-212 | below the root a valid column's value lies strictly inside the int range |
| Search.InteriorStrict | src/tech/octopusdragon/connectfour/ConnectFour.java:200-234 | a live node below the root is worth strictly more than MIN_VALUE and less than MAX_VALUE |
| Search.ValueStrict | src/tech/octopusdragon/connectfour/ConnectFour.java:183-234 | at depth 1 or more a position is worth strictly more than MIN_VALUE and less than MAX_VALUE, since wins are scored MAX_VALUE - depth and losses MIN_VALUE + depth |
| Search.PlaceEmpty | src/tech/octopusdragon/connectfour/ConnectFour.java:82 | placing an EMPTY token changes nothing |
| Search.ColumnValueAtRoot | src/tech/octopusdragon/connectfour/ConnectFour.java:143-147 | at a live root a valid column is worth more than MIN_VALUE, and worth MAX_VALUE exactly when dropping there wins at once for the mover |
| Engine.ConnectFour.EmptyRack | src/tech/octopusdragon/connectfour/ConnectFour.java:38-43 | a fresh 6 x 7 array with every cell EMPTY |
| Engine.ConnectFour.constructor | src/tech/octopusdragon/connectfour/ConnectFour.java:37-45 | a new game has an empty rack, the given starting player and no difficulty |
| Engine.ConnectFour.RandomStart | src/tech/octopusdragon/connectfour/ConnectFour.java:28-30 | a new game has an empty rack and starts with P1 or P2 as the coin says |
| Engine.ConnectFour.Copy | src/tech/octopusdragon/connectfour/ConnectFour.java:53-60 | the copy has a fresh array with the same cells, player and difficulty |
| Engine.ConnectFour.SetDifficulty | src/tech/octopusdragon/connectfour/ConnectFour.java:68-70 | the difficulty becomes the given one and nothing else changes |
| Engine.ConnectFour.LowestAvailableSpace | src/tech/octopusdragon/connectfour/ConnectFour.java:605-613 | returns the lowest empty row of the column, or -1 exactly when the column is full; every row below it is filled |
| Engine.ConnectFour.ValidColumn | src/tech/octopusdragon/connectfour/ConnectFour.java:387-403 | true exactly when the column is in 0..6 and has an empty cell |
| Engine.ConnectFour.NextPlayer | src/tech/octopusdragon/connectfour/ConnectFour.java:620-627 | P1 passes to P2 and anything else to P1 |
| Engine.ConnectFour.WalkLine | src/tech/octopusdragon/connectfour/ConnectFour.java:473-493 | the run-counter walk of one line returns that line's winner report |
| Engine.ConnectFour.GetWinner | src/tech/octopusdragon/connectfour/ConnectFour.java:432-564 | returns Winner of the rack: the owner of the first four in scan order, or EMPTY |
| Engine.ConnectFour.IsOver | src/tech/octopusdragon/connectfour/ConnectFour.java:572-596 | true exactly when there is a winner or the rack is full |
| Engine.ConnectFour.Drop | src/tech/octopusdragon/connectfour/ConnectFour.java:80-86 | the rack and player become Play of the old position and column, and the array still mirrors the rack |
| Engine.ConnectFour.ScoreLine | src/tech/octopusdragon/connectfour/ConnectFour.java:286-303 | adds pointValue for every cell of the line where the counter equals inARow |
| Engine.ConnectFour.ScoreBoard | src/tech/octopusdragon/connectfour/ConnectFour.java:239-378 | returns points plus the heuristic's points for lengths 1..inARow |
| Engine.ConnectFour.Minimax | src/tech/octopusdragon/connectfour/ConnectFour.java:181-234 | the alpha-beta result is a fail-soft bound of the unpruned minimax value for the window (a, b) |
| Engine.ConnectFour.SearchColumn | src/tech/octopusdragon/connectfour/ConnectFour.java:205-207 | searching the copy after a drop into the column gives a fail-soft bound of that child's value |
| Engine.ConnectFour.MaxNode | src/tech/octopusdragon/connectfour/ConnectFour.java:201-216 | the maximizing loop returns a fail-soft bound of the node's minimax value |
| Engine.ConnectFour.MaxChild | src/tech/octopusdragon/connectfour/ConnectFour.java:204-212 | one valid column of a maximizing node keeps alpha at the running maximum, and either keeps the loop's invariant or, once the maximum reaches beta, returns a fail-soft bound of the node's value |
| Engine.ConnectFour.MinNode | src/tech/octopusdragon/connectfour/ConnectFour.java:219-234 | the minimizing loop returns a fail-soft bound of the node's minimax value |
| Engine.ConnectFour.MinChild | src/tech/octopusdragon/connectfour/ConnectFour.java:222-230 | one valid column of a minimizing node keeps beta at the running minimum, and either keeps the loop's invariant or, once the minimum falls to alpha, returns a fail-soft bound of the node's value |
| Engine.ConnectFour.BestMoveColumns | src/tech/octopusdragon/connectfour/ConnectFour.java:136-163 | the root loop returns the root's minimax value and a list with the properties that Search.RootChoiceColumns spells out |
| Engine.ConnectFour.RootChild | src/tech/octopusdragon/connectfour/ConnectFour.java:144-160 | one valid root column keeps the root loop's invariant, or ends the loop on a win |
| Engine.ConnectFour.AiComputerMove | src/tech/octopusdragon/connectfour/ConnectFour.java:135-167 | the minimax move is on the board. While the game goes on it is valid and no better than the root's value, and exactly that value for pick 0. It is the lowest immediate win whenever one exists |
| Engine.ConnectFour.RandomComputerMove | src/tech/octopusdragon/connectfour/ConnectFour.java:119-126 | the random move is the picked entry of the ascending list of valid columns, hence valid |
| Engine.ConnectFour.ComputerTurn | src/tech/octopusdragon/connectfour/ConnectFour.java:94-111 | the random move (the picked entry of the valid columns) on Easy, and on Medium when the coin says so. Otherwise the minimax move: on a live game a valid column worth at most the root's value, exactly that value for pick 0, and the lowest immediate win whenever one exists. The chosen column is then dropped |
| Engine.ConnectFour.GetGrid | src/tech/octopusdragon/connectfour/ConnectFour.java:411-413 | returns the game's own array, whose cells are the rack |
| Engine.ConnectFour.CurPlayer | src/tech/octopusdragon/connectfour/ConnectFour.java:421-423 | returns the player to move |

## Left out

- The JavaFX front end (`ConnectFourApplication.java`) and the console demo
  (`ConnectFourDemo.java`) are not part of this model.
- The `Difficulty` enum file is not part of this model. Its values are taken
  as `Easy`, `Medium` and `Hard`, and `Unset` stands for the null
  difficulty of a game whose difficulty was never set.
- `java.util.Random` is replaced by the caller-supplied `coin` and `pick`
  parameters. The model does not capture the distribution of the moves.
- The `printf`/`println` trace of the root evaluations is left out; it has
  no effect on the result.
- Engine.ConnectFour.GetGrid: the caller may write through the returned
  array. The model does not follow such writes, and the class's invariant
  assumes only the class writes the array.
- Engine.ConnectFour.AiComputerMove: the listed columns after the head are
  proved only valid and worth at most the root's value, not equal to it.
  This is because of the tie behaviour described above.
- Engine.ConnectFour.RandomComputerMove requires a rack that is not full,
  because the source's `rand.nextInt(0)` throws on an empty list.
  Engine.ConnectFour.ComputerTurn requires the same whenever it takes the
  random move.
- Engine.ConnectFour.ScoreBoard requires `inARow >= 1`. The source recurses
  without end for smaller values and only ever passes LINE_LENGTH.
- Engine.ConnectFour.LowestAvailableSpace: requires `0 <= column < COLUMNS`.
  The source accepts any int and throws ArrayIndexOutOfBoundsException at
  ConnectFour.java:608 for a column off the board. Every caller passes a
  column on the board: `drop` only after `validColumn`, and the front end
  at ConnectFourApplication.java:395 and :466.
- Engine.ConnectFour.Minimax requires `depth <= MAX_DEPTH`, which holds at
  every call.
- Engine.ConnectFour.SearchColumn, MaxChild, MinChild and RootChild each
  split the body of one Java loop into a method of its own, with ghost
  parameters naming the position being searched. The statements are the
  same as in the source.
- The four line-walking loops of `getWinner` and `scoreBoard`, and the two
  row/column loops, are each modelled as one walk over the line descriptors
  `Lines.LineAt` in the same order. The walk reads the same cells with the
  same counter.
