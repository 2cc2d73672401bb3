/**
 * The game object: a 6x7 rack of tokens updated in place, the player to
 * move and the computer's difficulty, with the scanning loops, the
 * heuristic, the alpha-beta search and the computer's move choice, each
 * proved against the pure definitions of the other modules.
 */
module Engine {
  import opened Board
  import opened Lines
  import opened Outcome
  import opened Heuristic
  import opened Turns
  import opened Search

  class ConnectFour {
    var grid: array2<Token>
    var curPlayer: Token
    var difficulty: Difficulty

    /** The rack as a value, kept equal to the contents of grid. */
    ghost var board: Grid

    ghost predicate Valid()
      reads this`grid, this`board, grid
    {
      grid.Length0 == ROWS && grid.Length1 == COLUMNS && WellFormed(board)
      && forall r, c {:trigger grid[r, c]} :: InBounds(r, c) ==> board[r][c] == grid[r, c]
    }

    /** The rack together with the player to move. */
    ghost function State(): Pos
      reads this`board, this`curPlayer
    {
      Pos(board, curPlayer)
    }

    /** A fresh rack with every cell empty. */
    static method EmptyRack() returns (a: array2<Token>)
      ensures fresh(a) && a.Length0 == ROWS && a.Length1 == COLUMNS
      ensures forall r, c :: 0 <= r < ROWS && 0 <= c < COLUMNS ==> a[r, c] == Empty
    {
      a := new Token[ROWS, COLUMNS];
      var i := 0;
      while i < ROWS
        invariant 0 <= i <= ROWS
        invariant forall r, c :: 0 <= r < i && 0 <= c < COLUMNS ==> a[r, c] == Empty
      {
        var j := 0;
        while j < COLUMNS
          invariant 0 <= j <= COLUMNS
          invariant forall r, c :: 0 <= r < i && 0 <= c < COLUMNS ==> a[r, c] == Empty
          invariant forall c :: 0 <= c < j ==> a[i, c] == Empty
        {
          a[i, j] := Empty;
          j := j + 1;
        }
        i := i + 1;
      }
    }

    /** A new game with an empty rack in which startingPlayer moves first. */
    constructor (startingPlayer: Token)
      ensures Valid() && fresh(grid)
      ensures State() == Pos(EmptyGrid(), startingPlayer) && difficulty == Unset
    {
      var a := EmptyRack();
      grid := a;
      curPlayer := startingPlayer;
      difficulty := Unset;
      board := EmptyGrid();
    }

    /** A new game whose first player is chosen by a coin: P1 when it shows true. */
    constructor RandomStart(coin: bool)
      ensures Valid() && fresh(grid)
      ensures State() == Pos(EmptyGrid(), if coin then P1 else P2) && difficulty == Unset
    {
      var a := EmptyRack();
      grid := a;
      curPlayer := if coin then P1 else P2;
      difficulty := Unset;
      board := EmptyGrid();
    }

    /** A deep copy: same rack in a fresh array, same player and difficulty. */
    constructor Copy(original: ConnectFour)
      requires original.Valid()
      ensures Valid() && fresh(grid)
      ensures State() == original.State() && difficulty == original.difficulty
    {
      var a := new Token[ROWS, COLUMNS];
      var i := 0;
      while i < ROWS
        invariant 0 <= i <= ROWS
        invariant forall r, c :: 0 <= r < i && 0 <= c < COLUMNS ==> a[r, c] == original.grid[r, c]
      {
        var j := 0;
        while j < COLUMNS
          invariant 0 <= j <= COLUMNS
          invariant forall r, c :: 0 <= r < i && 0 <= c < COLUMNS ==> a[r, c] == original.grid[r, c]
          invariant forall c :: 0 <= c < j ==> a[i, c] == original.grid[i, c]
        {
          a[i, j] := original.grid[i, j];
          j := j + 1;
        }
        i := i + 1;
      }
      grid := a;
      curPlayer := original.curPlayer;
      difficulty := original.difficulty;
      board := original.board;
    }

    method SetDifficulty(d: Difficulty)
      modifies this`difficulty
      ensures difficulty == d
    {
      difficulty := d;
    }

    /**
     * The row a token dropped into column would land in: the lowest empty
     * row, or -1 when the column is full.
     */
    method LowestAvailableSpace(column: int) returns (space: int)
      requires Valid() && 0 <= column < COLUMNS
      ensures space == Lowest(board, column)
      ensures -1 <= space < ROWS
      ensures space == -1 <==> forall r :: 0 <= r < ROWS ==> grid[r, column] != Empty
      ensures space >= 0 ==> grid[space, column] == Empty && forall r :: space < r < ROWS ==> grid[r, column] != Empty
    {
      LowestMeaning(board, column);
      space := ROWS - 1;
      while space >= 0 && grid[space, column] != Empty
        invariant -1 <= space < ROWS
        invariant LowestFrom(board, column, space) == Lowest(board, column)
      {
        space := space - 1;
      }
    }

    /** Whether a token can be dropped into column: on the board and not yet full. */
    method ValidColumn(column: int) returns (validColumn: bool)
      requires Valid()
      ensures validColumn == ValidCol(board, column)
      ensures validColumn <==> 0 <= column < COLUMNS && exists r :: 0 <= r < ROWS && grid[r, column] == Empty
    {
      ValidColMeaning(board, column);
      validColumn := true;
      if column < 0 {
        validColumn := false;
      } else if column >= COLUMNS {
        validColumn := false;
      } else {
        var space := LowestAvailableSpace(column);
        if space < 0 {
          validColumn := false;
        }
      }
    }

    /** Passes the turn: P1 is followed by P2, anything else by P1. */
    method NextPlayer()
      modifies this`curPlayer
      ensures curPlayer == Next(old(curPlayer))
    {
      if curPlayer == P1 {
        curPlayer := P2;
      } else {
        curPlayer := P1;
      }
    }

    /**
     * Walks line l with the run counter and reports the token whose run
     * first reaches LINE_LENGTH, or Empty.
     */
    method WalkLine(l: Line) returns (w: Token)
      requires Valid() && Heading(l.dRow, l.dCol)
      ensures w == LineWinner(Tokens(board, l))
    {
      ghost var g, t := board, Tokens(board, l);
      ghost var k := 0;
      var row, column := l.row, l.col;
      var lastPlayer := Empty;
      var inARowCount := 0;
      while InBounds(row, column)
        invariant 0 <= k <= |t| && row == Advance(l.row, l.dRow, k) && column == Advance(l.col, l.dCol, k)
        invariant lastPlayer == (if k == 0 then Empty else t[k - 1])
        invariant inARowCount == (if k == 0 then 0 else RunLen(t, k - 1))
        invariant FirstFourFrom(t, k) == LineWinner(t)
        decreases if InBounds(row, column) then Reach(row, column, l.dRow) else 0
      {
        TokensFromAt(g, l.row, l.col, l.dRow, l.dCol, k);
        RunStep(t, k, lastPlayer, inARowCount);
        if grid[row, column] != lastPlayer {
          inARowCount := 0;
          lastPlayer := grid[row, column];
        }
        if grid[row, column] != Empty {
          inARowCount := inARowCount + 1;
        }
        if inARowCount == LINE_LENGTH {
          return lastPlayer;
        }
        row, column := row + l.dRow, column + l.dCol;
        k := k + 1;
      }
      TokensFromAt(g, l.row, l.col, l.dRow, l.dCol, k);
      return Empty;
    }

    /**
     * The owner of the first four-in-a-row met while scanning rows,
     * columns and the two diagonal families, or Empty.
     */
    method GetWinner() returns (w: Token)
      requires Valid()
      ensures w == Winner(board)
    {
      ghost var ls := Scan(board);
      var i := 0;
      while i < LINE_COUNT
        invariant 0 <= i <= LINE_COUNT
        invariant Winner(board) == FirstReport(ls, i)
      {
        w := WalkLine(LineAt(i));
        if w != Empty {
          return;
        }
        i := i + 1;
      }
      w := Empty;
    }

    /** The game is over once someone has won or no cell is empty. */
    method IsOver() returns (over: bool)
      requires Valid()
      ensures over == Outcome.IsOver(board)
    {
      var w := GetWinner();
      if w != Empty {
        over := true;
      } else {
        over := true;
        var i := 0;
        label outerLoop:
        while i < ROWS
          invariant 0 <= i <= ROWS
          invariant forall r, c :: 0 <= r < i && 0 <= c < COLUMNS ==> grid[r, c] != Empty
        {
          var j := 0;
          while j < COLUMNS
            invariant 0 <= j <= COLUMNS
            invariant forall c :: 0 <= c < j ==> grid[i, c] != Empty
          {
            if grid[i, j] == Empty {
              over := false;
              assert board[i][j] == Empty;
              break outerLoop;
            }
            j := j + 1;
          }
          i := i + 1;
        }
        assert forall r, c :: InBounds(r, c) ==> board[r][c] == grid[r, c];
      }
    }

    /**
     * Drops the mover's token into column when the game is live and the
     * column valid, then passes the turn unless the game is now over.
     */
    method Drop(column: int)
      requires Valid()
      modifies grid, this`board, this`curPlayer
      ensures Valid() && State() == Play(old(State()), column)
    {
      var over := IsOver();
      if !over {
        var valid := ValidColumn(column);
        if valid {
          var space := LowestAvailableSpace(column);
          grid[space, column] := curPlayer;
          board := Place(board, column, curPlayer);
        }
      }
      over := IsOver();
      if !over {
        NextPlayer();
      }
    }

    /**
     * Walks line l with the run counter and adds pointValue to points at
     * every cell where the counter equals inARow.
     */
    method ScoreLine(l: Line, inARow: int, pointValue: int, points: int) returns (pts: int)
      requires Valid() && Heading(l.dRow, l.dCol)
      ensures pts == points + pointValue * Hits(Tokens(board, l), inARow, |Tokens(board, l)|)
    {
      ghost var g, t := board, Tokens(board, l);
      ghost var k, n := 0, 0;
      var row, column := l.row, l.col;
      var lastPlayer := Empty;
      var inARowCount := 0;
      pts := points;
      while InBounds(row, column)
        invariant 0 <= k <= |t| && row == Advance(l.row, l.dRow, k) && column == Advance(l.col, l.dCol, k)
        invariant lastPlayer == (if k == 0 then Empty else t[k - 1])
        invariant inARowCount == (if k == 0 then 0 else RunLen(t, k - 1))
        invariant n == Hits(t, inARow, k) && pts == points + pointValue * n
        decreases if InBounds(row, column) then Reach(row, column, l.dRow) else 0
      {
        TokensFromAt(g, l.row, l.col, l.dRow, l.dCol, k);
        RunStep(t, k, lastPlayer, inARowCount);
        if grid[row, column] != lastPlayer {
          inARowCount := 0;
          lastPlayer := grid[row, column];
        }
        if grid[row, column] != Empty {
          inARowCount := inARowCount + 1;
        }
        if inARowCount == inARow {
          MulAdd(pointValue, n, 1);
          pts := pts + pointValue;
          n := n + 1;
        }
        row, column := row + l.dRow, column + l.dCol;
        k := k + 1;
      }
      TokensFromAt(g, l.row, l.col, l.dRow, l.dCol, k);
    }

    /**
     * The heuristic: for inARow and every shorter length down to 1, the
     * point value of that length for each cell of a scanned line where the
     * run counter equals it, added to points.
     */
    method ScoreBoard(inARow: int, points: int) returns (score: int)
      requires Valid() && 1 <= inARow
      ensures score == points + ScoreUpTo(board, inARow)
      decreases inARow
    {
      var pointValue := 1000;
      var i := inARow;
      while i < LINE_LENGTH
        invariant inARow <= i && (i <= LINE_LENGTH || i == inARow)
        invariant Shrink(pointValue, LINE_LENGTH - i) == PointValue(inARow)
      {
        pointValue := pointValue / 10;
        i := i + 1;
      }
      ghost var ls := Scan(board);
      var pts := points;
      var j := 0;
      while j < LINE_COUNT
        invariant 0 <= j <= LINE_COUNT
        invariant pts == points + pointValue * LevelHits(ls, inARow, j)
      {
        pts := ScoreLine(LineAt(j), inARow, pointValue, pts);
        MulAdd(pointValue, LevelHits(ls, inARow, j), Hits(ls[j], inARow, |ls[j]|));
        j := j + 1;
      }
      if inARow == 1 {
        score := pts;
      } else {
        score := ScoreBoard(inARow - 1, pts);
      }
    }

    /**
     * Fail-soft alpha-beta search of tempGame, depth plies below the root,
     * for this game's player to move: the result is the plain minimax value
     * when that lies inside the window (a, b) and a bound on the far side
     * of the window otherwise.
     */
    method Minimax(tempGame: ConnectFour, depth: int, a: int, b: int, maximizingPlayer: bool) returns (eval: int)
      requires tempGame.Valid() && 0 <= depth <= MAX_DEPTH && MIN_VALUE <= a < b <= MAX_VALUE
      ensures FailSoft(eval, Value(curPlayer, tempGame.State(), depth, maximizingPlayer), a, b)
      decreases MAX_DEPTH - depth, 2
    {
      var over := tempGame.IsOver();
      if over {
        var result := tempGame.GetWinner();
        if result == curPlayer {
          eval := MAX_VALUE - depth;
        } else if result == (if curPlayer == P1 then P2 else P1) {
          eval := MIN_VALUE + depth;
        } else {
          eval := 0;
        }
      } else if depth >= MAX_DEPTH {
        eval := tempGame.ScoreBoard(LINE_LENGTH, 0);
      } else if maximizingPlayer {
        eval := MaxNode(tempGame, depth, a, b);
      } else {
        eval := MinNode(tempGame, depth, a, b);
      }
    }

    /**
     * Searches the position reached by dropping into column of a copy of
     * tempGame, one ply further down, with the window (a, b).
     */
    method SearchColumn(tempGame: ConnectFour, column: int, depth: int, a: int, b: int, maximizingPlayer: bool, ghost me: Token, ghost s: Pos) returns (eval: int)
      requires tempGame.Valid() && tempGame.State() == s && me == curPlayer
      requires 0 <= depth <= MAX_DEPTH && MIN_VALUE <= a < b <= MAX_VALUE
      ensures FailSoft(eval, ChildValue(me, s, depth, column, maximizingPlayer), a, b)
      decreases MAX_DEPTH - depth, 3
    {
      var newTempGame := new ConnectFour.Copy(tempGame);
      newTempGame.Drop(column);
      eval := Minimax(newTempGame, depth, a, b, maximizingPlayer);
    }

    /**
     * The maximizing side of Minimax at a live node above the horizon: the
     * running maximum over the valid columns, raising alpha as it goes and
     * stopping once it reaches b.
     */
    method MaxNode(tempGame: ConnectFour, depth: int, a: int, b: int) returns (maxEval: int)
      requires tempGame.Valid() && 0 <= depth < MAX_DEPTH && MIN_VALUE <= a < b <= MAX_VALUE
      ensures FailSoft(maxEval, Node(curPlayer, tempGame.State(), depth + 1, true), a, b)
      decreases MAX_DEPTH - depth, 1
    {
      ghost var me, s := curPlayer, tempGame.State();
      ghost var vs, target := Children(me, s, depth + 1, false, 0), Node(me, s, depth + 1, true);
      MaxLoopStart(me, s, depth + 1, a, b);
      var alpha := a;
      maxEval := MIN_VALUE;
      ghost var p := MIN_VALUE;
      var i := 0;
      while i < COLUMNS
        invariant MaxLoop(vs, target, a, b, i, p, maxEval) && alpha == Max(a, maxEval)
      {
        var valid := tempGame.ValidColumn(i);
        if valid {
          maxEval, alpha, p := MaxChild(tempGame, depth, a, b, i, alpha, maxEval, me, s, vs, target, p);
          if maxEval >= b {
            return;
          }
        } else {
          ChildrenAt(me, s, depth + 1, false, 0, i);
          MaxLoopSkip(vs, target, a, b, i, p, maxEval);
        }
        i := i + 1;
      }
      MaxLoopDone(vs, target, a, b, p, maxEval);
    }

    /**
     * One valid column of MaxNode: searches it with the window (alpha, b)
     * and raises the running maximum and alpha by the result.
     */
    method MaxChild(tempGame: ConnectFour, depth: int, a: int, b: int, i: int, alpha: int, maxEval: int, ghost me: Token, ghost s: Pos, ghost vs: seq<Option<int>>, ghost target: int, ghost p: int)
        returns (maxEval': int, alpha': int, ghost p': int)
      requires tempGame.Valid() && tempGame.State() == s && me == curPlayer
      requires 0 <= depth < MAX_DEPTH && MIN_VALUE <= a < b <= MAX_VALUE && i < COLUMNS && ValidCol(s.grid, i)
      requires vs == Children(me, s, depth + 1, false, 0) && MaxLoop(vs, target, a, b, i, p, maxEval) && alpha == Max(a, maxEval)
      ensures alpha' == Max(a, maxEval')
      ensures maxEval' < b ==> MaxLoop(vs, target, a, b, i + 1, p', maxEval')
      ensures b <= maxEval' ==> FailSoft(maxEval', target, a, b)
      decreases MAX_DEPTH - depth, 0
    {
      var eval := SearchColumn(tempGame, i, depth + 1, alpha, b, false, me, s);
      ChildrenAt(me, s, depth + 1, false, 0, i);
      p' := MaxLoopNext(vs, target, a, b, i, p, maxEval, eval);
      maxEval' := Max(maxEval, eval);
      alpha' := Max(alpha, maxEval');
    }

    /** The minimizing side of Minimax: the mirror of MaxNode, lowering beta and stopping at a. */
    method MinNode(tempGame: ConnectFour, depth: int, a: int, b: int) returns (maxEval: int)
      requires tempGame.Valid() && 0 <= depth < MAX_DEPTH && MIN_VALUE <= a < b <= MAX_VALUE
      ensures FailSoft(maxEval, Node(curPlayer, tempGame.State(), depth + 1, false), a, b)
      decreases MAX_DEPTH - depth, 1
    {
      ghost var me, s := curPlayer, tempGame.State();
      ghost var vs, target := Children(me, s, depth + 1, true, 0), Node(me, s, depth + 1, false);
      MinLoopStart(me, s, depth + 1, a, b);
      var beta := b;
      maxEval := MAX_VALUE;
      ghost var p := MAX_VALUE;
      var i := 0;
      while i < COLUMNS
        invariant MinLoop(vs, target, a, b, i, p, maxEval) && beta == Min(b, maxEval)
      {
        var valid := tempGame.ValidColumn(i);
        if valid {
          maxEval, beta, p := MinChild(tempGame, depth, a, b, i, beta, maxEval, me, s, vs, target, p);
          if maxEval <= a {
            return;
          }
        } else {
          ChildrenAt(me, s, depth + 1, true, 0, i);
          MinLoopSkip(vs, target, a, b, i, p, maxEval);
        }
        i := i + 1;
      }
      MinLoopDone(vs, target, a, b, p, maxEval);
    }

    /** One valid column of MinNode: the mirror of MaxChild, lowering the running minimum and beta. */
    method MinChild(tempGame: ConnectFour, depth: int, a: int, b: int, i: int, beta: int, maxEval: int, ghost me: Token, ghost s: Pos, ghost vs: seq<Option<int>>, ghost target: int, ghost p: int)
        returns (maxEval': int, beta': int, ghost p': int)
      requires tempGame.Valid() && tempGame.State() == s && me == curPlayer
      requires 0 <= depth < MAX_DEPTH && MIN_VALUE <= a < b <= MAX_VALUE && i < COLUMNS && ValidCol(s.grid, i)
      requires vs == Children(me, s, depth + 1, true, 0) && MinLoop(vs, target, a, b, i, p, maxEval) && beta == Min(b, maxEval)
      ensures beta' == Min(b, maxEval')
      ensures a < maxEval' ==> MinLoop(vs, target, a, b, i + 1, p', maxEval')
      ensures maxEval' <= a ==> FailSoft(maxEval', target, a, b)
      decreases MAX_DEPTH - depth, 0
    {
      var eval := SearchColumn(tempGame, i, depth + 1, a, beta, true, me, s);
      ChildrenAt(me, s, depth + 1, true, 0, i);
      p' := MinLoopNext(vs, target, a, b, i, p, maxEval, eval);
      maxEval' := Min(maxEval, eval);
      beta' := Min(beta, maxEval');
    }

    /**
     * The columns the computer rates best, with their rating: each valid
     * column is searched to MAX_DEPTH with a window whose low end is the best
     * rating so far, a higher rating restarts the list and an equal one joins
     * it, and a win ends the loop. The list starts as [0].
     */
    method BestMoveColumns() returns (bestMoveCols: seq<int>, maxEval: int)
      requires Valid()
      ensures RootChoice(RootChildren(State()), RootValue(State()), maxEval, bestMoveCols)
    {
      ghost var s := State();
      ghost var target := RootValue(s);
      RootLoopStart(RootChildren(s));
      bestMoveCols := [0];
      var a := MIN_VALUE;
      var b := MAX_VALUE;
      maxEval := MIN_VALUE;
      var i := 0;
      while i < COLUMNS
        invariant RootLoop(RootChildren(s), target, i, maxEval, bestMoveCols) && a == maxEval && b == MAX_VALUE
      {
        var valid := ValidColumn(i);
        if valid {
          bestMoveCols, maxEval := RootChild(i, a, b, maxEval, bestMoveCols, s, target);
          a := Max(a, maxEval);
          if maxEval >= b {
            return;
          }
        } else {
          RootLoopInvalid(s, target, i, maxEval, bestMoveCols);
        }
        i := i + 1;
      }
      RootLoopDone(RootChildren(s), target, maxEval, bestMoveCols);
    }

    /** One valid column of BestMoveColumns: searched, then kept, restarting the list, or dropped. */
    method RootChild(i: int, a: int, b: int, maxEval: int, bestMoveCols: seq<int>, ghost s: Pos, ghost target: int)
        returns (bestMoveCols': seq<int>, maxEval': int)
      requires Valid() && State() == s && 0 <= i < COLUMNS && ValidCol(s.grid, i)
      requires RootLoop(RootChildren(s), target, i, maxEval, bestMoveCols) && a == maxEval && b == MAX_VALUE
      ensures maxEval' < MAX_VALUE ==> RootLoop(RootChildren(s), target, i + 1, maxEval', bestMoveCols')
      ensures maxEval' >= MAX_VALUE ==> RootChoice(RootChildren(s), target, maxEval', bestMoveCols')
    {
      ghost var vs := RootChildren(s);
      var eval := SearchColumn(this, i, 0, a, b, false, curPlayer, s);
      RootChildrenAt(s, i);
      bestMoveCols', maxEval' := bestMoveCols, maxEval;
      if eval > maxEval {
        RootLoopRaise(vs, target, i, maxEval, bestMoveCols, eval);
        maxEval' := eval;
        bestMoveCols' := [i];
      } else if eval == maxEval {
        RootLoopTie(vs, target, i, maxEval, bestMoveCols, eval);
        bestMoveCols' := bestMoveCols + [i];
      } else {
        RootLoopBelow(vs, target, i, maxEval, bestMoveCols, eval);
      }
    }

    /**
     * The minimax move: the kept column at the caller's stand-in for the
     * random index. While the game goes on it is a valid column worth at
     * most the root's value, exactly that value at index 0, and the lowest
     * immediate win whenever there is one.
     */
    method AiComputerMove(pick: nat) returns (column: int)
      requires Valid()
      ensures 0 <= column < COLUMNS
      ensures !Outcome.IsOver(board) ==> ValidCol(board, column) && ColumnValue(State(), column) <= RootValue(State())
      ensures !Outcome.IsOver(board) && pick == 0 ==> ColumnValue(State(), column) == RootValue(State())
      ensures forall i :: !Outcome.IsOver(board) && FirstWin(State(), i) ==> column == i
    {
      var bestMoveCols, maxEval := BestMoveColumns();
      var k := pick % |bestMoveCols|;
      PickIndex(pick, |bestMoveCols|);
      RootPick(State(), maxEval, bestMoveCols, k);
      column := bestMoveCols[k];
    }

    /** A valid column picked by the caller's stand-in for the random index. */
    method RandomComputerMove(pick: nat) returns (column: int)
      requires Valid() && !Full(board)
      ensures ValidColumns(board) != [] && column == ValidColumns(board)[pick % |ValidColumns(board)|]
      ensures 0 <= column < COLUMNS && ValidCol(board, column)
    {
      var validColumns := [];
      var i := 0;
      while i < COLUMNS
        invariant 0 <= i <= COLUMNS && validColumns == ValidColumnsUpTo(board, i)
      {
        var valid := ValidColumn(i);
        if valid {
          validColumns := validColumns + [i];
        }
        i := i + 1;
      }
      ValidColumnsNonEmpty(board);
      column := validColumns[pick % |validColumns|];
    }

    /**
     * The computer's turn: a random move on Easy, a random or a minimax move
     * by coin on Medium, a minimax move otherwise; the move is dropped and
     * its column returned.
     */
    method ComputerTurn(coin: bool, pick: nat) returns (column: int)
      requires Valid()
      requires difficulty == Easy || (difficulty == Medium && coin) ==> !Full(board)
      modifies grid, this`board, this`curPlayer
      ensures Valid() && State() == Play(old(State()), column)
      ensures 0 <= column < COLUMNS
      ensures (old(difficulty) == Easy || (old(difficulty) == Medium && coin)) ==>
        old(ValidColumns(board)) != [] && column == old(ValidColumns(board))[pick % |old(ValidColumns(board))|]
      ensures !(old(difficulty) == Easy || (old(difficulty) == Medium && coin)) && !old(Outcome.IsOver(board)) ==>
        ValidCol(old(board), column) && ColumnValue(old(State()), column) <= RootValue(old(State()))
      ensures !(old(difficulty) == Easy || (old(difficulty) == Medium && coin)) && !old(Outcome.IsOver(board)) && pick == 0 ==>
        ColumnValue(old(State()), column) == RootValue(old(State()))
      ensures forall i ::
        (!(old(difficulty) == Easy || (old(difficulty) == Medium && coin)) && !old(Outcome.IsOver(board)) && FirstWin(old(State()), i))
        ==> column == i
    {
      if difficulty == Easy {
        column := RandomComputerMove(pick);
      } else if difficulty == Medium {
        if coin {
          column := RandomComputerMove(pick);
        } else {
          column := AiComputerMove(pick);
        }
      } else {
        column := AiComputerMove(pick);
      }
      Drop(column);
    }

    /** The rack itself, shared with the game rather than copied; its cells are the board. */
    method GetGrid() returns (g: array2<Token>)
      requires Valid()
      ensures g == grid && g.Length0 == ROWS && g.Length1 == COLUMNS
      ensures forall r, c :: InBounds(r, c) ==> g[r, c] == board[r][c]
    {
      g := grid;
    }

    /** The player to move. */
    function CurPlayer(): (p: Token)
      reads this
      ensures p == State().cur
    {
      curPlayer
    }
  }
}
