/**
 * Plain depth-bounded minimax, the reference the engine's alpha-beta search
 * is proved against, with the bounds and root facts the engine relies on.
 */
module Search {
  import opened Board
  import opened Lines
  import opened Outcome
  import opened Heuristic
  import opened Turns

  function Max(a: int, b: int): (m: int)
    ensures m >= a && m >= b && (m == a || m == b)
  {
    if a >= b then a else b
  }

  function Min(a: int, b: int): (m: int)
    ensures m <= a && m <= b && (m == a || m == b)
  {
    if a <= b then a else b
  }

  /**
   * Score of a finished game d plies below the root, for the searching
   * player me: a win for me scores MAX_VALUE - d, a win for the other
   * player MIN_VALUE + d, anything else 0.
   */
  function Terminal(me: Token, w: Token, d: int): int
  {
    if w == me then MAX_VALUE - d
    else if w == Next(me) then MIN_VALUE + d
    else 0
  }

  /**
   * A finished game's score is in the int range, strictly inside it below
   * the root. For a real searcher, a decided game scores the two sides' values
   * MAX_VALUE - d and MIN_VALUE + d, which sum to MAX_VALUE + MIN_VALUE, and a
   * drawn one scores 0 for both; an EMPTY searcher counts a draw as its own
   * win, since EMPTY is then the token the winner is compared with.
   */
  lemma TerminalSides(me: Token, w: Token, d: int)
    ensures me != Empty && w != Empty ==> Terminal(me, w, d) + Terminal(Next(me), w, d) == MAX_VALUE + MIN_VALUE
    ensures me != Empty && w == Empty ==> Terminal(me, w, d) == 0 == Terminal(Next(me), w, d)
    ensures Terminal(Empty, Empty, d) == MAX_VALUE - d
    ensures 0 <= d <= MAX_DEPTH ==> MIN_VALUE <= Terminal(me, w, d) <= MAX_VALUE
    ensures 0 < d <= MAX_DEPTH ==> MIN_VALUE < Terminal(me, w, d) < MAX_VALUE
  {
  }

  /**
   * The unpruned minimax value, for searcher me, of position s reached d
   * plies below the root, where maximizing says whether me moves next.
   */
  function Value(me: Token, s: Pos, d: int, maximizing: bool): (v: int)
    requires WellFormed(s.grid) && 0 <= d <= MAX_DEPTH
    ensures MIN_VALUE <= v <= MAX_VALUE
    decreases MAX_DEPTH - d, 1, 0
  {
    if IsOver(s.grid) then Terminal(me, Winner(s.grid), d)
    else if d >= MAX_DEPTH then Score(s.grid)
    else Node(me, s, d + 1, maximizing)
  }

  /** The value at depth cd of the position that dropping into column i of s leads to. */
  function ChildValue(me: Token, s: Pos, cd: int, i: int, maximizing: bool): (v: int)
    requires WellFormed(s.grid) && 0 <= cd <= MAX_DEPTH
    ensures MIN_VALUE <= v <= MAX_VALUE
    decreases MAX_DEPTH - cd, 1, 1
  {
    Value(me, Play(s, i), cd, maximizing)
  }

  /** The accumulator a node starts from: the worst value for the side that moves. */
  function Seed(maximizing: bool): int
  {
    if maximizing then MIN_VALUE else MAX_VALUE
  }

  datatype Option<T> = None | Some(value: T)

  /**
   * For each column from i on, the value at depth cd of the position that
   * dropping there leads to, or None when the column is not valid in s.
   */
  function Children(me: Token, s: Pos, cd: int, maximizing: bool, i: int): (vs: seq<Option<int>>)
    requires WellFormed(s.grid) && 0 <= cd <= MAX_DEPTH && 0 <= i <= COLUMNS
    ensures |vs| == COLUMNS - i && InRange(vs)
    decreases MAX_DEPTH - cd, 2, COLUMNS - i
  {
    if i == COLUMNS then [] else [Entry(me, s, cd, i, maximizing)] + Children(me, s, cd, maximizing, i + 1)
  }

  /** The value at depth cd of the position that dropping into column i of s leads to, or None when i is not valid in s. */
  function Entry(me: Token, s: Pos, cd: int, i: int, maximizing: bool): (e: Option<int>)
    requires WellFormed(s.grid) && 0 <= cd <= MAX_DEPTH
    ensures e.Some? ==> MIN_VALUE <= e.value <= MAX_VALUE
    decreases MAX_DEPTH - cd, 1, 2
  {
    if ValidCol(s.grid, i) then Some(ChildValue(me, s, cd, i, maximizing)) else None
  }

  /** Every value listed in vs lies between the two sentinels. */
  predicate InRange(vs: seq<Option<int>>)
  {
    forall k :: 0 <= k < |vs| && vs[k].Some? ==> MIN_VALUE <= vs[k].value <= MAX_VALUE
  }

  /** The value of a live node whose children lie at depth cd: the best of its valid children for the side that moves. */
  function Node(me: Token, s: Pos, cd: int, maximizing: bool): (v: int)
    requires WellFormed(s.grid) && 0 <= cd <= MAX_DEPTH
    ensures MIN_VALUE <= v <= MAX_VALUE
    decreases MAX_DEPTH - cd, 3, 0
  {
    Best(Children(me, s, cd, !maximizing, 0), maximizing, 0, Seed(maximizing))
  }

  /**
   * acc combined, by max when maximizing and by min otherwise, with the
   * values listed in vs from position i on.
   */
  function Best(vs: seq<Option<int>>, maximizing: bool, i: int, acc: int): (v: int)
    requires InRange(vs) && 0 <= i <= |vs| && MIN_VALUE <= acc <= MAX_VALUE
    ensures MIN_VALUE <= v <= MAX_VALUE
    ensures maximizing ==> v >= acc
    ensures !maximizing ==> v <= acc
    decreases |vs| - i
  {
    if i == |vs| then acc
    else if vs[i].None? then Best(vs, maximizing, i + 1, acc)
    else Best(vs, maximizing, i + 1, if maximizing then Max(acc, vs[i].value) else Min(acc, vs[i].value))
  }

  /** Children lists column j at position j - i. */
  lemma {:induction false} ChildrenAt(me: Token, s: Pos, cd: int, maximizing: bool, i: int, j: int)
    requires WellFormed(s.grid) && 0 <= cd <= MAX_DEPTH && 0 <= i <= j < COLUMNS
    ensures Children(me, s, cd, maximizing, i)[j - i] == Children(me, s, cd, maximizing, j)[0]
    decreases COLUMNS - i
  {
    if i < j {
      ChildrenAt(me, s, cd, maximizing, i + 1, j);
    }
  }

  /** The value of the root s: the best, for its mover, of its valid columns. */
  function RootValue(s: Pos): int
    requires WellFormed(s.grid)
  {
    Node(s.cur, s, 0, true)
  }

  /** The unpruned value of dropping into column i at the root s. */
  function ColumnValue(s: Pos, i: int): int
    requires WellFormed(s.grid)
  {
    ChildValue(s.cur, s, 0, i, false)
  }

  /**
   * The fail-soft alpha-beta contract: r is the value v itself when v lies
   * strictly inside the window (a, b), a bound between v and a when v <= a,
   * and a bound between b and v when v >= b.
   */
  predicate FailSoft(r: int, v: int, a: int, b: int)
  {
    (a < v < b ==> r == v) && (v <= a ==> v <= r <= a) && (b <= v ==> b <= r <= v)
  }

  /**
   * One child of a maximizing node, searched with the window (Max(a, m), b):
   * m stays between the exact fold p and Max(a, p), or, once it reaches b,
   * between b and the exact fold.
   */
  lemma MaxStep(a: int, b: int, p: int, m: int, v: int, e: int)
    requires a < b && p <= m <= Max(a, p) && m < b
    requires FailSoft(e, v, Max(a, m), b)
    ensures Max(m, e) < b ==> Max(p, v) <= Max(m, e) <= Max(a, Max(p, v))
    ensures b <= Max(m, e) ==> Max(m, e) <= Max(p, v)
  {
  }

  /** One child of a minimizing node, searched with the window (a, Min(b, m)); the mirror of MaxStep. */
  lemma MinStep(a: int, b: int, p: int, m: int, v: int, e: int)
    requires a < b && Min(b, p) <= m <= p && a < m
    requires FailSoft(e, v, a, Min(b, m))
    ensures a < Min(m, e) ==> Min(b, Min(p, v)) <= Min(m, e) <= Min(p, v)
    ensures Min(m, e) <= a ==> Min(p, v) <= Min(m, e)
  {
  }

  /**
   * One column at the root, searched with the window (m, MAX_VALUE): the
   * returned e moves the running best m exactly as the true value v would,
   * it beats m only when v does and then equals v, and otherwise v <= m.
   */
  lemma RootStep(m: int, v: int, e: int)
    requires MIN_VALUE <= m < MAX_VALUE && v <= MAX_VALUE
    requires FailSoft(e, v, m, MAX_VALUE)
    ensures Max(m, e) == Max(m, v)
    ensures e > m <==> v > m
    ensures e > m ==> e == v
    ensures e == m ==> v <= m
  {
  }

  /**
   * The loop of a maximizing node after the columns below i, where vs are
   * the children's values and target the node's value: p is the exact fold
   * so far, and the running maximum m lies between p and Max(a, p), still
   * below b.
   */
  predicate MaxLoop(vs: seq<Option<int>>, target: int, a: int, b: int, i: int, p: int, m: int)
  {
    InRange(vs) && 0 <= i <= |vs| && MIN_VALUE <= p <= MAX_VALUE
    && target == Best(vs, true, i, p)
    && p <= m <= Max(a, p) && m < b
  }

  lemma MaxLoopStart(me: Token, s: Pos, cd: int, a: int, b: int)
    requires WellFormed(s.grid) && 0 <= cd <= MAX_DEPTH && MIN_VALUE <= a < b
    ensures MaxLoop(Children(me, s, cd, false, 0), Node(me, s, cd, true), a, b, 0, MIN_VALUE, MIN_VALUE)
  {
  }

  /** An invalid column leaves a maximizing node's loop as it was. */
  lemma MaxLoopSkip(vs: seq<Option<int>>, target: int, a: int, b: int, i: int, p: int, m: int)
    requires MaxLoop(vs, target, a, b, i, p, m) && i < |vs| && vs[i].None?
    ensures MaxLoop(vs, target, a, b, i + 1, p, m)
  {
  }

  /**
   * A valid column i of a maximizing node, searched with the window
   * (Max(a, m), b): the loop goes on, with the exact fold p' and the new
   * maximum, while that stays below b, and otherwise the new maximum
   * already bounds the node from b.
   */
  lemma MaxLoopNext(vs: seq<Option<int>>, target: int, a: int, b: int, i: int, p: int, m: int, e: int) returns (p': int)
    requires a < b
    requires MaxLoop(vs, target, a, b, i, p, m) && i < |vs| && vs[i].Some?
    requires FailSoft(e, vs[i].value, Max(a, m), b)
    ensures Max(Max(a, m), Max(m, e)) == Max(a, Max(m, e))
    ensures Max(m, e) < b ==> MaxLoop(vs, target, a, b, i + 1, p', Max(m, e))
    ensures b <= Max(m, e) ==> FailSoft(Max(m, e), target, a, b)
  {
    MaxStep(a, b, p, m, vs[i].value, e);
    p' := Max(p, vs[i].value);
  }

  lemma MaxLoopDone(vs: seq<Option<int>>, target: int, a: int, b: int, p: int, m: int)
    requires MaxLoop(vs, target, a, b, |vs|, p, m)
    ensures FailSoft(m, target, a, b)
  {
  }

  /** The loop of a minimizing node: the mirror of MaxLoop, the running minimum staying above a. */
  predicate MinLoop(vs: seq<Option<int>>, target: int, a: int, b: int, i: int, p: int, m: int)
  {
    InRange(vs) && 0 <= i <= |vs| && MIN_VALUE <= p <= MAX_VALUE
    && target == Best(vs, false, i, p)
    && Min(b, p) <= m <= p && a < m
  }

  lemma MinLoopStart(me: Token, s: Pos, cd: int, a: int, b: int)
    requires WellFormed(s.grid) && 0 <= cd <= MAX_DEPTH && a < b <= MAX_VALUE
    ensures MinLoop(Children(me, s, cd, true, 0), Node(me, s, cd, false), a, b, 0, MAX_VALUE, MAX_VALUE)
  {
  }

  /** An invalid column leaves a minimizing node's loop as it was. */
  lemma MinLoopSkip(vs: seq<Option<int>>, target: int, a: int, b: int, i: int, p: int, m: int)
    requires MinLoop(vs, target, a, b, i, p, m) && i < |vs| && vs[i].None?
    ensures MinLoop(vs, target, a, b, i + 1, p, m)
  {
  }

  /** A valid column i of a minimizing node, searched with the window (a, Min(b, m)); the mirror of MaxLoopNext. */
  lemma MinLoopNext(vs: seq<Option<int>>, target: int, a: int, b: int, i: int, p: int, m: int, e: int) returns (p': int)
    requires a < b
    requires MinLoop(vs, target, a, b, i, p, m) && i < |vs| && vs[i].Some?
    requires FailSoft(e, vs[i].value, a, Min(b, m))
    ensures Min(Min(b, m), Min(m, e)) == Min(b, Min(m, e))
    ensures a < Min(m, e) ==> MinLoop(vs, target, a, b, i + 1, p', Min(m, e))
    ensures Min(m, e) <= a ==> FailSoft(Min(m, e), target, a, b)
  {
    MinStep(a, b, p, m, vs[i].value, e);
    p' := Min(p, vs[i].value);
  }

  lemma MinLoopDone(vs: seq<Option<int>>, target: int, a: int, b: int, p: int, m: int)
    requires MinLoop(vs, target, a, b, |vs|, p, m)
    ensures FailSoft(m, target, a, b)
  {
  }

  /** Column c is listed in vs with a value no better than m. */
  predicate Kept(vs: seq<Option<int>>, c: int, m: int)
  {
    0 <= c < |vs| && vs[c].Some? && vs[c].value <= m
  }

  /**
   * What the root loop of the computer's move choice has gathered from the
   * columns below i of the root's children vs, whose best value is target:
   * m is the best value so far, exact since the window's low end follows it,
   * and cols the kept columns in ascending order. The list starts as [0];
   * once m rises above MIN_VALUE its head is the lowest column reaching m,
   * every column reaching m is kept, and the rest of the list are columns
   * whose search returned m, which under fail-soft pruning only bounds
   * their value from above.
   */
  predicate RootLoop(vs: seq<Option<int>>, target: int, i: int, m: int, cols: seq<int>)
  {
    InRange(vs) && 0 <= i <= |vs| && MIN_VALUE <= m < MAX_VALUE && target == Best(vs, true, i, m)
    && |cols| >= 1 && (m == MIN_VALUE ==> cols[0] == 0)
    && (forall a, b :: 0 <= a < b < |cols| ==> cols[a] <= cols[b])
    && (forall k :: 0 < k < |cols| ==> cols[k] < i)
    && (forall k :: 0 <= k < |cols| && (k > 0 || m > MIN_VALUE) ==> Kept(vs, cols[k], m))
    && (forall j :: 0 <= j < i && vs[j].Some? ==> vs[j].value <= m)
    && (forall j :: 0 <= j < i && vs[j].Some? && vs[j].value == m ==> j in cols)
    && (m > MIN_VALUE ==> cols[0] < i && vs[cols[0]] == Some(m))
    && (forall j :: 0 <= j < cols[0] && vs[j].Some? ==> vs[j].value < m)
  }

  /**
   * What the root loop hands back: m is the best value target of the
   * children, every listed column is at most m, the head of cols is the
   * lowest column reaching m (column 0 when nothing beats MIN_VALUE), every
   * column reaching m is kept unless m is a win, and a win keeps only its
   * column.
   */
  predicate RootChoice(vs: seq<Option<int>>, target: int, m: int, cols: seq<int>)
  {
    m == target && |cols| >= 1 && (m == MIN_VALUE ==> cols[0] == 0)
    && (forall a, b :: 0 <= a < b < |cols| ==> cols[a] <= cols[b])
    && (forall k :: 0 <= k < |cols| && (k > 0 || m > MIN_VALUE) ==> Kept(vs, cols[k], m))
    && (forall j :: 0 <= j < |vs| && vs[j].Some? ==> vs[j].value <= m)
    && (m > MIN_VALUE ==> vs[cols[0]] == Some(m))
    && (forall j :: 0 <= j < cols[0] && j < |vs| && vs[j].Some? ==> vs[j].value < m)
    && (m < MAX_VALUE ==> forall j :: 0 <= j < |vs| && vs[j].Some? && vs[j].value == m ==> j in cols)
    && (m == MAX_VALUE ==> |cols| == 1)
  }

  lemma RootLoopStart(vs: seq<Option<int>>)
    requires InRange(vs)
    ensures RootLoop(vs, Best(vs, true, 0, MIN_VALUE), 0, MIN_VALUE, [0])
  {
  }

  /** A column that is not valid leaves the root loop as it was. */
  lemma RootLoopSkip(vs: seq<Option<int>>, target: int, i: int, m: int, cols: seq<int>)
    requires RootLoop(vs, target, i, m, cols) && i < |vs| && vs[i].None?
    ensures RootLoop(vs, target, i + 1, m, cols)
  {
  }

  /**
   * A valid column i whose search with the window (m, MAX_VALUE) returns e
   * above m: e is the column's value, the list restarts with i, and the
   * loop goes on unless e is a win, which ends the choice.
   */
  lemma RootLoopRaise(vs: seq<Option<int>>, target: int, i: int, m: int, cols: seq<int>, e: int)
    requires RootLoop(vs, target, i, m, cols) && i < |vs| && vs[i].Some?
    requires FailSoft(e, vs[i].value, m, MAX_VALUE) && e > m
    ensures e < MAX_VALUE ==> RootLoop(vs, target, i + 1, e, [i])
    ensures e >= MAX_VALUE ==> RootChoice(vs, target, e, [i])
  {
    RootStep(m, vs[i].value, e);
    if e >= MAX_VALUE {
      forall j | 0 <= j < |vs| && vs[j].Some?
        ensures vs[j].value <= e
      {
      }
    }
  }

  /**
   * A valid column i whose search returns exactly m: its value is at most
   * m, equal to m when it ties the best, and i joins the list.
   */
  lemma RootLoopTie(vs: seq<Option<int>>, target: int, i: int, m: int, cols: seq<int>, e: int)
    requires RootLoop(vs, target, i, m, cols) && i < |vs| && vs[i].Some?
    requires FailSoft(e, vs[i].value, m, MAX_VALUE) && e == m
    ensures RootLoop(vs, target, i + 1, m, cols + [i])
  {
    var cols' := cols + [i];
    forall j | 0 <= j < i + 1 && vs[j].Some? && vs[j].value == m
      ensures j in cols'
    {
      if j < i {
        assert j in cols;
      } else {
        assert cols'[|cols|] == j;
      }
    }
  }

  /** A valid column i whose search returns less than m: its value is too, and the list stays. */
  lemma RootLoopBelow(vs: seq<Option<int>>, target: int, i: int, m: int, cols: seq<int>, e: int)
    requires RootLoop(vs, target, i, m, cols) && i < |vs| && vs[i].Some?
    requires FailSoft(e, vs[i].value, m, MAX_VALUE) && e < m
    ensures RootLoop(vs, target, i + 1, m, cols)
  {
  }

  lemma RootLoopDone(vs: seq<Option<int>>, target: int, m: int, cols: seq<int>)
    requires RootLoop(vs, target, |vs|, m, cols)
    ensures RootChoice(vs, target, m, cols)
  {
  }

  /** The root's children: each column's value, or None when it is not valid. */
  function RootChildren(s: Pos): (vs: seq<Option<int>>)
    requires WellFormed(s.grid)
    ensures |vs| == COLUMNS && InRange(vs)
  {
    Children(s.cur, s, 0, false, 0)
  }

  /** Column j of the root's children is listed exactly when it is valid, and then with its value. */
  lemma RootChildrenAt(s: Pos, j: int)
    requires WellFormed(s.grid) && 0 <= j < COLUMNS
    ensures RootChildren(s)[j].Some? == ValidCol(s.grid, j)
    ensures ValidCol(s.grid, j) ==> RootChildren(s)[j].value == ColumnValue(s, j)
  {
    ChildrenAt(s.cur, s, 0, false, 0, j);
  }

  /**
   * The root choice read in terms of the game: m is the root's value and no
   * valid column is worth more; every kept column is valid and worth at
   * most m; once m beats MIN_VALUE the head of the list is the lowest
   * column worth m; every column worth m is kept unless m is a win, and a
   * win keeps only one column.
   */
  lemma RootChoiceColumns(s: Pos, m: int, cols: seq<int>)
    requires WellFormed(s.grid) && RootChoice(RootChildren(s), RootValue(s), m, cols)
    ensures m == RootValue(s) && |cols| >= 1
    ensures forall j :: 0 <= j < COLUMNS && ValidCol(s.grid, j) ==> ColumnValue(s, j) <= m
    ensures forall k :: 0 <= k < |cols| && (k > 0 || m > MIN_VALUE) ==>
      0 <= cols[k] < COLUMNS && ValidCol(s.grid, cols[k]) && ColumnValue(s, cols[k]) <= m
    ensures m == MIN_VALUE ==> cols[0] == 0
    ensures m > MIN_VALUE ==> ColumnValue(s, cols[0]) == m
    ensures forall j :: 0 <= j < cols[0] && ValidCol(s.grid, j) ==> ColumnValue(s, j) < m
    ensures m < MAX_VALUE ==> forall j :: 0 <= j < COLUMNS && ValidCol(s.grid, j) && ColumnValue(s, j) == m ==> j in cols
    ensures m == MAX_VALUE ==> |cols| == 1
  {
    var vs := RootChildren(s);
    forall j | 0 <= j < COLUMNS
      ensures vs[j].Some? == ValidCol(s.grid, j)
      ensures ValidCol(s.grid, j) ==> vs[j].value == ColumnValue(s, j)
    {
      RootChildrenAt(s, j);
    }
  }

  /** Dropping into column i at the root wins the game at once for the mover. */
  predicate WinsAt(s: Pos, i: int)
    requires WellFormed(s.grid)
  {
    ValidCol(s.grid, i) && s.cur != Empty && Winner(Play(s, i).grid) == s.cur
  }

  /** i is the lowest column that wins at once. */
  predicate FirstWin(s: Pos, i: int)
    requires WellFormed(s.grid)
  {
    WinsAt(s, i) && forall j :: 0 <= j < i ==> !WinsAt(s, j)
  }

  /** While the game goes on, some column is playable and beats MIN_VALUE, so the chosen head is a valid column. */
  lemma RootChoiceLive(s: Pos, m: int, cols: seq<int>)
    requires WellFormed(s.grid) && !IsOver(s.grid) && RootChoice(RootChildren(s), RootValue(s), m, cols)
    ensures m > MIN_VALUE && ValidCol(s.grid, cols[0])
  {
    NotFullHasValidCol(s.grid);
    var c :| ValidCol(s.grid, c);
    ColumnValueAtRoot(s, c);
    RootChoiceColumns(s, m, cols);
  }

  /** When a column wins at once, the choice keeps the lowest such column and nothing else. */
  lemma RootChoiceWin(s: Pos, m: int, cols: seq<int>, i: int)
    requires WellFormed(s.grid) && !IsOver(s.grid) && RootChoice(RootChildren(s), RootValue(s), m, cols)
    requires FirstWin(s, i)
    ensures cols == [i]
  {
    RootChoiceColumns(s, m, cols);
    ColumnValueAtRoot(s, i);
    assert m == MAX_VALUE;
    ColumnValueAtRoot(s, cols[0]);
    assert WinsAt(s, cols[0]);
  }

  /** A column that is not valid at the root leaves the root loop as it was. */
  lemma RootLoopInvalid(s: Pos, target: int, i: int, m: int, cols: seq<int>)
    requires WellFormed(s.grid) && RootLoop(RootChildren(s), target, i, m, cols) && i < COLUMNS && !ValidCol(s.grid, i)
    ensures RootLoop(RootChildren(s), target, i + 1, m, cols)
  {
    RootChildrenAt(s, i);
    RootLoopSkip(RootChildren(s), target, i, m, cols);
  }

  /**
   * The k-th kept column of a root choice: on the board; while the game
   * goes on a valid column worth at most the root's value, worth exactly
   * that at the head of the list; and the lowest immediate win whenever
   * there is one.
   */
  lemma RootPick(s: Pos, m: int, cols: seq<int>, k: int)
    requires WellFormed(s.grid) && RootChoice(RootChildren(s), RootValue(s), m, cols) && 0 <= k < |cols|
    ensures 0 <= cols[k] < COLUMNS
    ensures !IsOver(s.grid) ==> ValidCol(s.grid, cols[k]) && ColumnValue(s, cols[k]) <= RootValue(s)
    ensures !IsOver(s.grid) && k == 0 ==> ColumnValue(s, cols[k]) == RootValue(s)
    ensures forall i :: !IsOver(s.grid) && FirstWin(s, i) ==> cols[k] == i
  {
    RootChoiceColumns(s, m, cols);
    if !IsOver(s.grid) {
      RootChoiceLive(s, m, cols);
    }
    forall i | !IsOver(s.grid) && FirstWin(s, i)
      ensures cols[k] == i
    {
      RootChoiceWin(s, m, cols, i);
    }
  }

  /**
   * A pick reduced modulo n is an index below n, and a pick of 0 gives index
   * 0; this is the step from the caller's stand-in for rand.nextInt to the
   * entry of the best-move list that AiComputerMove plays.
   */
  lemma PickIndex(pick: nat, n: int)
    requires n > 0
    ensures 0 <= pick % n < n && (pick == 0 ==> pick % n == 0)
  {
  }

  /** The fold is at least (at most, when minimizing) every value listed from position i on. */
  lemma {:induction false} BestCoversChild(vs: seq<Option<int>>, maximizing: bool, i: int, acc: int, j: int)
    requires InRange(vs) && 0 <= i <= j < |vs| && vs[j].Some? && MIN_VALUE <= acc <= MAX_VALUE
    ensures maximizing ==> Best(vs, maximizing, i, acc) >= vs[j].value
    ensures !maximizing ==> Best(vs, maximizing, i, acc) <= vs[j].value
    decreases |vs| - i
  {
    if i < j {
      var next := if vs[i].None? then acc else if maximizing then Max(acc, vs[i].value) else Min(acc, vs[i].value);
      BestCoversChild(vs, maximizing, i + 1, next, j);
    }
  }

  /** Every value listed in vs lies strictly between the two sentinels. */
  predicate Strict(vs: seq<Option<int>>)
  {
    forall k :: 0 <= k < |vs| && vs[k].Some? ==> MIN_VALUE < vs[k].value < MAX_VALUE
  }

  /** Folding values that lie strictly between the sentinels into an acc that does keeps the fold strictly inside too. */
  lemma {:induction false} BestStrict(vs: seq<Option<int>>, maximizing: bool, i: int, acc: int)
    requires InRange(vs) && Strict(vs) && 0 <= i <= |vs| && MIN_VALUE <= acc <= MAX_VALUE
    ensures MIN_VALUE < acc ==> MIN_VALUE < Best(vs, maximizing, i, acc)
    ensures acc < MAX_VALUE ==> Best(vs, maximizing, i, acc) < MAX_VALUE
    decreases |vs| - i
  {
    if i < |vs| {
      var next := if vs[i].None? then acc else if maximizing then Max(acc, vs[i].value) else Min(acc, vs[i].value);
      BestStrict(vs, maximizing, i + 1, next);
    }
  }

  /** Below the root, the values of the children from column i on lie strictly between the sentinels. */
  lemma {:induction false} ChildrenStrict(me: Token, s: Pos, cd: int, maximizing: bool, i: int)
    requires WellFormed(s.grid) && 1 <= cd <= MAX_DEPTH && 0 <= i <= COLUMNS
    ensures Strict(Children(me, s, cd, maximizing, i))
    decreases MAX_DEPTH - cd, 3, COLUMNS - i
  {
    if i < COLUMNS {
      EntryStrict(me, s, cd, i, maximizing);
      ChildrenStrict(me, s, cd, maximizing, i + 1);
    }
  }

  /** Below the root, the value of a valid column lies strictly between the sentinels. */
  lemma {:induction false} EntryStrict(me: Token, s: Pos, cd: int, i: int, maximizing: bool)
    requires WellFormed(s.grid) && 1 <= cd <= MAX_DEPTH
    ensures Entry(me, s, cd, i, maximizing).Some? ==> MIN_VALUE < Entry(me, s, cd, i, maximizing).value < MAX_VALUE
    decreases MAX_DEPTH - cd, 2, 0
  {
    if ValidCol(s.grid, i) {
      ValueStrict(me, Play(s, i), cd, maximizing);
    }
  }

  /**
   * Below the root, a node with a valid column lies strictly between the
   * sentinels whichever side moves: the seed is beaten by some child.
   */
  lemma {:induction false} InteriorStrict(me: Token, s: Pos, cd: int, maximizing: bool)
    requires WellFormed(s.grid) && !Full(s.grid) && 1 <= cd <= MAX_DEPTH
    ensures MIN_VALUE < Node(me, s, cd, maximizing) < MAX_VALUE
    decreases MAX_DEPTH - cd, 4, 0
  {
    NotFullHasValidCol(s.grid);
    var j :| ValidCol(s.grid, j);
    var vs := Children(me, s, cd, !maximizing, 0);
    ChildrenAt(me, s, cd, !maximizing, 0, j);
    ChildrenStrict(me, s, cd, !maximizing, 0);
    BestCoversChild(vs, maximizing, 0, Seed(maximizing), j);
    BestStrict(vs, maximizing, 0, Seed(maximizing));
  }

  /** Below the root every value lies strictly between the two sentinels. */
  lemma {:induction false} ValueStrict(me: Token, s: Pos, d: int, maximizing: bool)
    requires WellFormed(s.grid) && 1 <= d <= MAX_DEPTH
    ensures MIN_VALUE < Value(me, s, d, maximizing) < MAX_VALUE
    decreases MAX_DEPTH - d, 1, 0
  {
    if !IsOver(s.grid) && d < MAX_DEPTH {
      InteriorStrict(me, s, d + 1, maximizing);
    }
  }

  /** Dropping the empty token changes nothing. */
  lemma PlaceEmpty(g: Grid, c: int)
    requires WellFormed(g) && ValidCol(g, c)
    ensures Place(g, c, Empty) == g
  {
    GridExt(Place(g, c, Empty), g);
  }

  /**
   * At a live root, every valid column is worth more than MIN_VALUE, and it
   * is worth MAX_VALUE exactly when it wins at once.
   */
  lemma ColumnValueAtRoot(s: Pos, i: int)
    requires WellFormed(s.grid) && !IsOver(s.grid) && ValidCol(s.grid, i)
    ensures MIN_VALUE < ColumnValue(s, i)
    ensures ColumnValue(s, i) == MAX_VALUE <==> WinsAt(s, i)
  {
    var t := Play(s, i);
    DropLive(s, i);
    if s.cur == Empty {
      PlaceEmpty(s.grid, i);
    }
    if !IsOver(t.grid) {
      InteriorStrict(s.cur, t, 1, false);
    }
  }
}
