/**
 * MazeProblem: the grid, its initial and key states, its goal states, the moves
 * between positions, their costs, and the replay of a candidate solution.
 */
module Maze {
  import opened Wrappers
  import opened Coordinates

  /** The four action strings "U", "D", "L", "R". */
  datatype Action = U | D | L | R

  function Abs(x: int): nat {
    if x < 0 then -x else x
  }

  /** The offset of an action: one cell; up and left decrease the row and the column. */
  function Offset(a: Action): (o: Pos)
    ensures Abs(o.col) + Abs(o.row) == 1
    ensures (a == U <==> o.row < 0) && (a == D <==> o.row > 0)
    ensures (a == L <==> o.col < 0) && (a == R <==> o.col > 0)
  {
    match a
    case U => Pos(0, -1)
    case D => Pos(0, 1)
    case L => Pos(-1, 0)
    case R => Pos(1, 0)
  }

  /** TRANS_MAP: every action, mapped to its offset. */
  function CreateTransitions(): (m: map<Action, Pos>)
    ensures m.Keys == {U, D, L, R}
    ensures forall a | a in m :: m[a] == Offset(a)
  {
    map[U := Offset(U), D := Offset(D), L := Offset(L), R := Offset(R)]
  }

  /** The table getTransitions and testSolution read the offsets from. */
  const TransMap: map<Action, Pos> := CreateTransitions()

  lemma TransMapCovers(a: Action)
    ensures a in TransMap && TransMap[a] == Offset(a)
  {
    match a
    case U =>
    case D =>
    case L =>
    case R =>
  }

  /**
   * The order in which a default-capacity Java HashMap keyed by these one-letter
   * strings visits its entries: the hash codes 82, 68, 85, 76 of "R", "D", "U", "L"
   * fall into buckets 2, 4, 5 and 12.
   */
  const EntryOrder: seq<Action> := [R, D, U, L]

  /** The position reached from p after all of acts. */
  function Final(p: Pos, acts: seq<Action>): Pos
    decreases |acts|
  {
    if acts == [] then p else Final(p, acts[..|acts| - 1]).Plus(Offset(acts[|acts| - 1]))
  }

  /** The positions entered, one per action, on replaying acts from p. */
  function Walk(p: Pos, acts: seq<Action>): (w: seq<Pos>)
    ensures |w| == |acts|
    ensures forall j | 0 <= j < |acts| :: w[j] == Final(p, acts[..j + 1])
  {
    seq(|acts|, j requires 0 <= j < |acts| => Final(p, acts[..j + 1]))
  }

  lemma WalkSnoc(p: Pos, acts: seq<Action>, a: Action)
    ensures Final(p, acts + [a]) == Final(p, acts).Plus(Offset(a))
    ensures Walk(p, acts + [a]) == Walk(p, acts) + [Final(p, acts + [a])]
  {
    assert (acts + [a])[..|acts|] == acts;
    forall j | 0 <= j < |acts|
      ensures Walk(p, acts + [a])[j] == Walk(p, acts)[j]
    {
      assert (acts + [a])[..j + 1] == acts[..j + 1];
    }
    assert (acts + [a])[..|acts| + 1] == acts + [a];
  }

  // ---------------------------------------------------------------------------
  // The grid, as the constructor reads it

  function Cols(maze: seq<string>): nat {
    if |maze| == 0 then 0 else |maze[0]|
  }

  /**
   * No row is shorter than the first, whose length is the number of columns read
   * from every row; a shorter row makes the constructor fail with an index error.
   */
  predicate WideRows(maze: seq<string>) {
    forall r | 0 <= r < |maze| :: |maze[r]| >= Cols(maze)
  }

  predicate KnownCell(c: char) {
    c == 'I' || c == 'G' || c == 'K' || c == '.' || c == 'X' || c == 'M'
  }

  /** Cell (r, c) lies in the grid and comes before (row, col) in row-major order. */
  ghost predicate Before(maze: seq<string>, r: int, c: int, row: int, col: int) {
    0 <= r < |maze| && 0 <= c < Cols(maze) && (r < row || (r == row && c < col))
  }

  ghost predicate AllKnownBefore(maze: seq<string>, row: int, col: int)
    requires WideRows(maze)
  {
    forall r, c | Before(maze, r, c, row, col) :: KnownCell(maze[r][c])
  }

  ghost predicate AllKnown(maze: seq<string>)
    requires WideRows(maze)
  {
    forall r, c | 0 <= r < |maze| && 0 <= c < Cols(maze) :: KnownCell(maze[r][c])
  }

  /** o is the last cell holding ch among the cells before (row, col), or None if there is none. */
  ghost predicate LastBefore(maze: seq<string>, ch: char, o: Option<Pos>, row: int, col: int)
    requires WideRows(maze)
  {
    match o
    case None => forall r, c | Before(maze, r, c, row, col) :: maze[r][c] != ch
    case Some(p) =>
      && Before(maze, p.row, p.col, row, col) && maze[p.row][p.col] == ch
      && forall r, c | Before(maze, r, c, row, col) && (r > p.row || (r == p.row && c > p.col)) :: maze[r][c] != ch
  }

  /** o is the last cell holding ch in row-major order, or None if no cell holds ch. */
  ghost predicate LastOf(maze: seq<string>, ch: char, o: Option<Pos>)
    requires WideRows(maze)
  {
    match o
    case None => forall r, c | 0 <= r < |maze| && 0 <= c < Cols(maze) :: maze[r][c] != ch
    case Some(p) =>
      && 0 <= p.row < |maze| && 0 <= p.col < Cols(maze) && maze[p.row][p.col] == ch
      && forall r, c | 0 <= r < |maze| && 0 <= c < Cols(maze) && (r > p.row || (r == p.row && c > p.col)) :: maze[r][c] != ch
  }

  ghost function GoalsBefore(maze: seq<string>, row: int, col: int): set<Pos>
    requires WideRows(maze)
  {
    set r, c | 0 <= r < |maze| && 0 <= c < Cols(maze) && Before(maze, r, c, row, col) && maze[r][c] == 'G' :: Pos(c, r)
  }

  /** The (col, row) positions of all 'G' cells. */
  function GoalsOf(maze: seq<string>): set<Pos>
    requires WideRows(maze)
  {
    set r, c | 0 <= r < |maze| && 0 <= c < Cols(maze) && maze[r][c] == 'G' :: Pos(c, r)
  }

  lemma LastBeforeStep(maze: seq<string>, ch: char, o: Option<Pos>, row: int, col: int)
    requires WideRows(maze) && 0 <= row < |maze| && 0 <= col < Cols(maze)
    requires LastBefore(maze, ch, o, row, col)
    ensures LastBefore(maze, ch, if maze[row][col] == ch then Some(Pos(col, row)) else o, row, col + 1)
  {
  }

  lemma LastBeforeNextRow(maze: seq<string>, ch: char, o: Option<Pos>, row: int)
    requires WideRows(maze) && 0 <= row < |maze|
    requires LastBefore(maze, ch, o, row, Cols(maze))
    ensures LastBefore(maze, ch, o, row + 1, 0)
  {
    assert forall r, c :: Before(maze, r, c, row + 1, 0) <==> Before(maze, r, c, row, Cols(maze));
  }

  lemma LastBeforeAll(maze: seq<string>, ch: char, o: Option<Pos>)
    requires WideRows(maze)
    requires LastBefore(maze, ch, o, |maze|, 0)
    ensures LastOf(maze, ch, o)
  {
    assert forall r, c :: Before(maze, r, c, |maze|, 0) <==> 0 <= r < |maze| && 0 <= c < Cols(maze);
  }

  lemma AllKnownBeforeStep(maze: seq<string>, row: int, col: int)
    requires WideRows(maze) && 0 <= row < |maze| && 0 <= col < Cols(maze)
    requires AllKnownBefore(maze, row, col) && KnownCell(maze[row][col])
    ensures AllKnownBefore(maze, row, col + 1)
  {
  }

  lemma GoalsBeforeStep(maze: seq<string>, row: int, col: int)
    requires WideRows(maze) && 0 <= row < |maze| && 0 <= col < Cols(maze)
    ensures GoalsBefore(maze, row, col + 1) ==
            GoalsBefore(maze, row, col) + (if maze[row][col] == 'G' then {Pos(col, row)} else {})
  {
  }

  lemma ScanNextRow(maze: seq<string>, row: int)
    requires WideRows(maze) && 0 <= row < |maze|
    ensures GoalsBefore(maze, row + 1, 0) == GoalsBefore(maze, row, Cols(maze))
    ensures AllKnownBefore(maze, row, Cols(maze)) ==> AllKnownBefore(maze, row + 1, 0)
  {
    assert forall r, c :: Before(maze, r, c, row + 1, 0) <==> Before(maze, r, c, row, Cols(maze));
  }

  lemma ScanAll(maze: seq<string>)
    requires WideRows(maze)
    ensures GoalsBefore(maze, |maze|, 0) == GoalsOf(maze)
    ensures AllKnownBefore(maze, |maze|, 0) ==> AllKnown(maze)
  {
    assert forall r, c :: Before(maze, r, c, |maze|, 0) <==> 0 <= r < |maze| && 0 <= c < Cols(maze);
  }

  /** What the constructor finds: the initial state, the key state and the goal states. */
  datatype Scan = Scan(initial: Option<Pos>, key: Option<Pos>, goals: set<Pos>)

  /** s is what the constructor has found once it has read every cell before (row, col). */
  ghost predicate ScannedBefore(maze: seq<string>, row: int, col: int, s: Scan)
    requires WideRows(maze)
  {
    && AllKnownBefore(maze, row, col)
    && LastBefore(maze, 'I', s.initial, row, col)
    && LastBefore(maze, 'K', s.key, row, col)
    && s.goals == GoalsBefore(maze, row, col)
  }

  /** The last cell before column col of the row that holds ch, or o if there is none. */
  ghost function LastInRow(maze: seq<string>, ch: char, row: int, col: int, o: Option<Pos>): Option<Pos>
    requires WideRows(maze) && 0 <= row < |maze| && 0 <= col <= Cols(maze)
    decreases col
  {
    if col == 0 then o
    else if maze[row][col - 1] == ch then Some(Pos(col - 1, row))
    else LastInRow(maze, ch, row, col - 1, o)
  }

  /** The goals before column col of the row. */
  ghost function RowGoals(maze: seq<string>, row: int, col: int): set<Pos>
    requires WideRows(maze) && 0 <= row < |maze| && 0 <= col <= Cols(maze)
  {
    set c | 0 <= c < col && maze[row][c] == 'G' :: Pos(c, row)
  }

  lemma RowGoalsStep(maze: seq<string>, row: int, col: int)
    requires WideRows(maze) && 0 <= row < |maze| && 0 <= col < Cols(maze)
    ensures RowGoals(maze, row, col + 1) ==
            if maze[row][col] == 'G' then RowGoals(maze, row, col) + {Pos(col, row)} else RowGoals(maze, row, col)
  {
  }

  /** Reading the first col cells of a row, all known, from what was found before the row. */
  lemma {:induction false} RowScanned(maze: seq<string>, row: int, col: int, s: Scan)
    requires WideRows(maze) && 0 <= row < |maze| && 0 <= col <= Cols(maze)
    requires ScannedBefore(maze, row, 0, s)
    requires forall c | 0 <= c < col :: KnownCell(maze[row][c])
    ensures ScannedBefore(maze, row, col, Scan(
      LastInRow(maze, 'I', row, col, s.initial),
      LastInRow(maze, 'K', row, col, s.key),
      s.goals + RowGoals(maze, row, col)))
    decreases col
  {
    if col == 0 {
      assert RowGoals(maze, row, 0) == {};
      assert s.goals + {} == s.goals;
    } else {
      RowScanned(maze, row, col - 1, s);
      LastBeforeStep(maze, 'I', LastInRow(maze, 'I', row, col - 1, s.initial), row, col - 1);
      LastBeforeStep(maze, 'K', LastInRow(maze, 'K', row, col - 1, s.key), row, col - 1);
      AllKnownBeforeStep(maze, row, col - 1);
      GoalsBeforeStep(maze, row, col - 1);
      RowGoalsStep(maze, row, col - 1);
      assert s.goals + RowGoals(maze, row, col) == GoalsBefore(maze, row, col);
    }
  }

  /**
   * The constructor's switch on one cell at (col, row): 'I' and 'K' replace what
   * was found, 'G' adds a goal, '.', 'X' and 'M' change nothing, and any other
   * character is an IllegalArgumentException.
   */
  method ReadCell(ch: char, col: int, row: int, s: Scan) returns (r: Result<Scan, string>)
    ensures r.Failure? <==> !KnownCell(ch)
    ensures r.Success? ==> r.value.initial == (if ch == 'I' then Some(Pos(col, row)) else s.initial)
    ensures r.Success? ==> r.value.key == (if ch == 'K' then Some(Pos(col, row)) else s.key)
    ensures r.Success? ==> r.value.goals == (if ch == 'G' then s.goals + {Pos(col, row)} else s.goals)
  {
    match ch {
      case 'I' => r := Success(s.(initial := Some(Pos(col, row))));
      case 'G' => r := Success(s.(goals := s.goals + {Pos(col, row)}));
      case 'K' => r := Success(s.(key := Some(Pos(col, row))));
      case '.' => r := Success(s);
      case 'X' => r := Success(s);
      case 'M' => r := Success(s);
      case _ => r := Failure("Maze formatted invalidly");
    }
  }

  /** The constructor's inner loop over the columns of one row. */
  method ScanRow(maze: seq<string>, row: nat, s: Scan) returns (r: Result<Scan, string>)
    requires WideRows(maze) && row < |maze| && ScannedBefore(maze, row, 0, s)
    ensures r.Failure? <==> exists c | 0 <= c < Cols(maze) :: !KnownCell(maze[row][c])
    ensures r.Success? ==> ScannedBefore(maze, row, Cols(maze), r.value)
  {
    var found := s;
    var col := 0;
    while col < Cols(maze)
      invariant 0 <= col <= Cols(maze)
      invariant forall c | 0 <= c < col :: KnownCell(maze[row][c])
      invariant found.initial == LastInRow(maze, 'I', row, col, s.initial)
      invariant found.key == LastInRow(maze, 'K', row, col, s.key)
      invariant found.goals == s.goals + RowGoals(maze, row, col)
    {
      var next := ReadCell(maze[row][col], col, row, found);
      if next.Failure? {
        return next;
      }
      RowGoalsStep(maze, row, col);
      found := next.value;
      col := col + 1;
    }
    RowScanned(maze, row, col, s);
    r := Success(found);
  }

  /**
   * The constructor's outer loop over the rows, in row-major order: the last 'I',
   * the last 'K' and every 'G' of the maze, or the failure of the first row holding
   * an unknown character.
   */
  method ScanCells(maze: seq<string>) returns (r: Result<Scan, string>)
    requires WideRows(maze)
    ensures r.Failure? <==> !AllKnown(maze)
    ensures r.Success? ==> LastOf(maze, 'I', r.value.initial) && LastOf(maze, 'K', r.value.key)
    ensures r.Success? ==> r.value.goals == GoalsOf(maze)
  {
    var s := Scan(None, None, {});
    var row := 0;
    while row < |maze|
      invariant 0 <= row <= |maze|
      invariant ScannedBefore(maze, row, 0, s)
    {
      var next := ScanRow(maze, row, s);
      match next {
        case Failure(e) =>
          return Failure(e);
        case Success(s') =>
          LastBeforeNextRow(maze, 'I', s'.initial, row);
          LastBeforeNextRow(maze, 'K', s'.key, row);
          ScanNextRow(maze, row);
          s := s';
      }
      row := row + 1;
    }
    LastBeforeAll(maze, 'I', s.initial);
    LastBeforeAll(maze, 'K', s.key);
    ScanAll(maze);
    r := Success(s);
  }

  /** MazeTestResult: whether a candidate solves the maze, and its cost (-1 when it is invalid). */
  datatype MazeTestResult = MazeTestResult(isSolution: bool, cost: int)

  class MazeProblem {
    const maze: seq<string>
    const rows: nat
    const cols: nat
    const initialState: Option<Pos>
    const keyState: Option<Pos>
    const goalStates: set<Pos>

    /** What the constructor establishes about its fields. */
    ghost predicate Valid() {
      && WideRows(maze) && AllKnown(maze)
      && rows == |maze| && cols == Cols(maze)
      && LastOf(maze, 'I', initialState)
      && LastOf(maze, 'K', keyState)
      && goalStates == GoalsOf(maze)
    }

    constructor (maze: seq<string>, scan: Scan)
      requires WideRows(maze)
      ensures this.maze == maze && rows == |maze| && cols == Cols(maze)
      ensures initialState == scan.initial && keyState == scan.key && goalStates == scan.goals
    {
      this.maze := maze;
      this.rows := |maze|;
      this.cols := Cols(maze);
      this.initialState := scan.initial;
      this.keyState := scan.key;
      this.goalStates := scan.goals;
    }

    /** `new MazeProblem(maze)`: a Failure where the constructor throws. */
    static method Create(maze: seq<string>) returns (r: Result<MazeProblem, string>)
      requires WideRows(maze)
      ensures r.Failure? <==> !AllKnown(maze)
      ensures r.Success? ==> fresh(r.value) && r.value.maze == maze && r.value.Valid()
    {
      var scan := ScanCells(maze);
      match scan
      case Failure(e) => r := Failure(e);
      case Success(s) =>
        var p := new MazeProblem(maze, s);
        r := Success(p);
    }

    predicate InBounds(p: Pos) {
      0 <= p.row < rows && 0 <= p.col < cols
    }

    function CellAt(p: Pos): char
      requires Valid() && InBounds(p)
    {
      maze[p.row][p.col]
    }

    predicate IsGoalState(p: Pos)
      requires Valid()
      ensures IsGoalState(p) <==> InBounds(p) && CellAt(p) == 'G'
    {
      p in goalStates
    }

    /** A copy of the goal set: a value, so changing it cannot change IsGoalState. */
    function GetGoalStates(): (g: set<Pos>)
      requires Valid()
      ensures forall p :: p in g <==> IsGoalState(p)
    {
      goalStates
    }

    method GetInitialState() returns (s: MazeState)
      requires initialState.Some?
      ensures fresh(s) && s.Value() == initialState.value
    {
      s := new MazeState(initialState.value.col, initialState.value.row);
    }

    /** A fresh copy of the key state, or null when the maze has no 'K'. */
    method GetKeyState() returns (s: MazeState?)
      requires Valid()
      ensures s == null <==> forall r, c | 0 <= r < rows && 0 <= c < cols :: maze[r][c] != 'K'
      ensures s != null ==> fresh(s) && keyState == Some(s.Value()) && CellAt(s.Value()) == 'K'
    {
      if keyState.None? {
        s := null;
      } else {
        s := new MazeState(keyState.value.col, keyState.value.row);
      }
    }

    /** The cost of entering p: 3 for 'M', 1 for any other cell. */
    function GetCost(p: Pos): (c: int)
      requires Valid() && InBounds(p)
      ensures c >= 1
      ensures c == 3 <==> CellAt(p) == 'M'
      ensures c == 1 <==> CellAt(p) != 'M'
    {
      match maze[p.row][p.col]
      case 'M' => 3
      case _ => 1
    }

    /** Action a from p stays in the grid and does not enter a wall. */
    predicate Legal(p: Pos, a: Action)
      requires Valid()
    {
      InBounds(p.Plus(Offset(a))) && CellAt(p.Plus(Offset(a))) != 'X'
    }

    /** The legal actions from state, each mapped to the state it leads to. */
    method GetTransitions(state: Pos) returns (result: map<Action, Pos>)
      requires Valid()
      ensures forall a :: a in result <==> Legal(state, a)
      ensures forall a | a in result :: result[a] == state.Plus(Offset(a))
    {
      result := map[];
      for k := 0 to |EntryOrder|
        invariant forall a :: a in result <==> a in EntryOrder[..k] && Legal(state, a)
        invariant forall a | a in result :: result[a] == state.Plus(Offset(a))
      {
        var action := EntryOrder[k];
        var o := TransMap[action];
        var actionMod := new MazeState(o.col, o.row);
        var newState := new MazeState(state.col, state.row);
        newState.Add(actionMod);
        if newState.row >= 0 && newState.row < rows && newState.col >= 0 && newState.col < cols
          && maze[newState.row][newState.col] != 'X'
        {
          result := result[action := newState.Value()];
        }
        assert EntryOrder[..k + 1] == EntryOrder[..k] + [action];
      }
      assert EntryOrder[..|EntryOrder|] == EntryOrder;
      forall a: Action
        ensures a in EntryOrder
      {
        match a {
          case R => assert EntryOrder[0] == a;
          case D => assert EntryOrder[1] == a;
          case U => assert EntryOrder[2] == a;
          case L => assert EntryOrder[3] == a;
        }
      }
    }

    // -------------------------------------------------------------------------
    // Replaying a candidate solution

    predicate AllInBounds(w: seq<Pos>) {
      forall j | 0 <= j < |w| :: InBounds(w[j])
    }

    predicate HitsWall(w: seq<Pos>)
      requires Valid()
    {
      exists j | 0 <= j < |w| :: InBounds(w[j]) && CellAt(w[j]) == 'X'
    }

    predicate LandsOnKey(w: seq<Pos>)
      requires Valid()
    {
      exists j | 0 <= j < |w| :: InBounds(w[j]) && CellAt(w[j]) == 'K'
    }

    /** Every cell entered up to and including the first wall lies in the grid. */
    predicate ReplayInBounds(w: seq<Pos>)
      requires Valid()
    {
      forall i | 0 <= i < |w| ::
        (forall j | 0 <= j < i :: InBounds(w[j]) && CellAt(w[j]) != 'X') ==> InBounds(w[i])
    }

    /** The sum of the entry costs of the cells in w. */
    function SumCost(w: seq<Pos>): int
      requires Valid() && AllInBounds(w)
      decreases |w|
    {
      if w == [] then 0 else SumCost(w[..|w| - 1]) + GetCost(w[|w| - 1])
    }

    /** The first i cells of w lie in the grid and none is a wall. */
    ghost predicate ClearUpTo(w: seq<Pos>, i: int)
      requires Valid()
    {
      forall j | 0 <= j < i && j < |w| :: InBounds(w[j]) && CellAt(w[j]) != 'X'
    }

    lemma ReplayNext(w: seq<Pos>, i: int)
      requires Valid() && ReplayInBounds(w) && 0 <= i < |w| && ClearUpTo(w, i)
      ensures InBounds(w[i])
    {
    }

    lemma ClearStep(w: seq<Pos>, i: int)
      requires Valid() && 0 <= i < |w| && ClearUpTo(w, i) && InBounds(w[i]) && CellAt(w[i]) != 'X'
      ensures ClearUpTo(w, i + 1)
    {
    }

    lemma ReplayClear(w: seq<Pos>)
      requires Valid() && ClearUpTo(w, |w|)
      ensures !HitsWall(w) && AllInBounds(w) && ReplayInBounds(w)
    {
    }

    /** Entering one more open cell keeps a walk clear and adds that cell's cost. */
    lemma ClearSnoc(w: seq<Pos>, q: Pos)
      requires Valid() && ClearUpTo(w, |w|) && AllInBounds(w) && InBounds(q) && CellAt(q) != 'X'
      ensures ClearUpTo(w + [q], |w| + 1) && AllInBounds(w + [q])
      ensures SumCost(w + [q]) == SumCost(w) + GetCost(q)
    {
      assert (w + [q])[..|w|] == w;
      forall j | 0 <= j < |w|
        ensures (w + [q])[j] == w[j]
      {
      }
    }

    lemma KeySnoc(w: seq<Pos>, q: Pos)
      requires Valid() && LandsOnKey(w)
      ensures LandsOnKey(w + [q])
    {
      var j :| 0 <= j < |w| && InBounds(w[j]) && CellAt(w[j]) == 'K';
      assert (w + [q])[j] == w[j];
    }

    lemma ReplayStep(w: seq<Pos>, i: int)
      requires Valid() && 0 <= i < |w| && AllInBounds(w[..i]) && InBounds(w[i])
      ensures AllInBounds(w[..i + 1])
      ensures SumCost(w[..i + 1]) == SumCost(w[..i]) + GetCost(w[i])
      ensures LandsOnKey(w[..i + 1]) <==> LandsOnKey(w[..i]) || CellAt(w[i]) == 'K'
    {
      assert w[..i + 1][..i] == w[..i];
      assert w[..i + 1][i] == w[i];
    }

    /** Once the walk hits no wall, every cell it enters lies in the grid. */
    lemma ReplayStaysInBounds(w: seq<Pos>)
      requires Valid() && ReplayInBounds(w) && !HitsWall(w)
      ensures AllInBounds(w)
    {
      var i := 0;
      while i < |w|
        invariant 0 <= i <= |w| && ClearUpTo(w, i)
      {
        ReplayNext(w, i);
        i := i + 1;
      }
    }

    /**
     * What replaying acts from p reports: (false, -1) on landing on a wall; otherwise
     * the sum of the entry costs, and a solution iff the walk ends on a goal and
     * entered the key.
     */
    ghost function Verdict(p: Pos, acts: seq<Action>): MazeTestResult
      requires Valid() && ReplayInBounds(Walk(p, acts))
    {
      var w := Walk(p, acts);
      if HitsWall(w) then MazeTestResult(false, -1)
      else
        ReplayStaysInBounds(w);
        MazeTestResult(IsGoalState(Final(p, acts)) && LandsOnKey(w), SumCost(w))
    }

    /** Every cell entered costs 1 or 3. */
    lemma {:induction false} SumCostBounds(w: seq<Pos>)
      requires Valid() && AllInBounds(w)
      ensures |w| <= SumCost(w) <= 3 * |w|
      decreases |w|
    {
      if w != [] {
        var w' := w[..|w| - 1];
        assert forall j | 0 <= j < |w'| :: w'[j] == w[j];
        SumCostBounds(w');
      }
    }

    /**
     * The reported cost is -1 exactly when the replay enters a wall, and then the
     * candidate is no solution; otherwise it is between 1 and 3 per action.
     */
    lemma VerdictCost(p: Pos, acts: seq<Action>)
      requires Valid() && ReplayInBounds(Walk(p, acts))
      ensures Verdict(p, acts).cost == -1 <==> HitsWall(Walk(p, acts))
      ensures Verdict(p, acts).cost == -1 ==> !Verdict(p, acts).isSolution
      ensures !HitsWall(Walk(p, acts)) ==> |acts| <= Verdict(p, acts).cost <= 3 * |acts|
    {
      var w := Walk(p, acts);
      if !HitsWall(w) {
        ReplayStaysInBounds(w);
        SumCostBounds(w);
      }
    }

    /** The empty candidate never collects the key, so it is no solution; it costs 0. */
    lemma EmptyCandidate(p: Pos)
      requires Valid()
      ensures ReplayInBounds(Walk(p, []))
      ensures Verdict(p, []) == MazeTestResult(false, 0)
    {
    }

    /**
     * testSolution: replays possibleSoln from the initial state; null gives (false, -1),
     * any other list gives its Verdict.
     */
    method TestSolution(possibleSoln: Option<seq<Action>>) returns (r: MazeTestResult)
      requires Valid() && initialState.Some?
      requires possibleSoln.Some? ==> ReplayInBounds(Walk(initialState.value, possibleSoln.value))
      ensures possibleSoln.None? ==> r == MazeTestResult(false, -1)
      ensures possibleSoln.Some? ==> r == Verdict(initialState.value, possibleSoln.value)
    {
      var init := initialState.value;
      var movingState := new MazeState(init.col, init.row);
      var cost := 0;
      var hasKey := false;

      if possibleSoln.None? {
        return MazeTestResult(false, -1);
      }
      var acts := possibleSoln.value;
      ghost var w := Walk(init, acts);
      for i := 0 to |acts|
        invariant movingState.Value() == Final(init, acts[..i])
        invariant ClearUpTo(w, i)
        invariant AllInBounds(w[..i]) && cost == SumCost(w[..i])
        invariant hasKey <==> LandsOnKey(w[..i])
      {
        assert acts[..i + 1][..i] == acts[..i];
        TransMapCovers(acts[i]);
        var o := TransMap[acts[i]];
        var actionMod := new MazeState(o.col, o.row);
        movingState.Add(actionMod);
        assert movingState.Value() == w[i];
        var p := movingState.Value();
        ReplayNext(w, i);
        ReplayStep(w, i);
        match CellAt(p) {
          case 'X' =>
            assert HitsWall(w) by {
              assert InBounds(w[i]) && CellAt(w[i]) == 'X';
            }
            return MazeTestResult(false, -1);
          case 'K' =>
            hasKey := true;
          case _ =>
        }
        ClearStep(w, i);
        cost := cost + GetCost(p);
      }
      assert w[..|acts|] == w;
      assert acts[..|acts|] == acts;
      ReplayClear(w);
      assert Final(init, acts) == movingState.Value();
      return MazeTestResult(IsGoalState(movingState.Value()) && hasKey, cost);
    }
  }
}
