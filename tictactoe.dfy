/** Tic-tac-toe: a 3x3 board, a click claims an empty cell for the player to
    move, `win` detects a completed line by summing +1 for 'x' and -1 for
    'o' along every row, column and diagonal, and `draw` ends the game on
    the ninth pass. */
module TicTacToe {
  import opened Collections

  /** A cell of the board: empty (' ') or marked by a player. */
  datatype Cell = Blank | X | O

  /** `isPlayer`: the marks that belong to a player. */
  predicate IsPlayer(c: Cell): (r: bool)
    ensures r <==> c != Blank
  {
    c == X || c == O
  }

  type Player = c: Cell | IsPlayer(c) witness X

  datatype State = State(
    time: int,
    currentPlayer: Player,
    winningPlayer: Option<Player>,
    finished: bool,
    board: seq<seq<Cell>>)

  predicate ValidBoard(b: seq<seq<Cell>>) {
    |b| == 3 && forall i :: 0 <= i < 3 ==> |b[i]| == 3
  }

  const EmptyBoard: seq<seq<Cell>> := [[Blank, Blank, Blank], [Blank, Blank, Blank], [Blank, Blank, Blank]]

  /** `DEFAULT_STATE`: an empty board with 'o' to move. */
  const DefaultState := State(time := 0, currentPlayer := O, winningPlayer := None, finished := false, board := EmptyBoard)

  function Other(p: Player): Player {
    if p == O then X else O
  }

  /** The eight lines of the board, in the order the counters are scanned:
      columns, rows, then the two diagonals. */
  datatype Line = Column(j: int) | Row(i: int) | Diagonal | AntiDiagonal

  const AllLines: seq<Line> := [Column(0), Column(1), Column(2), Row(0), Row(1), Row(2), Diagonal, AntiDiagonal]

  /** The cell (`i`, `j`) lies on line `l`. */
  predicate OnLine(l: Line, i: int, j: int) {
    match l
    case Column(c) => j == c
    case Row(r) => i == r
    case Diagonal => i == j
    case AntiDiagonal => i == 2 - j
  }

  /** The three cells of a line. */
  function LineCells(b: seq<seq<Cell>>, l: Line): seq<Cell>
    requires ValidBoard(b) && l in AllLines
  {
    match l
    case Column(c) => [b[0][c], b[1][c], b[2][c]]
    case Row(r) => [b[r][0], b[r][1], b[r][2]]
    case Diagonal => [b[0][0], b[1][1], b[2][2]]
    case AntiDiagonal => [b[0][2], b[1][1], b[2][0]]
  }

  /** All three cells of line `l` carry the mark `p`. */
  predicate Complete(b: seq<seq<Cell>>, l: Line, p: Player)
    requires ValidBoard(b) && l in AllLines
  {
    LineCells(b, l) == [p, p, p]
  }

  /** Player `p` has completed some line. */
  predicate Wins(b: seq<seq<Cell>>, p: Player)
    requires ValidBoard(b)
  {
    exists k :: 0 <= k < 8 && Complete(b, AllLines[k], p)
  }

  /** The counter increment of one cell: +1 for 'x', -1 for 'o', 0 if empty. */
  function Weight(c: Cell): int {
    match c
    case X => 1
    case O => -1
    case Blank => 0
  }

  /** The final value of a line's counter: the weights of its three cells. */
  function LineSum(b: seq<seq<Cell>>, l: Line): (r: int)
    requires ValidBoard(b) && l in AllLines
    ensures -3 <= r <= 3
  {
    var cs := LineCells(b, l);
    Weight(cs[0]) + Weight(cs[1]) + Weight(cs[2])
  }

  /** A line's sum is 3 exactly when all its cells are 'x', and -3 exactly
      when all are 'o'; any other filling stays strictly between. */
  lemma SumDecidesLine(b: seq<seq<Cell>>, l: Line)
    requires ValidBoard(b) && l in AllLines
    ensures LineSum(b, l) == 3 <==> Complete(b, l, X)
    ensures LineSum(b, l) == -3 <==> Complete(b, l, O)
  {
    var cs := LineCells(b, l);
    if LineSum(b, l) == 3 {
      assert cs[0] == X && cs[1] == X && cs[2] == X;
      assert cs == [X, X, X];
    }
    if LineSum(b, l) == -3 {
      assert cs[0] == O && cs[1] == O && cs[2] == O;
      assert cs == [O, O, O];
    }
  }

  /** What the first `j` cells of row `i` add to the counter of line `l`. */
  function RowFold(b: seq<seq<Cell>>, l: Line, i: int, j: int): int
    requires ValidBoard(b) && 0 <= i < 3 && 0 <= j <= 3
  {
    if j == 0 then 0
    else RowFold(b, l, i, j - 1) + Share(b, l, i, j - 1)
  }

  /** What the first `i` whole rows add to the counter of line `l`. */
  function Folded(b: seq<seq<Cell>>, l: Line, i: int): int
    requires ValidBoard(b) && 0 <= i <= 3
  {
    if i == 0 then 0 else Folded(b, l, i - 1) + RowFold(b, l, i - 1, 3)
  }

  /** The weight cell (`i`, `j`) adds to the counter of line `l`. */
  function Share(b: seq<seq<Cell>>, l: Line, i: int, j: int): int
    requires ValidBoard(b) && 0 <= i < 3 && 0 <= j < 3
  {
    if OnLine(l, i, j) then Weight(b[i][j]) else 0
  }

  lemma RowFoldFull(b: seq<seq<Cell>>, l: Line, i: int)
    requires ValidBoard(b) && 0 <= i < 3
    ensures RowFold(b, l, i, 3) == Share(b, l, i, 0) + Share(b, l, i, 1) + Share(b, l, i, 2)
  {
    assert RowFold(b, l, i, 1) == Share(b, l, i, 0);
    assert RowFold(b, l, i, 2) == RowFold(b, l, i, 1) + Share(b, l, i, 1);
  }

  /** Once every row is folded in, a counter holds its line's sum. */
  lemma FullSum(b: seq<seq<Cell>>, l: Line)
    requires ValidBoard(b) && l in AllLines
    ensures Folded(b, l, 3) == LineSum(b, l)
  {
    RowFoldFull(b, l, 0);
    RowFoldFull(b, l, 1);
    RowFoldFull(b, l, 2);
    assert Folded(b, l, 1) == RowFold(b, l, 0, 3);
    assert Folded(b, l, 2) == Folded(b, l, 1) + RowFold(b, l, 1, 3);
    assert Folded(b, l, 3) == Folded(b, l, 2) + RowFold(b, l, 2, 3);
  }

  /** The outcome `win` decides: 'x' if it has a line (checked first), else
      'o' if it has one, else the state as it was. */
  function Judged(s: State): (r: State)
    requires ValidBoard(s.board)
    ensures Wins(s.board, X) ==>
      r == s.(finished := true, winningPlayer := r.winningPlayer) && r.winningPlayer.Some? && r.winningPlayer.value == X
    ensures !Wins(s.board, X) && Wins(s.board, O) ==>
      r == s.(finished := true, winningPlayer := r.winningPlayer) && r.winningPlayer.Some? && r.winningPlayer.value == O
    ensures !Wins(s.board, X) && !Wins(s.board, O) ==> r == s
  {
    if Wins(s.board, X) then s.(finished := true, winningPlayer := Some(X))
    else if Wins(s.board, O) then s.(finished := true, winningPlayer := Some(O))
    else s
  }

  /** Once all eight counters are complete, a counter at 3 means an 'x' line
      and a counter at -3 an 'o' line. */
  lemma CountersDecide(b: seq<seq<Cell>>, sums: seq<int>)
    requires ValidBoard(b) && |sums| == 8
    requires forall k :: 0 <= k < 8 ==> sums[k] == Folded(b, AllLines[k], 3)
    ensures 3 in sums <==> Wins(b, X)
    ensures -3 in sums <==> Wins(b, O)
  {
    forall k | 0 <= k < 8
      ensures (sums[k] == 3 <==> Complete(b, AllLines[k], X)) && (sums[k] == -3 <==> Complete(b, AllLines[k], O))
    {
      FullSum(b, AllLines[k]);
      SumDecidesLine(b, AllLines[k]);
    }
  }

  /** The body of `win`'s inner loop: a marked cell adds +1 ('x') or -1
      ('o') to the counters of its row, its column and the diagonals it lies
      on. */
  method AddCell(b: seq<seq<Cell>>, i: int, j: int, columns: array<int>, rows: array<int>, diagonals: array<int>)
    requires ValidBoard(b) && 0 <= i < 3 && 0 <= j < 3
    requires columns.Length == 3 && rows.Length == 3 && diagonals.Length == 2
    requires columns != rows && columns != diagonals && rows != diagonals
    modifies columns, rows, diagonals
    ensures forall c :: 0 <= c < 3 ==> columns[c] == old(columns[c]) + Share(b, Column(c), i, j)
    ensures forall c :: 0 <= c < 3 ==> rows[c] == old(rows[c]) + Share(b, Row(c), i, j)
    ensures diagonals[0] == old(diagonals[0]) + Share(b, Diagonal, i, j)
    ensures diagonals[1] == old(diagonals[1]) + Share(b, AntiDiagonal, i, j)
  {
    var cell := b[i][j];
    if IsPlayer(cell) {
      var additive := if cell == X then 1 else -1;
      rows[i] := rows[i] + additive;
      columns[j] := columns[j] + additive;
      if i == j {
        diagonals[0] := diagonals[0] + additive;
      }
      if i == 2 - j {
        diagonals[1] := diagonals[1] + additive;
      }
    }
  }

  /** The inner loop of `win`: fold row `i` into the counters. */
  method FoldRow(b: seq<seq<Cell>>, i: int, columns: array<int>, rows: array<int>, diagonals: array<int>)
    requires ValidBoard(b) && 0 <= i < 3
    requires columns.Length == 3 && rows.Length == 3 && diagonals.Length == 2
    requires columns != rows && columns != diagonals && rows != diagonals
    requires forall c :: 0 <= c < 3 ==> columns[c] == Folded(b, Column(c), i)
    requires forall c :: 0 <= c < 3 ==> rows[c] == Folded(b, Row(c), i)
    requires diagonals[0] == Folded(b, Diagonal, i) && diagonals[1] == Folded(b, AntiDiagonal, i)
    modifies columns, rows, diagonals
    ensures forall c :: 0 <= c < 3 ==> columns[c] == Folded(b, Column(c), i + 1)
    ensures forall c :: 0 <= c < 3 ==> rows[c] == Folded(b, Row(c), i + 1)
    ensures diagonals[0] == Folded(b, Diagonal, i + 1) && diagonals[1] == Folded(b, AntiDiagonal, i + 1)
  {
    var j := 0;
    while j < 3
      invariant 0 <= j <= 3
      invariant forall c :: 0 <= c < 3 ==> columns[c] == Folded(b, Column(c), i) + RowFold(b, Column(c), i, j)
      invariant forall c :: 0 <= c < 3 ==> rows[c] == Folded(b, Row(c), i) + RowFold(b, Row(c), i, j)
      invariant diagonals[0] == Folded(b, Diagonal, i) + RowFold(b, Diagonal, i, j)
      invariant diagonals[1] == Folded(b, AntiDiagonal, i) + RowFold(b, AntiDiagonal, i, j)
    {
      AddCell(b, i, j, columns, rows, diagonals);
      j := j + 1;
    }
  }

  /** `win`: fold the board into counters for the three columns, three rows
      and two diagonals, then look for a counter at 3 ('x' wins) or at -3
      ('o' wins). */
  method Win(s: State) returns (r: State)
    requires ValidBoard(s.board)
    ensures r == Judged(s)
  {
    var b := s.board;
    var columns := new int[3](_ => 0);
    var rows := new int[3](_ => 0);
    var diagonals := new int[2](_ => 0);
    var i := 0;
    while i < 3
      invariant 0 <= i <= 3
      invariant forall c :: 0 <= c < 3 ==> columns[c] == Folded(b, Column(c), i)
      invariant forall c :: 0 <= c < 3 ==> rows[c] == Folded(b, Row(c), i)
      invariant diagonals[0] == Folded(b, Diagonal, i) && diagonals[1] == Folded(b, AntiDiagonal, i)
    {
      FoldRow(b, i, columns, rows, diagonals);
      i := i + 1;
    }

    var sums := columns[..] + rows[..] + diagonals[..];
    CountersDecide(b, sums);
    if 3 in sums {
      r := s.(finished := true, winningPlayer := Some(X));
    } else if -3 in sums {
      r := s.(finished := true, winningPlayer := Some(O));
    } else {
      r := s;
    }
  }

  /** `draw`: from the ninth pass on the game is over. */
  function Draw(s: State): (r: State)
    ensures s.time >= 8 ==> r == s.(finished := true)
    ensures s.time < 8 ==> r == s
  {
    if s.time >= 8 then s.(finished := true) else s
  }

  /** `tick`: every pass advances the clock. */
  function Tick(s: State): (r: State)
    ensures r == s.(time := s.time + 1)
  {
    s.(time := s.time + 1)
  }

  /** A click on cell (`row`, `col`); `None` is the click on the game-over
      message. */
  datatype Click = Click(row: int, col: int)

  /** The per-event body of `handleInput`. The message click restarts a
      finished game; a click on a marked cell does nothing; a click on an
      empty cell marks it for the player to move and passes the turn. */
  function HandleInput(s: State, event: Option<Click>): (r: State)
    requires ValidBoard(s.board)
    requires event.Some? ==> 0 <= event.value.row < 3 && 0 <= event.value.col < 3
    ensures ValidBoard(r.board)
    ensures event.None? && s.finished ==> r == DefaultState
    ensures event.None? && !s.finished ==> r == s
    ensures event.Some? && IsPlayer(s.board[event.value.row][event.value.col]) ==> r == s
    ensures event.Some? && !IsPlayer(s.board[event.value.row][event.value.col]) ==>
      && r == s.(currentPlayer := Other(s.currentPlayer), board := r.board)
      && r.board[event.value.row][event.value.col] == s.currentPlayer
      && forall i, j :: 0 <= i < 3 && 0 <= j < 3 && (i, j) != (event.value.row, event.value.col) ==>
           r.board[i][j] == s.board[i][j]
  {
    match event
    case None => if s.finished then DefaultState else s
    case Some(c) =>
      if IsPlayer(s.board[c.row][c.col]) then s
      else
        var newBoard := seq(3, i requires 0 <= i < 3 =>
          seq(3, j requires 0 <= j < 3 => if i == c.row && j == c.col then s.currentPlayer else s.board[i][j]));
        s.(currentPlayer := Other(s.currentPlayer), board := newBoard)
  }

  /** The number of cells marked `p`. */
  function Marks(b: seq<seq<Cell>>, p: Player): nat
    requires ValidBoard(b)
  {
    RowMarks(b[0], p) + RowMarks(b[1], p) + RowMarks(b[2], p)
  }

  function RowMarks(row: seq<Cell>, p: Player): nat
    requires |row| == 3
  {
    (if row[0] == p then 1 else 0) + (if row[1] == p then 1 else 0) + (if row[2] == p then 1 else 0)
  }

  /** Turns alternate starting with 'o': the board holds as many 'o' marks as
      'x' marks when 'o' is to move, and one more when 'x' is. */
  predicate Alternating(s: State) {
    && ValidBoard(s.board)
    && (s.currentPlayer == O ==> Marks(s.board, O) == Marks(s.board, X))
    && (s.currentPlayer == X ==> Marks(s.board, O) == Marks(s.board, X) + 1)
  }

  /** Marking one empty cell of a row with `p` adds one `p` mark to the row
      and leaves the other player's count alone. */
  lemma RowMarkOne(row: seq<Cell>, newRow: seq<Cell>, col: int, p: Player)
    requires |row| == 3 && |newRow| == 3 && 0 <= col < 3
    requires row[col] == Blank && newRow[col] == p
    requires forall j :: 0 <= j < 3 && j != col ==> newRow[j] == row[j]
    ensures RowMarks(newRow, p) == RowMarks(row, p) + 1
    ensures RowMarks(newRow, Other(p)) == RowMarks(row, Other(p))
  {
  }

  /** Marking one empty cell with `p` adds one `p` mark and leaves the other
      player's count alone. */
  lemma MarkOne(b: seq<seq<Cell>>, nb: seq<seq<Cell>>, row: int, col: int, p: Player)
    requires ValidBoard(b) && ValidBoard(nb) && 0 <= row < 3 && 0 <= col < 3
    requires b[row][col] == Blank && nb[row][col] == p
    requires forall i, j :: 0 <= i < 3 && 0 <= j < 3 && (i, j) != (row, col) ==> nb[i][j] == b[i][j]
    ensures Marks(nb, p) == Marks(b, p) + 1
    ensures Marks(nb, Other(p)) == Marks(b, Other(p))
  {
    forall i | 0 <= i < 3 && i != row
      ensures nb[i] == b[i]
    {
      assert forall j :: 0 <= j < 3 ==> (i, j) != (row, col);
    }
    RowMarkOne(b[row], nb[row], col, p);
  }

  /** A click keeps the turns alternating. */
  lemma HandleInputAlternates(s: State, event: Option<Click>)
    requires Alternating(s)
    requires event.Some? ==> 0 <= event.value.row < 3 && 0 <= event.value.col < 3
    ensures Alternating(HandleInput(s, event))
  {
    var r := HandleInput(s, event);
    if event.Some? && !IsPlayer(s.board[event.value.row][event.value.col]) {
      MarkOne(s.board, r.board, event.value.row, event.value.col, s.currentPlayer);
    }
  }

  /** One pass of the game's pipeline: input, win, draw, tick. Every pass
      keeps the turns alternating (a restart begins anew). */
  function Pass(s: State, event: Option<Click>): (r: State)
    requires ValidBoard(s.board)
    requires event.Some? ==> 0 <= event.value.row < 3 && 0 <= event.value.col < 3
    ensures ValidBoard(r.board) && r.time == HandleInput(s, event).time + 1
    ensures Alternating(s) ==> Alternating(r)
  {
    var h := HandleInput(s, event);
    var r := Tick(Draw(Judged(h)));
    assert Alternating(s) ==> Alternating(r) by {
      if Alternating(s) {
        HandleInputAlternates(s, event);
        LateStagesKeepMarks(h);
      }
    }
    r
  }

  /** Judging, the draw check and the tick leave the board and the player
      to move as they were. */
  lemma LateStagesKeepMarks(h: State)
    requires ValidBoard(h.board)
    ensures Tick(Draw(Judged(h))).board == h.board
    ensures Tick(Draw(Judged(h))).currentPlayer == h.currentPlayer
  {
    var j := Judged(h);
    assert j.board == h.board && j.currentPlayer == h.currentPlayer;
  }

  /** When both players hold a line, 'x' is named the winner. */
  lemma XCheckedFirst(s: State)
    requires ValidBoard(s.board) && Wins(s.board, X) && Wins(s.board, O)
    ensures Judged(s).winningPlayer.Some? && Judged(s).winningPlayer.value == X && Judged(s).finished
  {
  }

  /** The row example of the game's tests: 'x' across the top row wins. */
  lemma TopRowWins()
    ensures var r := Judged(DefaultState.(board := [[X, X, X], [O, Blank, O], [X, O, O]]));
      r.finished && r.winningPlayer.Some? && r.winningPlayer.value == X
  {
    assert Complete([[X, X, X], [O, Blank, O], [X, O, O]], AllLines[3], X);
  }
}
