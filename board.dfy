/**
 * The 3×3 Tic Tac Toe board as a value: its cells, the squares that hold a
 * given mark, the lines that win, the end-of-game predicates and the text
 * rendering. The class `TicTacToe.Game` is proved against these definitions.
 */
module Board {

  /** The fixed side length of the board. */
  const Size: int := 3

  /** The three marks a cell can hold. */
  const Empty: char := '_'
  const Human: char := 'O'
  const Computer: char := 'X'

  /** Row-major cells, as the source's vector of row vectors. */
  type Grid = seq<seq<char>>

  /** A (row, column) position on the board. */
  datatype Square = Square(row: int, col: int)

  predicate InRange(row: int, col: int) {
    0 <= row < Size && 0 <= col < Size
  }

  predicate Mark(ch: char) {
    ch == Empty || ch == Human || ch == Computer
  }

  /** Three rows of three cells each. */
  predicate WellFormed(g: Grid) {
    |g| == Size && forall r :: 0 <= r < |g| ==> |g[r]| == Size
  }

  /** Every cell holds one of the three marks. */
  predicate LegalCells(g: Grid) {
    forall r, c :: 0 <= r < |g| && 0 <= c < |g[r]| ==> Mark(g[r][c])
  }

  // ---------------------------------------------------------------------------
  // Construction and single-cell writes
  // ---------------------------------------------------------------------------

  const EmptyRow: seq<char> := [Empty, Empty, Empty]

  /** The board of a new game: every row is `EmptyRow`. */
  function EmptyGrid(): (g: Grid)
    ensures WellFormed(g) && LegalCells(g)
    ensures forall r, c :: InRange(r, c) ==> g[r][c] == Empty
  {
    seq(Size, _ => EmptyRow)
  }

  /** The board after writing `v` into the cell at (`row`, `col`). */
  function SetCell(g: Grid, row: int, col: int, v: char): (g': Grid)
    requires WellFormed(g) && InRange(row, col)
    ensures WellFormed(g')
    ensures g'[row][col] == v
    ensures forall r, c :: InRange(r, c) && (r != row || c != col) ==> g'[r][c] == g[r][c]
    ensures LegalCells(g) && Mark(v) ==> LegalCells(g')
  {
    g[row := g[row][col := v]]
  }

  // ---------------------------------------------------------------------------
  // Counting marks
  // ---------------------------------------------------------------------------

  /** How many characters of `s` equal `p`, counted left to right. */
  function Occurrences(s: seq<char>, p: char): (n: nat)
    ensures n <= |s|
  {
    if s == [] then 0
    else Occurrences(s[..|s| - 1], p) + (if s[|s| - 1] == p then 1 else 0)
  }

  /** How many cells of `g` hold `p`, counted row by row. */
  function CountCells(g: Grid, p: char): (n: nat)
  {
    if g == [] then 0
    else CountCells(g[..|g| - 1], p) + Occurrences(g[|g| - 1], p)
  }

  /** The squares of row number `r` (with cells `row`) that hold `p`. */
  function RowSquares(row: seq<char>, r: int, p: char): set<Square>
  {
    set c | 0 <= c < |row| && row[c] == p :: Square(r, c)
  }

  /** The squares of the board that hold `p`. */
  function Squares(g: Grid, p: char): set<Square>
  {
    set r, c | 0 <= r < |g| && 0 <= c < |g[r]| && g[r][c] == p :: Square(r, c)
  }

  /** A line is filled with `p` exactly when all of its characters are `p`. */
  lemma {:induction false} OccurrencesAll(s: seq<char>, p: char)
    ensures Occurrences(s, p) == |s| <==> forall i :: 0 <= i < |s| ==> s[i] == p
  {
    if s != [] {
      var n := |s| - 1;
      OccurrencesAll(s[..n], p);
      if Occurrences(s, p) == |s| {
        assert s[n] == p;
        forall i | 0 <= i < |s| ensures s[i] == p {
          if i < n { assert s[i] == s[..n][i]; }
        }
      } else {
        if forall i :: 0 <= i < |s| ==> s[i] == p {
          forall i | 0 <= i < n ensures s[..n][i] == p {
            assert s[..n][i] == s[i];
          }
          assert false;
        }
      }
    }
  }

  /** Counting one row: the number of squares of that row that hold `p`. */
  lemma {:induction false} RowSquaresCard(row: seq<char>, r: int, p: char)
    ensures |RowSquares(row, r, p)| == Occurrences(row, p)
  {
    if row == [] {
      assert RowSquares(row, r, p) == {};
    } else {
      var n := |row| - 1;
      RowSquaresCard(row[..n], r, p);
      var prev := RowSquares(row[..n], r, p);
      assert forall c :: 0 <= c < n ==> row[..n][c] == row[c];
      if row[n] == p {
        assert RowSquares(row, r, p) == prev + {Square(r, n)};
        assert Square(r, n) !in prev;
      } else {
        assert RowSquares(row, r, p) == prev;
      }
    }
  }

  /** The counted number of cells holding `p` is the number of such squares. */
  lemma {:induction false} CountIsCardinality(g: Grid, p: char)
    ensures CountCells(g, p) == |Squares(g, p)|
  {
    if g == [] {
      assert Squares(g, p) == {};
    } else {
      var n := |g| - 1;
      CountIsCardinality(g[..n], p);
      RowSquaresCard(g[n], n, p);
      var prev := Squares(g[..n], p);
      var last := RowSquares(g[n], n, p);
      assert forall r :: 0 <= r < n ==> g[..n][r] == g[r];
      assert Squares(g, p) == prev + last;
      assert prev * last == {};
    }
  }

  /** Writing `v` into one cell moves that square into or out of `Squares(_, p)` and nothing else. */
  lemma SquaresAfterWrite(g: Grid, row: int, col: int, v: char, p: char)
    requires WellFormed(g) && InRange(row, col)
    ensures Squares(SetCell(g, row, col, v), p)
         == (Squares(g, p) - {Square(row, col)}) + (if v == p then {Square(row, col)} else {})
  {
  }

  /**
   * Writing a mark other than `Empty` into a cell lowers the number of empty
   * cells by one when that cell was empty, and leaves it unchanged otherwise.
   */
  lemma EmptyCountAfterWrite(g: Grid, row: int, col: int, v: char)
    requires WellFormed(g) && InRange(row, col) && v != Empty
    ensures CountCells(SetCell(g, row, col, v), Empty)
         == CountCells(g, Empty) - (if g[row][col] == Empty then 1 else 0)
  {
    var g' := SetCell(g, row, col, v);
    SquaresAfterWrite(g, row, col, v, Empty);
    CountIsCardinality(g, Empty);
    CountIsCardinality(g', Empty);
    if g[row][col] == Empty {
      assert Square(row, col) in Squares(g, Empty);
    } else {
      assert Square(row, col) !in Squares(g, Empty);
      assert Squares(g', Empty) == Squares(g, Empty);
    }
  }

  /** Rows whose every cell holds a mark split their cells among the three marks. */
  lemma {:induction false} OccurrencesPartition(s: seq<char>)
    requires forall i :: 0 <= i < |s| ==> Mark(s[i])
    ensures Occurrences(s, Empty) + Occurrences(s, Human) + Occurrences(s, Computer) == |s|
  {
    if s != [] {
      var n := |s| - 1;
      assert forall i :: 0 <= i < n ==> s[..n][i] == s[i];
      OccurrencesPartition(s[..n]);
    }
  }

  lemma {:induction false} RowsPartition(g: Grid)
    requires LegalCells(g)
    requires forall r :: 0 <= r < |g| ==> |g[r]| == Size
    ensures CountCells(g, Empty) + CountCells(g, Human) + CountCells(g, Computer) == Size * |g|
  {
    if g != [] {
      var n := |g| - 1;
      assert forall r :: 0 <= r < n ==> g[..n][r] == g[r];
      RowsPartition(g[..n]);
      OccurrencesPartition(g[n]);
    }
  }

  /**
   * On a legal board the empty, human and computer cells add up to all nine
   * cells; in particular the number of empty cells lies in [0, 9].
   */
  lemma CountsPartition(g: Grid)
    requires WellFormed(g) && LegalCells(g)
    ensures CountCells(g, Empty) + CountCells(g, Human) + CountCells(g, Computer) == Size * Size
    ensures CountCells(g, Empty) <= Size * Size
  {
    RowsPartition(g);
  }

  /** A new board has all nine squares empty and no mark of either player. */
  lemma EmptyGridCounts()
    ensures CountCells(EmptyGrid(), Empty) == Size * Size
    ensures CountCells(EmptyGrid(), Human) == 0 && CountCells(EmptyGrid(), Computer) == 0
  {
    var g := EmptyGrid();
    assert Squares(g, Human) == {};
    assert Squares(g, Computer) == {};
    CountIsCardinality(g, Human);
    CountIsCardinality(g, Computer);
    CountsPartition(g);
  }

  // ---------------------------------------------------------------------------
  // Winning lines
  // ---------------------------------------------------------------------------

  /** Row `r` is entirely `p`. */
  predicate RowFilled(g: Grid, r: int, p: char)
    requires WellFormed(g) && 0 <= r < Size
  {
    forall c :: 0 <= c < Size ==> g[r][c] == p
  }

  /** Column `c` is entirely `p`. */
  predicate ColFilled(g: Grid, c: int, p: char)
    requires WellFormed(g) && 0 <= c < Size
  {
    forall r :: 0 <= r < Size ==> g[r][c] == p
  }

  predicate RowWin(g: Grid, p: char)
    requires WellFormed(g)
  {
    exists r :: 0 <= r < Size && RowFilled(g, r, p)
  }

  predicate ColWin(g: Grid, p: char)
    requires WellFormed(g)
  {
    exists c :: 0 <= c < Size && ColFilled(g, c, p)
  }

  /** The main diagonal, cells (i, i), is entirely `p`. */
  predicate DiagonalWin(g: Grid, p: char)
    requires WellFormed(g)
  {
    forall i :: 0 <= i < Size ==> g[i][i] == p
  }

  /** The anti-diagonal, cells (i, Size - 1 - i), is entirely `p`. */
  predicate AntiDiagonalWin(g: Grid, p: char)
    requires WellFormed(g)
  {
    forall i :: 0 <= i < Size ==> g[i][Size - 1 - i] == p
  }

  /** `p` holds every cell of some row, some column or one of the two diagonals. */
  predicate Wins(g: Grid, p: char)
    requires WellFormed(g)
  {
    RowWin(g, p) || ColWin(g, p) || DiagonalWin(g, p) || AntiDiagonalWin(g, p)
  }

  /** The cells of column `c`, top to bottom. */
  function Column(g: Grid, c: int): (col: seq<char>)
    requires WellFormed(g) && 0 <= c < Size
    ensures |col| == Size && forall r :: 0 <= r < Size ==> col[r] == g[r][c]
  {
    seq(Size, r requires 0 <= r < Size => g[r][c])
  }

  /** The cells of the main diagonal, (0, 0) first. */
  function Diagonal(g: Grid): (d: seq<char>)
    requires WellFormed(g)
    ensures |d| == Size && forall i :: 0 <= i < Size ==> d[i] == g[i][i]
  {
    seq(Size, i requires 0 <= i < Size => g[i][i])
  }

  /** The cells of the anti-diagonal, (0, Size - 1) first. */
  function AntiDiagonal(g: Grid): (d: seq<char>)
    requires WellFormed(g)
    ensures |d| == Size && forall i :: 0 <= i < Size ==> d[i] == g[i][Size - 1 - i]
  {
    seq(Size, i requires 0 <= i < Size => g[i][Size - 1 - i])
  }

  /**
   * A write of `p` can never complete a line for another mark `q`: every line
   * of `q` after the write avoids the written cell, so it was there before.
   */
  lemma WriteKeepsOthersLosing(g: Grid, row: int, col: int, p: char, q: char)
    requires WellFormed(g) && InRange(row, col) && p != q
    requires !Wins(g, q)
    ensures !Wins(SetCell(g, row, col, p), q)
  {
    var g' := SetCell(g, row, col, p);
    if RowWin(g', q) {
      var r :| 0 <= r < Size && RowFilled(g', r, q);
      assert RowFilled(g, r, q) by {
        forall c | 0 <= c < Size ensures g[r][c] == q {
          assert g'[r][c] == q;
        }
      }
      assert false;
    }
    if ColWin(g', q) {
      var c :| 0 <= c < Size && ColFilled(g', c, q);
      assert ColFilled(g, c, q) by {
        forall r | 0 <= r < Size ensures g[r][c] == q {
          assert g'[r][c] == q;
        }
      }
      assert false;
    }
  }

  /**
   * A board built directly (not by play) on which both players hold a full
   * row: the win predicates report both, as the cells say.
   */
  lemma BothCanWinOnConstructedBoard()
    ensures var g := [[Human, Human, Human], [Computer, Computer, Computer], EmptyRow];
            WellFormed(g) && LegalCells(g) && Wins(g, Human) && Wins(g, Computer)
  {
    var g := [[Human, Human, Human], [Computer, Computer, Computer], EmptyRow];
    assert RowFilled(g, 0, Human);
    assert RowFilled(g, 1, Computer);
  }

  // ---------------------------------------------------------------------------
  // End of game
  // ---------------------------------------------------------------------------

  /** No cell is empty. */
  predicate Full(g: Grid)
    requires WellFormed(g)
  {
    forall r, c :: 0 <= r < Size && 0 <= c < Size ==> g[r][c] != Empty
  }

  /** The board is full and neither player holds a line. */
  predicate IsTie(g: Grid)
    requires WellFormed(g)
  {
    Full(g) && !Wins(g, Computer) && !Wins(g, Human)
  }

  /** The game is neither tied nor won by either player. */
  predicate IsRunning(g: Grid)
    requires WellFormed(g)
  {
    !IsTie(g) && !Wins(g, Computer) && !Wins(g, Human)
  }

  /** The board is full exactly when no empty cell is left to count. */
  lemma FullIffNoEmptyCells(g: Grid)
    requires WellFormed(g)
    ensures Full(g) <==> CountCells(g, Empty) == 0
    ensures Full(g) <==> Squares(g, Empty) == {}
  {
    CountIsCardinality(g, Empty);
    if !Full(g) {
      var r, c :| 0 <= r < Size && 0 <= c < Size && g[r][c] == Empty;
      assert 0 <= r < |g| && 0 <= c < |g[r]|;
      assert Square(r, c) in Squares(g, Empty);
    }
  }

  /**
   * The end-of-game predicates: a running game has an empty cell and no
   * winner, and a game that is not running is tied or won by someone.
   */
  lemma EndStates(g: Grid)
    requires WellFormed(g)
    ensures IsRunning(g) <==> !Full(g) && !Wins(g, Human) && !Wins(g, Computer)
    ensures IsRunning(g) ==> CountCells(g, Empty) > 0
    ensures !IsRunning(g) <==> IsTie(g) || Wins(g, Human) || Wins(g, Computer)
    ensures IsTie(g) ==> !Wins(g, Human) && !Wins(g, Computer)
  {
    FullIffNoEmptyCells(g);
  }

  // ---------------------------------------------------------------------------
  // Play under the calling protocol
  // ---------------------------------------------------------------------------

  /** A mark `player` wants to place at square `at`. */
  datatype Move = Move(player: char, at: Square)

  /**
   * The board after `moves`, where a move is applied only while the game is
   * still running and its square is on the board and available; any other
   * move leaves the board as it is.
   */
  function Replay(g: Grid, moves: seq<Move>): (g': Grid)
    requires WellFormed(g)
    ensures WellFormed(g')
    decreases |moves|
  {
    if moves == [] then g
    else
      var m := moves[0];
      var next :=
        if IsRunning(g) && InRange(m.at.row, m.at.col) && g[m.at.row][m.at.col] == Empty
        then SetCell(g, m.at.row, m.at.col, m.player)
        else g;
      Replay(next, moves[1..])
  }

  /**
   * Starting from a board without a double win, no sequence of moves played
   * under the protocol produces a board on which both players have won.
   */
  lemma {:induction false} ReplayAtMostOneWinner(g: Grid, moves: seq<Move>)
    requires WellFormed(g)
    requires !(Wins(g, Human) && Wins(g, Computer))
    ensures var g' := Replay(g, moves); !(Wins(g', Human) && Wins(g', Computer))
    decreases |moves|
  {
    if moves != [] {
      var m := moves[0];
      if IsRunning(g) && InRange(m.at.row, m.at.col) && g[m.at.row][m.at.col] == Empty {
        var next := SetCell(g, m.at.row, m.at.col, m.player);
        if m.player != Human {
          WriteKeepsOthersLosing(g, m.at.row, m.at.col, m.player, Human);
        } else {
          WriteKeepsOthersLosing(g, m.at.row, m.at.col, m.player, Computer);
        }
        ReplayAtMostOneWinner(next, moves[1..]);
      } else {
        ReplayAtMostOneWinner(g, moves[1..]);
      }
    }
  }

  // ---------------------------------------------------------------------------
  // Text rendering
  // ---------------------------------------------------------------------------

  /** Each cell followed by one space. */
  function CellsText(cells: seq<char>): (s: string)
    ensures |s| == 2 * |cells|
  {
    if cells == [] then []
    else CellsText(cells[..|cells| - 1]) + [cells[|cells| - 1], ' ']
  }

  /** One line per row: the row's `CellsText`, then a newline. */
  function Render(g: Grid): (s: string)
  {
    if g == [] then []
    else Render(g[..|g| - 1]) + CellsText(g[|g| - 1]) + "\n"
  }

  /** Where the character of cell (`r`, `c`) stands in the rendering; `Offset(r, Size)` is the row's newline. */
  function Offset(r: int, c: int): int {
    r * (2 * Size + 1) + 2 * c
  }

  lemma {:induction false} CellsTextAt(cells: seq<char>, c: int)
    requires 0 <= c < |cells|
    ensures CellsText(cells)[2 * c] == cells[c] && CellsText(cells)[2 * c + 1] == ' '
  {
    var n := |cells| - 1;
    if c < n {
      CellsTextAt(cells[..n], c);
    }
  }

  lemma {:induction false} RenderLength(g: Grid)
    requires forall r :: 0 <= r < |g| ==> |g[r]| == Size
    ensures |Render(g)| == (2 * Size + 1) * |g|
  {
    if g != [] {
      var n := |g| - 1;
      assert forall r :: 0 <= r < n ==> g[..n][r] == g[r];
      RenderLength(g[..n]);
    }
  }

  lemma {:induction false} RenderAt(g: Grid, r: int, c: int)
    requires forall i :: 0 <= i < |g| ==> |g[i]| == Size
    requires 0 <= r < |g| && 0 <= c <= Size
    ensures |Render(g)| == (2 * Size + 1) * |g|
    ensures c < Size ==> Render(g)[Offset(r, c)] == g[r][c] && Render(g)[Offset(r, c) + 1] == ' '
    ensures c == Size ==> Render(g)[Offset(r, c)] == '\n'
  {
    var n := |g| - 1;
    var prefix := g[..n];
    assert forall i :: 0 <= i < n ==> prefix[i] == g[i];
    RenderLength(prefix);
    RenderLength(g);
    assert Render(g) == Render(prefix) + CellsText(g[n]) + "\n";
    if r < n {
      RenderAt(prefix, r, c);
    } else if c < Size {
      CellsTextAt(g[n], c);
    }
  }

  /**
   * The rendering of rows of `Size` cells has `2 * Size + 1` characters per
   * row: each cell, then a space, and a newline at the end of the row.
   */
  lemma RenderLayout(g: Grid)
    requires forall r :: 0 <= r < |g| ==> |g[r]| == Size
    ensures |Render(g)| == (2 * Size + 1) * |g|
    ensures forall r, c :: 0 <= r < |g| && 0 <= c < Size ==>
              Render(g)[Offset(r, c)] == g[r][c] && Render(g)[Offset(r, c) + 1] == ' '
    ensures forall r :: 0 <= r < |g| ==> Render(g)[Offset(r, Size)] == '\n'
  {
    RenderLength(g);
    forall r, c | 0 <= r < |g| && 0 <= c <= Size
      ensures c < Size ==> Render(g)[Offset(r, c)] == g[r][c] && Render(g)[Offset(r, c) + 1] == ' '
      ensures c == Size ==> Render(g)[Offset(r, c)] == '\n'
    {
      RenderAt(g, r, c);
    }
  }
}
