/**
 * The Tic Tac Toe game object: a board of three rows of three cells that the
 * human ('O') and the computer ('X') fill in place. Every query is proved
 * equal to its definition on `Board` values.
 */
module TicTacToe {
  import opened Board

  class Game {
    var board: Grid
    var size: int

    /** The board keeps its 3×3 shape and every cell holds one of the three marks. */
    ghost predicate Valid()
      reads this
    {
      size == Size && WellFormed(board) && LegalCells(board)
    }

    /** A new game: size 3 and an empty board. */
    constructor ()
      ensures Valid()
      ensures board == EmptyGrid()
      ensures CountCells(board, Empty) == Size * Size
    {
      size := Size;
      board := [];
      new;
      InitializeBoard();
    }

    /** Discards the board and appends `size` empty rows. */
    method InitializeBoard()
      requires size == Size
      modifies this`board
      ensures Valid()
      ensures board == EmptyGrid()
      ensures CountCells(board, Empty) == Size * Size
      ensures Squares(board, Human) == {} && Squares(board, Computer) == {}
    {
      board := [];
      var r := 0;
      while r < size
        invariant 0 <= r <= size
        invariant board == EmptyGrid()[..r]
      {
        board := board + [EmptyRow];
        r := r + 1;
      }
      EmptyGridCounts();
      CountIsCardinality(board, Human);
      CountIsCardinality(board, Computer);
    }

    /**
     * Marks (`row`, `col`) for the human. The cell is written whatever it
     * held: checking that it is available is the caller's job.
     */
    method HumanMove(row: int, col: int)
      requires Valid() && InRange(row, col)
      modifies this`board
      ensures Valid()
      ensures board == SetCell(old(board), row, col, Human)
      ensures forall r, c :: InRange(r, c) && (r != row || c != col) ==> board[r][c] == old(board)[r][c]
      ensures CountCells(board, Empty)
           == CountCells(old(board), Empty) - (if old(board)[row][col] == Empty then 1 else 0)
    {
      EmptyCountAfterWrite(board, row, col, Human);
      board := board[row := board[row][col := Human]];
    }

    /**
     * Marks some empty square for the computer and returns it. Which empty
     * square is chosen is left open.
     */
    method ComputerMove() returns (result: Square)
      requires Valid()
      requires CountCells(board, Empty) > 0
      modifies this`board
      ensures Valid()
      ensures InRange(result.row, result.col)
      ensures result in Squares(old(board), Empty)
      ensures board == SetCell(old(board), result.row, result.col, Computer)
      ensures Squares(board, Empty) == Squares(old(board), Empty) - {result}
      ensures CountCells(board, Empty) == CountCells(old(board), Empty) - 1
    {
      CountIsCardinality(board, Empty);
      ghost var some :| some in Squares(board, Empty);
      assert 0 <= some.row < size && 0 <= some.col < size && board[some.row][some.col] == Empty;
      var r: int, c: int :| 0 <= r < size && 0 <= c < size && board[r][c] == Empty;
      result := Square(r, c);
      SquaresAfterWrite(board, r, c, Computer, Empty);
      EmptyCountAfterWrite(board, r, c, Computer);
      board := board[r := board[r][c := Computer]];
    }

    /** The board as text: each cell followed by a space, one line per row. */
    method ToString() returns (result: string)
      requires Valid()
      ensures result == Render(board)
      ensures |result| == (2 * Size + 1) * Size
      ensures forall r, c :: InRange(r, c) ==>
                result[Offset(r, c)] == board[r][c] && result[Offset(r, c) + 1] == ' '
      ensures forall r :: 0 <= r < Size ==> result[Offset(r, Size)] == '\n'
    {
      result := "";
      var r := 0;
      while r < size
        invariant 0 <= r <= size
        invariant result == Render(board[..r])
      {
        var c := 0;
        while c < size
          invariant 0 <= c <= size
          invariant result == Render(board[..r]) + CellsText(board[r][..c])
        {
          assert board[r][..c + 1][..c] == board[r][..c];
          result := result + [board[r][c]] + " ";
          c := c + 1;
        }
        assert board[r][..c] == board[r];
        assert board[..r + 1][..r] == board[..r];
        result := result + "\n";
        r := r + 1;
      }
      assert board[..r] == board;
      RenderLayout(board);
    }

    /** Whether the square (`row`, `column`) is still empty. */
    function SquareAvailable(row: int, column: int): (available: bool)
      reads this
      requires Valid() && InRange(row, column)
      ensures available <==> Square(row, column) in Squares(board, Empty)
    {
      board[row][column] == Empty
    }

    /** The game is over without a winner: no empty square and no line for either player. */
    method Tied() returns (tied: bool)
      requires Valid()
      ensures tied <==> IsTie(board)
    {
      var remaining := MaxMovesRemaining();
      FullIffNoEmptyCells(board);
      tied := false;
      if remaining == 0 {
        var computerWon := DidWin(Computer);
        if !computerWon {
          var humanWon := DidWin(Human);
          tied := !humanWon;
        }
      }
    }

    /** The number of empty squares, counted cell by cell. */
    method MaxMovesRemaining() returns (result: int)
      requires Valid()
      ensures result == CountCells(board, Empty)
      ensures result == |Squares(board, Empty)|
      ensures 0 <= result <= Size * Size
    {
      result := 0;
      var r := 0;
      while r < size
        invariant 0 <= r <= size
        invariant result == CountCells(board[..r], Empty)
      {
        var c := 0;
        while c < size
          invariant 0 <= c <= size
          invariant result == CountCells(board[..r], Empty) + Occurrences(board[r][..c], Empty)
        {
          assert board[r][..c + 1][..c] == board[r][..c];
          if board[r][c] == Empty {
            result := result + 1;
          }
          c := c + 1;
        }
        assert board[r][..c] == board[r];
        assert board[..r + 1][..r] == board[..r];
        r := r + 1;
      }
      assert board[..r] == board;
      CountIsCardinality(board, Empty);
      CountsPartition(board);
    }

    /** The game goes on: some square is empty and neither player holds a line. */
    method StillRunning() returns (running: bool)
      requires Valid()
      ensures running <==> IsRunning(board)
      ensures running <==> !Full(board) && !Wins(board, Human) && !Wins(board, Computer)
      ensures running ==> CountCells(board, Empty) > 0
    {
      var tied := Tied();
      running := false;
      if !tied {
        var computerWon := DidWin(Computer);
        if !computerWon {
          var humanWon := DidWin(Human);
          running := !humanWon;
        }
      }
      FullIffNoEmptyCells(board);
    }

    /** Whether `playerChar` holds a whole row, column or diagonal. */
    method DidWin(playerChar: char) returns (won: bool)
      requires Valid()
      ensures won <==> Wins(board, playerChar)
    {
      won := WonByRow(playerChar);
      if !won {
        won := WonByCol(playerChar);
      }
      if !won {
        won := WonByDiagonal(playerChar);
      }
    }

    /** Some row counts `size` cells holding `playerChar`. */
    method WonByRow(playerChar: char) returns (won: bool)
      requires Valid()
      ensures won <==> exists r :: 0 <= r < Size && RowFilled(board, r, playerChar)
    {
      var r := 0;
      while r < size
        invariant 0 <= r <= size
        invariant forall r' :: 0 <= r' < r ==> !RowFilled(board, r', playerChar)
      {
        var rowSum := 0;
        var c := 0;
        while c < size
          invariant 0 <= c <= size
          invariant rowSum == Occurrences(board[r][..c], playerChar)
        {
          assert board[r][..c + 1][..c] == board[r][..c];
          if board[r][c] == playerChar {
            rowSum := rowSum + 1;
          }
          c := c + 1;
        }
        assert board[r][..c] == board[r];
        OccurrencesAll(board[r], playerChar);
        if rowSum == size {
          assert RowFilled(board, r, playerChar);
          return true;
        }
        r := r + 1;
      }
      return false;
    }

    /** Some column counts `size` cells holding `playerChar`. */
    method WonByCol(playerChar: char) returns (won: bool)
      requires Valid()
      ensures won <==> exists c :: 0 <= c < Size && ColFilled(board, c, playerChar)
    {
      var c := 0;
      while c < size
        invariant 0 <= c <= size
        invariant forall c' :: 0 <= c' < c ==> !ColFilled(board, c', playerChar)
      {
        var colSum := 0;
        var r := 0;
        while r < size
          invariant 0 <= r <= size
          invariant colSum == Occurrences(Column(board, c)[..r], playerChar)
        {
          assert Column(board, c)[..r + 1][..r] == Column(board, c)[..r];
          if board[r][c] == playerChar {
            colSum := colSum + 1;
          }
          r := r + 1;
        }
        assert Column(board, c)[..r] == Column(board, c);
        OccurrencesAll(Column(board, c), playerChar);
        if colSum == size {
          assert ColFilled(board, c, playerChar);
          return true;
        }
        c := c + 1;
      }
      return false;
    }

    /**
     * The main diagonal, scanned top-down, or the anti-diagonal, scanned
     * from its top-right cell by a counter running down from `size - 1`,
     * counts `size` cells holding `playerChar`.
     */
    method WonByDiagonal(playerChar: char) returns (won: bool)
      requires Valid()
      ensures won <==> DiagonalWin(board, playerChar) || AntiDiagonalWin(board, playerChar)
    {
      var sum := 0;
      var r := 0;
      while r < size
        invariant 0 <= r <= size
        invariant sum == Occurrences(Diagonal(board)[..r], playerChar)
      {
        assert Diagonal(board)[..r + 1][..r] == Diagonal(board)[..r];
        if board[r][r] == playerChar {
          sum := sum + 1;
        }
        r := r + 1;
      }
      assert Diagonal(board)[..r] == Diagonal(board);
      OccurrencesAll(Diagonal(board), playerChar);
      if sum == size {
        return true;
      }

      sum := 0;
      r := size - 1;
      while r >= 0
        invariant -1 <= r <= size - 1
        invariant sum == Occurrences(AntiDiagonal(board)[..size - 1 - r], playerChar)
      {
        var k := size - 1 - r;
        assert AntiDiagonal(board)[..k + 1][..k] == AntiDiagonal(board)[..k];
        if board[size - r - 1][r] == playerChar {
          sum := sum + 1;
        }
        r := r - 1;
      }
      assert AntiDiagonal(board)[..size] == AntiDiagonal(board);
      OccurrencesAll(AntiDiagonal(board), playerChar);
      if sum == size {
        return true;
      }

      return false;
    }
  }
}
