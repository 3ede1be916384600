/**
 * The game engine: one object owning the board, the falling piece, the score
 * and the game-over flag, advanced by `Tick` and steered by `HandleKey`.
 * The random piece choice is the parameter `choice`, an index into the catalog.
 */
module Tetris {
  import opened Matrices
  import opened Rules

  datatype Option<T> = None | Some(value: T)

  class Game {
    const rows: nat
    const cols: nat
    /** The shapes new pieces are drawn from. */
    const catalog: seq<Grid>

    var board: Grid
    var score: int
    var piece: Option<Piece>
    var isGameOver: bool
    /** Whether the tick timer is armed. */
    var running: bool

    /** Shape invariant of the engine: fixed board size, well-formed shapes, a non-negative score. */
    ghost predicate WellFormed()
      reads this
    {
      rows > 0 && cols > 0 &&
      |catalog| > 0 && (forall i :: 0 <= i < |catalog| ==> IsShape(catalog[i])) &&
      IsRect(board, rows, cols) &&
      score >= 0 &&
      (piece.Some? ==> IsShape(piece.value.shape) && piece.value.y >= 0)
    }

    /** While the game is on, the falling piece overlaps neither the walls, the floor nor a settled cell. */
    ghost predicate Valid()
      reads this
    {
      WellFormed() &&
      (piece.Some? && !isGameOver ==>
        !Collides(board, rows, cols, piece.value.shape, piece.value.x, piece.value.y))
    }

    constructor (rows: nat, cols: nat, catalog: seq<Grid>)
      requires rows > 0 && cols > 0
      requires |catalog| > 0 && forall i :: 0 <= i < |catalog| ==> IsShape(catalog[i])
      ensures Valid()
      ensures this.rows == rows && this.cols == cols && this.catalog == catalog
      ensures board == EmptyBoard(rows, cols) && score == 0
      ensures piece == None && !isGameOver && !running
    {
      this.rows := rows;
      this.cols := cols;
      this.catalog := catalog;
      board := EmptyBoard(rows, cols);
      score := 0;
      piece := None;
      isGameOver := false;
      running := false;
    }

    /** Puts shape `catalog[choice]` at the spawn position; ends the game if it collides there. */
    method SpawnPiece(choice: nat)
      requires WellFormed() && choice < |catalog|
      modifies this`piece, this`isGameOver, this`running
      ensures Valid()
      ensures piece == Some(Spawned(catalog[choice], cols))
      ensures isGameOver == (old(isGameOver) || Collides(board, rows, cols, catalog[choice], piece.value.x, 0))
      ensures running == (old(running) && !Collides(board, rows, cols, catalog[choice], piece.value.x, 0))
    {
      var shape := catalog[choice];
      piece := Some(Spawned(shape, cols));
      if Collides(board, rows, cols, piece.value.shape, piece.value.x, piece.value.y) {
        StopGame();
        isGameOver := true;
      }
    }

    /** Writes 1 into every board cell under an occupied cell of the falling piece. */
    method MergePiece()
      requires Valid() && piece.Some? && !isGameOver
      modifies this`board
      ensures WellFormed()
      ensures board == Stamp(old(board), piece.value.shape, piece.value.x, piece.value.y)
    {
      var s, x, y := piece.value.shape, piece.value.x, piece.value.y;
      FreeCellsUnderPiece(board, rows, cols, s, x, y);
      ghost var before := board;
      var dy := 0;
      while dy < |s|
        invariant 0 <= dy <= |s|
        invariant IsRect(board, rows, cols)
        invariant forall r, c :: 0 <= r < rows && 0 <= c < cols ==>
          board[r][c] == if Covers(s, x, y, r, c) && r - y < dy then 1 else before[r][c]
      {
        var dx := 0;
        while dx < |s[dy]|
          invariant 0 <= dx <= |s[dy]|
          invariant IsRect(board, rows, cols)
          invariant forall r, c :: 0 <= r < rows && 0 <= c < cols ==>
            board[r][c] == if Covers(s, x, y, r, c) && (r - y < dy || (r - y == dy && c - x < dx)) then 1 else before[r][c]
        {
          if s[dy][dx] != 0 {
            board := board[y + dy := board[y + dy][x + dx := 1]];
          }
          dx := dx + 1;
        }
        dy := dy + 1;
      }
      SameCells(board, Stamp(before, s, x, y), rows, cols);
    }

    /** Removes every full row, adds 100 points per removed row, and refills the top with empty rows. */
    method ClearLines()
      requires WellFormed()
      modifies this`board, this`score
      ensures WellFormed()
      ensures board == Compacted(old(board), cols)
      ensures forall i :: 0 <= i < rows ==> !IsFull(board[i])
      ensures score == old(score) + 100 * FullCount(old(board))
    {
      ghost var full := FullCount(board);
      CompactedIsClear(board, rows, cols);
      board := OpenRows(board);
      var cleared := rows - |board|;
      if cleared > 0 {
        score := score + cleared * 100;
        board := FillToHeight(board, rows, cols);
      }
      assert board == EmptyBoard(full, cols) + OpenRows(old(board));
    }

    /**
     * One step of the game clock: spawn a piece if there is none, otherwise move
     * it down a row if that is free, otherwise merge it, clear lines and spawn
     * the next piece.
     */
    method Tick(choice: nat)
      requires Valid() && !isGameOver && choice < |catalog|
      modifies this
      ensures Valid()
      ensures score >= old(score)
      ensures running == (old(running) && !isGameOver)
      ensures old(piece).None? ==>
        board == old(board) && score == old(score) &&
        piece == Some(Spawned(catalog[choice], cols)) &&
        isGameOver == Collides(board, rows, cols, catalog[choice], piece.value.x, 0)
      ensures old(piece).Some? ==>
        var p := old(piece).value;
        !Collides(old(board), rows, cols, p.shape, p.x, p.y + 1) ==>
          board == old(board) && score == old(score) && !isGameOver && running == old(running) &&
          piece == Some(p.(y := p.y + 1))
      ensures old(piece).Some? ==>
        var p := old(piece).value;
        var merged := Stamp(old(board), p.shape, p.x, p.y);
        Collides(old(board), rows, cols, p.shape, p.x, p.y + 1) ==>
          board == Compacted(merged, cols) &&
          score == old(score) + 100 * FullCount(merged) &&
          piece == Some(Spawned(catalog[choice], cols)) &&
          isGameOver == Collides(board, rows, cols, catalog[choice], piece.value.x, 0)
    {
      if piece.None? {
        SpawnPiece(choice);
        return;
      }
      if !Collides(board, rows, cols, piece.value.shape, piece.value.x, piece.value.y + 1) {
        piece := Some(piece.value.(y := piece.value.y + 1));
      } else {
        MergePiece();
        ClearLines();
        SpawnPiece(choice);
      }
    }

    /** Moves or rotates the piece as `key` asks, unless the result would collide. */
    method HandleKey(key: Key)
      requires Valid()
      modifies this`piece
      ensures Valid()
      ensures old(piece).None? || isGameOver ==> piece == old(piece)
      ensures old(piece).Some? && !isGameOver ==>
        var q := Moved(old(piece).value, key);
        piece == Some(if Collides(board, rows, cols, q.shape, q.x, q.y) then old(piece).value else q)
    {
      if piece.None? || isGameOver {
        return;
      }
      var p := piece.value;
      if key == ArrowLeft && !Collides(board, rows, cols, p.shape, p.x - 1, p.y) {
        piece := Some(p.(x := p.x - 1));
      }
      if key == ArrowRight && !Collides(board, rows, cols, p.shape, p.x + 1, p.y) {
        piece := Some(p.(x := p.x + 1));
      }
      if key == ArrowDown && !Collides(board, rows, cols, p.shape, p.x, p.y + 1) {
        piece := Some(p.(y := p.y + 1));
      }
      if key == ArrowUp {
        var newShape := Rotate(p.shape);
        if !Collides(board, rows, cols, newShape, p.x, p.y) {
          piece := Some(p.(shape := newShape));
        }
      }
    }

    /**
     * A copy of the board with the falling piece drawn on it, for display;
     * piece cells outside the board are skipped and the engine state is untouched.
     */
    method DrawBoard() returns (view: Grid)
      requires WellFormed()
      ensures piece.None? ==> view == board
      ensures piece.Some? ==> view == Stamp(board, piece.value.shape, piece.value.x, piece.value.y)
    {
      view := board;
      if piece.Some? {
        var s, x, y := piece.value.shape, piece.value.x, piece.value.y;
        var dy := 0;
        while dy < |s|
          invariant 0 <= dy <= |s|
          invariant IsRect(view, rows, cols)
          invariant forall r, c :: 0 <= r < rows && 0 <= c < cols ==>
            view[r][c] == if Covers(s, x, y, r, c) && r - y < dy then 1 else board[r][c]
        {
          var dx := 0;
          while dx < |s[dy]|
            invariant 0 <= dx <= |s[dy]|
            invariant IsRect(view, rows, cols)
            invariant forall r, c :: 0 <= r < rows && 0 <= c < cols ==>
              view[r][c] == if Covers(s, x, y, r, c) && (r - y < dy || (r - y == dy && c - x < dx)) then 1 else board[r][c]
          {
            var cell := s[dy][dx];
            if cell != 0 {
              var yy, xx := y + dy, x + dx;
              if 0 <= yy < |view| && 0 <= xx < |view[yy]| {
                view := view[yy := view[yy][xx := cell]];
              }
            }
            dx := dx + 1;
          }
          dy := dy + 1;
        }
        SameCells(view, Stamp(board, s, x, y), rows, cols);
      }
    }

    /** Starts a new game: stops the clock, empties the board, zeroes the score, spawns a piece and arms the clock. */
    method StartGame(choice: nat)
      requires WellFormed() && choice < |catalog|
      modifies this`board, this`score, this`piece, this`isGameOver, this`running
      ensures Valid()
      ensures board == EmptyBoard(rows, cols) && score == 0 && running
      ensures piece == Some(Spawned(catalog[choice], cols))
      ensures isGameOver == Collides(board, rows, cols, catalog[choice], piece.value.x, 0)
    {
      StopGame();
      board := EmptyBoard(rows, cols);
      score := 0;
      isGameOver := false;
      SpawnPiece(choice);
      running := true;
    }

    /**
     * `StartGame` with the clock armed only when the first piece fits: a spawn
     * that ends the game leaves the timer stopped, as every later spawn does.
     */
    method StartGameChecked(choice: nat)
      requires WellFormed() && choice < |catalog|
      modifies this`board, this`score, this`piece, this`isGameOver, this`running
      ensures Valid()
      ensures board == EmptyBoard(rows, cols) && score == 0
      ensures piece == Some(Spawned(catalog[choice], cols))
      ensures isGameOver == Collides(board, rows, cols, catalog[choice], piece.value.x, 0)
      ensures running == !isGameOver
    {
      StopGame();
      board := EmptyBoard(rows, cols);
      score := 0;
      isGameOver := false;
      SpawnPiece(choice);
      if !isGameOver {
        running := true;
      }
    }

    /** Disarms the tick timer; stopping a stopped game does nothing. */
    method StopGame()
      modifies this`running
      ensures !running
    {
      if running {
        running := false;
      }
    }
  }

  /** Puts empty rows of `cols` cells on top of `rowsLeft` until there are `rows` rows. */
  method FillToHeight(rowsLeft: Grid, rows: nat, cols: nat) returns (b: Grid)
    requires |rowsLeft| <= rows
    ensures b == EmptyBoard(rows - |rowsLeft|, cols) + rowsLeft
  {
    b := rowsLeft;
    while |b| < rows
      invariant |rowsLeft| <= |b| <= rows
      invariant b == EmptyBoard(|b| - |rowsLeft|, cols) + rowsLeft
    {
      PrependEmptyRow(|b| - |rowsLeft|, cols);
      b := [Zeros(cols)] + b;
    }
  }

  /** Putting an empty row on top of `n` empty rows gives `n + 1` empty rows. */
  lemma PrependEmptyRow(n: nat, cols: nat)
    ensures [Zeros(cols)] + EmptyBoard(n, cols) == EmptyBoard(n + 1, cols)
  {
  }
}
