/**
 * The pure rules of the game, stated on plain values: where a piece may stand,
 * what merging it writes, which rows a line clear removes, where a new piece
 * appears and where a key press would move the piece.
 */
module Rules {
  import opened Matrices

  /** The falling piece: its shape anchored with its top-left cell at column `x`, row `y`. */
  datatype Piece = Piece(x: int, y: int, shape: Grid)

  /** The commands the engine reacts to; every other key is `OtherKey`. */
  datatype Key = ArrowLeft | ArrowRight | ArrowDown | ArrowUp | OtherKey

  // ---------------------------------------------------------------- collision

  /**
   * Board position (x, y) cannot hold a piece cell: it is left or right of the
   * board, at or below the floor, or a settled cell. Rows above the top (y < 0)
   * are free inside the width.
   */
  predicate Blocked(board: Grid, rows: nat, cols: nat, x: int, y: int)
    requires IsRect(board, rows, cols)
  {
    x < 0 || x >= cols || y >= rows || (y >= 0 && board[y][x] != 0)
  }

  /** Cell (dy, dx) of `s` is occupied and, with `s` anchored at (x, y), lands on a blocked position. */
  predicate Hit(board: Grid, rows: nat, cols: nat, s: Grid, x: int, y: int, dy: int, dx: int)
    requires IsRect(board, rows, cols)
    requires 0 <= dy < |s| && 0 <= dx < |s[dy]|
  {
    s[dy][dx] != 0 && Blocked(board, rows, cols, x + dx, y + dy)
  }

  /** Some cell of row `dy` from column `from` on hits, scanning left to right. */
  function RowCollides(board: Grid, rows: nat, cols: nat, s: Grid, x: int, y: int, dy: int, from: nat): (r: bool)
    requires IsRect(board, rows, cols)
    requires 0 <= dy < |s| && from <= |s[dy]|
    ensures r <==> exists dx :: from <= dx < |s[dy]| && Hit(board, rows, cols, s, x, y, dy, dx)
    decreases |s[dy]| - from
  {
    if from == |s[dy]| then false
    else Hit(board, rows, cols, s, x, y, dy, from) || RowCollides(board, rows, cols, s, x, y, dy, from + 1)
  }

  /** Some cell of the rows of `s` from row `from` on hits, scanning top to bottom. */
  function RowsCollide(board: Grid, rows: nat, cols: nat, s: Grid, x: int, y: int, from: nat): (r: bool)
    requires IsRect(board, rows, cols)
    requires from <= |s|
    ensures r <==> exists dy, dx :: from <= dy < |s| && 0 <= dx < |s[dy]| && Hit(board, rows, cols, s, x, y, dy, dx)
    decreases |s| - from
  {
    if from == |s| then false
    else RowCollides(board, rows, cols, s, x, y, from, 0) || RowsCollide(board, rows, cols, s, x, y, from + 1)
  }

  /** Shape `s` anchored at (x, y) collides with the walls, the floor or a settled cell. */
  function Collides(board: Grid, rows: nat, cols: nat, s: Grid, x: int, y: int): (r: bool)
    requires IsRect(board, rows, cols)
    ensures r <==> exists dy, dx :: 0 <= dy < |s| && 0 <= dx < |s[dy]| && Hit(board, rows, cols, s, x, y, dy, dx)
  {
    RowsCollide(board, rows, cols, s, x, y, 0)
  }

  /**
   * A piece that does not collide and whose top row is on the board stands on
   * free board cells only: every occupied cell of its shape is inside the board
   * on an empty cell. So merging it writes in bounds and overwrites nothing.
   */
  lemma {:induction false} FreeCellsUnderPiece(board: Grid, rows: nat, cols: nat, s: Grid, x: int, y: int)
    requires IsRect(board, rows, cols) && y >= 0
    requires !Collides(board, rows, cols, s, x, y)
    ensures forall dy, dx :: 0 <= dy < |s| && 0 <= dx < |s[dy]| && s[dy][dx] != 0 ==>
      0 <= y + dy < rows && 0 <= x + dx < cols && board[y + dy][x + dx] == 0
  {
    forall dy, dx | 0 <= dy < |s| && 0 <= dx < |s[dy]| && s[dy][dx] != 0
      ensures 0 <= y + dy < rows && 0 <= x + dx < cols && board[y + dy][x + dx] == 0
    {
      assert !Hit(board, rows, cols, s, x, y, dy, dx);
    }
  }

  /** An occupied cell left of column 0 makes the position collide: at x = 0 a shape with an occupied first column cannot move left. */
  lemma {:induction false} LeftWallBlocks(board: Grid, rows: nat, cols: nat, s: Grid, y: int, dy: int)
    requires IsRect(board, rows, cols)
    requires 0 <= dy < |s| && |s[dy]| > 0 && s[dy][0] != 0
    ensures Collides(board, rows, cols, s, -1, y)
  {
    assert Hit(board, rows, cols, s, -1, y, dy, 0);
  }

  /** An occupied cell on the last column makes one step to the right collide. */
  lemma {:induction false} RightWallBlocks(board: Grid, rows: nat, cols: nat, s: Grid, x: int, y: int, dy: int, dx: int)
    requires IsRect(board, rows, cols)
    requires 0 <= dy < |s| && 0 <= dx < |s[dy]| && s[dy][dx] != 0 && x + dx == cols - 1
    ensures Collides(board, rows, cols, s, x + 1, y)
  {
    assert Hit(board, rows, cols, s, x + 1, y, dy, dx);
  }

  /**
   * A live piece with an occupied cell in row `dy` of its shape has that cell
   * above the floor, so its row is below `rows - dy`: a piece that keeps moving
   * down one row per step must come to rest after fewer than `rows` steps.
   */
  lemma {:induction false} LivePieceAboveFloor(board: Grid, rows: nat, cols: nat, s: Grid, x: int, y: int, dy: int, dx: int)
    requires IsRect(board, rows, cols)
    requires !Collides(board, rows, cols, s, x, y)
    requires 0 <= dy < |s| && 0 <= dx < |s[dy]| && s[dy][dx] != 0
    ensures y + dy < rows
    ensures Collides(board, rows, cols, s, x, y + (rows - y - dy))
  {
    assert !Hit(board, rows, cols, s, x, y, dy, dx);
    assert Hit(board, rows, cols, s, x, y + (rows - y - dy), dy, dx);
  }

  // ---------------------------------------------------------------- merge and view

  /** Board cell (r, c) lies under an occupied cell of `s` anchored at (x, y). */
  predicate Covers(s: Grid, x: int, y: int, r: int, c: int)
  {
    0 <= r - y < |s| && 0 <= c - x < |s[r - y]| && s[r - y][c - x] != 0
  }

  /**
   * The board with every cell under an occupied cell of `s` set to 1; cells of
   * the shape that fall outside the board are dropped.
   */
  function Stamp(board: Grid, s: Grid, x: int, y: int): (m: Grid)
    ensures |m| == |board|
    ensures forall r :: 0 <= r < |board| ==> |m[r]| == |board[r]|
  {
    seq(|board|, r requires 0 <= r < |board| =>
      seq(|board[r]|, c requires 0 <= c < |board[r]| =>
        if Covers(s, x, y, r, c) then 1 else board[r][c]))
  }

  /**
   * Stamping a piece that stands on free cells marks each of its occupied cells
   * on the board, keeps every settled cell, and clears nothing: the occupied
   * cells after the stamp are those before it plus the piece's.
   */
  lemma {:induction false} StampAddsPiece(board: Grid, rows: nat, cols: nat, s: Grid, x: int, y: int)
    requires IsRect(board, rows, cols) && y >= 0
    requires !Collides(board, rows, cols, s, x, y)
    ensures IsRect(Stamp(board, s, x, y), rows, cols)
    ensures forall dy, dx :: 0 <= dy < |s| && 0 <= dx < |s[dy]| && s[dy][dx] != 0 ==>
      0 <= y + dy < rows && 0 <= x + dx < cols && Stamp(board, s, x, y)[y + dy][x + dx] == 1
    ensures forall r, c :: 0 <= r < rows && 0 <= c < cols ==>
      (Stamp(board, s, x, y)[r][c] != 0 <==> board[r][c] != 0 || Covers(s, x, y, r, c))
  {
    var m := Stamp(board, s, x, y);
    FreeCellsUnderPiece(board, rows, cols, s, x, y);
    forall dy, dx | 0 <= dy < |s| && 0 <= dx < |s[dy]| && s[dy][dx] != 0
      ensures m[y + dy][x + dx] == 1
    {
      assert Covers(s, x, y, y + dy, x + dx);
    }
  }

  // ---------------------------------------------------------------- line clearing

  /** A row is full when none of its cells is empty. */
  predicate IsFull(row: seq<int>)
  {
    forall c :: 0 <= c < |row| ==> row[c] != 0
  }

  /** The number of full rows of `board`. */
  function FullCount(board: Grid): (n: nat)
    ensures n <= |board|
    ensures n == 0 <==> forall i :: 0 <= i < |board| ==> !IsFull(board[i])
  {
    if board == [] then 0
    else (if IsFull(board[0]) then 1 else 0) + FullCount(board[1..])
  }

  /** The rows of `board` that still have an empty cell, in their original order. */
  function OpenRows(board: Grid): (kept: Grid)
    ensures |kept| == |board| - FullCount(board)
    ensures forall i :: 0 <= i < |kept| ==> kept[i] in board && !IsFull(kept[i])
    ensures forall row :: row in board && !IsFull(row) ==> row in kept
  {
    if board == [] then []
    else (if IsFull(board[0]) then [] else [board[0]]) + OpenRows(board[1..])
  }

  /** Filtering a concatenation filters each part: the kept rows keep their relative order. */
  lemma {:induction false} OpenRowsAppend(a: Grid, b: Grid)
    ensures OpenRows(a + b) == OpenRows(a) + OpenRows(b)
  {
    if a == [] {
      assert a + b == b;
    } else {
      assert (a + b)[0] == a[0];
      assert (a + b)[1..] == a[1..] + b;
      OpenRowsAppend(a[1..], b);
    }
  }

  /** The filter keeps no row more often than the board holds it. */
  lemma {:induction false} OpenRowsSubMultiset(board: Grid)
    ensures multiset(OpenRows(board)) <= multiset(board)
  {
    if board != [] {
      var rest := board[1..];
      var head := if IsFull(board[0]) then [] else [board[0]];
      OpenRowsSubMultiset(rest);
      assert board == [board[0]] + rest;
      assert multiset(board) == multiset([board[0]]) + multiset(rest);
      assert multiset(OpenRows(board)) == multiset(head) + multiset(OpenRows(rest));
    }
  }

  /** A board without full rows loses nothing to the filter. */
  lemma {:induction false} OpenRowsOfClearBoard(board: Grid)
    requires FullCount(board) == 0
    ensures OpenRows(board) == board
  {
    if board != [] {
      assert !IsFull(board[0]);
      OpenRowsOfClearBoard(board[1..]);
    }
  }

  /** A row of `cols` empty cells. */
  function Zeros(cols: nat): (row: seq<int>)
  {
    seq(cols, _ => 0)
  }

  /** `n` rows of `cols` empty cells. */
  function EmptyBoard(n: nat, cols: nat): (b: Grid)
  {
    seq(n, _ => Zeros(cols))
  }

  /** The board after a line clear: one empty row on top for each full row removed, then the kept rows. */
  function Compacted(board: Grid, cols: nat): (m: Grid)
    ensures |m| == |board|
    ensures forall row :: row in m ==> row == Zeros(cols) || (row in board && !IsFull(row))
  {
    EmptyBoard(FullCount(board), cols) + OpenRows(board)
  }

  /** A line clear keeps the board `rows` by `cols` and leaves no full row. */
  lemma {:induction false} CompactedIsClear(board: Grid, rows: nat, cols: nat)
    requires IsRect(board, rows, cols) && cols > 0
    ensures IsRect(Compacted(board, cols), rows, cols)
    ensures forall i :: 0 <= i < rows ==> !IsFull(Compacted(board, cols)[i])
  {
    var n := FullCount(board);
    var kept := OpenRows(board);
    var m := Compacted(board, cols);
    forall i | 0 <= i < rows
      ensures |m[i]| == cols && !IsFull(m[i])
    {
      if i < n {
        assert m[i] == Zeros(cols);
        assert m[i][0] == 0;
      } else {
        assert m[i] == kept[i - n];
        assert kept[i - n] in board;
      }
    }
  }

  /**
   * After a line clear the empty rows are on top, one per full row removed, the
   * kept rows follow in their order, and a board without full rows is unchanged.
   */
  lemma {:induction false} CompactedLayout(board: Grid, cols: nat)
    ensures |Compacted(board, cols)| == |board|
    ensures forall i :: 0 <= i < FullCount(board) ==> Compacted(board, cols)[i] == Zeros(cols)
    ensures Compacted(board, cols)[FullCount(board)..] == OpenRows(board)
    ensures FullCount(board) == 0 ==> Compacted(board, cols) == board
  {
    if FullCount(board) == 0 {
      OpenRowsOfClearBoard(board);
    }
  }

  // ---------------------------------------------------------------- spawning

  /**
   * A new piece of shape `s`: horizontally centred, `cols / 2` less half the
   * shape's width rounded up, on the top row.
   */
  function Spawned(s: Grid, cols: nat): (p: Piece)
    requires |s| > 0
    ensures p.y == 0 && p.shape == s
    ensures 2 * p.x + |s[0]| <= cols && cols <= 2 * p.x + |s[0]| + 2
  {
    Piece(cols / 2 - (|s[0]| + 1) / 2, 0, s)
  }

  /**
   * On an empty board a new piece is free when the shape is no taller than the
   * board and half its width rounded up is at most half the board width rounded
   * down (every shape no wider than an even board, or narrower than an odd one).
   */
  lemma SpawnOnEmptyBoardIsFree(rows: nat, cols: nat, s: Grid)
    requires IsShape(s) && |s| <= rows && (|s[0]| + 1) / 2 <= cols / 2
    ensures IsRect(EmptyBoard(rows, cols), rows, cols)
    ensures !Collides(EmptyBoard(rows, cols), rows, cols, s, Spawned(s, cols).x, 0)
  {
  }

  /** On a one-cell board a one-cell piece spawns left of the board, so the first spawn of a game collides. */
  lemma OneColumnSpawnCollides()
    ensures IsRect(EmptyBoard(1, 1), 1, 1)
    ensures Collides(EmptyBoard(1, 1), 1, 1, [[1]], Spawned([[1]], 1).x, 0)
  {
  }

  /** An odd-width shape as wide as an odd-width board appears one column left of the board. */
  lemma WideShapeSpawnsOffBoard(cols: nat, s: Grid)
    requires |s| > 0 && |s[0]| == cols && cols % 2 == 1
    ensures Spawned(s, cols).x == -1
  {
  }

  // ---------------------------------------------------------------- keys

  /** Where `key` would put the piece if nothing were in the way. */
  function Moved(p: Piece, key: Key): (m: Piece)
    requires IsShape(p.shape)
    ensures IsShape(m.shape)
    ensures p.x - 1 <= m.x <= p.x + 1 && p.y <= m.y <= p.y + 1
    ensures m.x != p.x ==> m.y == p.y && m.shape == p.shape
    ensures m.shape != p.shape ==> key == ArrowUp && m.x == p.x && m.y == p.y
  {
    match key
    case ArrowLeft => p.(x := p.x - 1)
    case ArrowRight => p.(x := p.x + 1)
    case ArrowDown => p.(y := p.y + 1)
    case ArrowUp => p.(shape := Rotate(p.shape))
    case OtherKey => p
  }
}
