/** The gravity engine: the game state and the operations that change it.
    Gravity is +1 (towards higher rows, "down") or -1 ("up"); it flips on
    every lock, and the rotation direction follows it. */
module Engine {
  import opened Tetrominos
  import opened Grid
  import opened Placement

  /** The score a single lock adds for the rows it cleared: a lookup table,
      0 / 100 / 300 / 500 and 800 for four rows or more. */
  function ScoreDelta(cleared: nat): nat
  {
    if cleared == 0 then 0
    else if cleared == 1 then 100
    else if cleared == 2 then 300
    else if cleared == 3 then 500
    else 800
  }

  /** The rotation state after one turn under gravity `g`: clockwise (+1) when
      gravity is down, counter-clockwise (-1) otherwise. */
  function NextRotation(r: Rotation, g: int): Rotation
  {
    var dir := if g == 1 then 1 else -1;
    (r + dir + 4) % 4
  }

  /** The values the source's JavaScript `filter` keeps, in order. */
  function Filter(s: seq<int>, keep: int -> bool): (r: seq<int>)
    ensures forall v :: v in r <==> v in s && keep(v)
  {
    if s == [] then [] else (if keep(s[0]) then [s[0]] else []) + Filter(s[1..], keep)
  }

  /** Turning under gravity `g` and then under the flipped gravity `-g`
      returns to the starting rotation state: the two directions are inverse. */
  lemma RotationUndo(r: Rotation, g: int)
    requires g == 1 || g == -1
    ensures NextRotation(NextRotation(r, g), -g) == r
    ensures NextRotation(r, g) != r
  {
  }

  /** Four turns in the same direction come back to the start. */
  lemma RotationCycle(r: Rotation, g: int)
    ensures NextRotation(NextRotation(NextRotation(NextRotation(r, g), g), g), g) == r
  {
  }

  /** A lock on a board without full rows clears at most four rows, so the
      score it adds is read off the table 0 / 100 / 300 / 500 / 800 by the
      number of rows, and more rows never score less. */
  lemma LockScore(b: Board, kind: Kind, px: int, py: int, r: Rotation)
    requires WellFormed(b) && NoFullRows(b)
    ensures CountFull(Stamp(b, kind, px, py, r)) <= 4
    ensures ScoreDelta(CountFull(Stamp(b, kind, px, py, r))) == [0, 100, 300, 500, 800][CountFull(Stamp(b, kind, px, py, r))]
  {
    StampFullRows(b, kind, px, py, r);
  }

  /** The table grows with the number of rows and is zero only for none. */
  lemma ScoreDeltaMonotone(m: nat, n: nat)
    requires m <= n
    ensures ScoreDelta(m) <= ScoreDelta(n)
    ensures ScoreDelta(m) == 0 <==> m == 0
  {
  }

  /** The active piece: a catalog entry, a rotation state and the board
      position of its 4x4 box's top-left corner. */
  class Piece {
    const def: Kind
    var x: int
    var y: int
    var rotation: Rotation

    constructor (def: Kind, x: int, y: int, rotation: Rotation)
      ensures this.def == def && this.x == x && this.y == y && this.rotation == rotation
    {
      this.def, this.x, this.y, this.rotation := def, x, y, rotation;
    }
  }

  class Game {
    var board: Board
    var gravityDir: int
    var current: Piece?
    var gameOver: bool
    var score: nat

    /** The engine's invariant: the board keeps its shape and, between two
        locks, holds no full row; gravity is a unit; the game is over exactly
        when there is no current piece, and the current piece always stands
        where it fits. */
    ghost predicate Valid()
      reads this, current
    {
      WellFormed(board) && NoFullRows(board) && (gravityDir == 1 || gravityDir == -1) &&
      (gameOver <==> current == null) &&
      (current != null ==> Fits(board, current.def, current.x, current.y, current.rotation))
    }

    /** The state after the piece `kind` in rotation `r` at anchor (px, py)
        locked on board `b0` with score `score0` under gravity `g0`: stamped,
        cleared, scored by the table, gravity flipped, and the next piece
        `next` spawned at the centre, or no piece when it does not fit there. */
    ghost predicate LockedFrom(b0: Board, score0: nat, g0: int, kind: Kind, px: int, py: int, r: Rotation, next: Kind)
      reads this, current
    {
      WellFormed(b0) &&
      var stamped := Stamp(b0, kind, px, py, r);
      board == Cleared(stamped) && WellFormed(board) &&
      score == score0 + ScoreDelta(CountFull(stamped)) &&
      gravityDir == -g0 &&
      (current == null <==> !Fits(board, next, SPAWN_X, SPAWN_Y, 0)) &&
      (current != null ==>
        current.def == next && current.x == SPAWN_X && current.y == SPAWN_Y && current.rotation == 0)
    }

    /** `init`: an empty board, gravity down, and the first piece spawned. */
    constructor (first: Kind)
      ensures Valid() && IsEmpty(board) && gravityDir == 1 && score == 0
      ensures !gameOver && current != null && fresh(current)
      ensures current.def == first && current.x == SPAWN_X && current.y == SPAWN_Y && current.rotation == 0
    {
      var empty := CreateEmptyBoard();
      board := empty;
      gravityDir := 1;
      gameOver := false;
      score := 0;
      current := null;
      new;
      assert forall y | 0 <= y < ROWS :: board[y][0] == 0;
      SpawnFitsOnEmpty(board, first);
      current := SpawnPiece(first);
    }

    /** `isValidPosition`: scans the 4x4 matrix and rejects the first
        occupied cell that is off the board or on a filled cell. */
    method IsValidPosition(piece: Piece, newX: int, newY: int, newRot: Rotation) returns (ok: bool)
      requires WellFormed(board)
      ensures ok == Fits(board, piece.def, newX, newY, newRot)
    {
      var shape := Catalog()[piece.def].rotations[newRot];
      var row := 0;
      while row < 4
        invariant 0 <= row <= 4
        invariant forall i, j | 0 <= i < row && 0 <= j < 4 && Cell(piece.def, newRot, i, j) ::
          0 <= newX + j < COLS && 0 <= newY + i < ROWS && board[newY + i][newX + j] == 0
      {
        var col := 0;
        while col < 4
          invariant 0 <= col <= 4
          invariant forall i, j | 0 <= i < row && 0 <= j < 4 && Cell(piece.def, newRot, i, j) ::
            0 <= newX + j < COLS && 0 <= newY + i < ROWS && board[newY + i][newX + j] == 0
          invariant forall j | 0 <= j < col && Cell(piece.def, newRot, row, j) ::
            0 <= newX + j < COLS && 0 <= newY + row < ROWS && board[newY + row][newX + j] == 0
        {
          if shape[row][col] != 0 {
            assert Cell(piece.def, newRot, row, col);
            var x := newX + col;
            var y := newY + row;
            if x < 0 || x >= COLS || y < 0 || y >= ROWS {
              return false;
            }
            if board[y][x] != 0 {
              return false;
            }
          }
          col := col + 1;
        }
        row := row + 1;
      }
      return true;
    }

    /** `spawnPiece` (gameplay part): a new piece of the given kind in rotation 0
        at the centred anchor, or no piece and game over when it does not fit. */
    method SpawnPiece(kind: Kind) returns (p: Piece?)
      requires WellFormed(board)
      modifies this`gameOver
      ensures p == null <==> !Fits(board, kind, SPAWN_X, SPAWN_Y, 0)
      ensures p != null ==>
        fresh(p) && p.def == kind && p.x == SPAWN_X && p.y == SPAWN_Y && p.rotation == 0
      ensures gameOver == (old(gameOver) || p == null)
    {
      var piece := new Piece(kind, SPAWN_X, SPAWN_Y, 0);
      var ok := IsValidPosition(piece, SPAWN_X, SPAWN_Y, 0);
      if !ok {
        gameOver := true;
        return null;
      }
      p := piece;
    }

    /** The first half of `lockPiece`: writes the piece's colour into each of
        its occupied cells that lies on the board. */
    method StampPiece()
      requires WellFormed(board) && current != null
      modifies this`board
      ensures board == Stamp(old(board), current.def, current.x, current.y, current.rotation)
    {
      var piece := current;
      var shape := Catalog()[piece.def].rotations[piece.rotation];
      ghost var b0 := board;
      StampStart(b0, piece.def, piece.x, piece.y, piece.rotation);
      var row := 0;
      while row < 4
        invariant 0 <= row <= 4
        invariant board == StampUpTo(b0, piece.def, piece.x, piece.y, piece.rotation, row, 0)
      {
        var col := 0;
        while col < 4
          invariant 0 <= col <= 4
          invariant board == StampUpTo(b0, piece.def, piece.x, piece.y, piece.rotation, row, col)
        {
          StampStep(b0, piece.def, piece.x, piece.y, piece.rotation, row, col);
          if shape[row][col] != 0 {
            var x := piece.x + col;
            var y := piece.y + row;
            if y >= 0 && y < ROWS && x >= 0 && x < COLS {
              board := SetCell(board, y, x, Catalog()[piece.def].color);
            }
          }
          col := col + 1;
        }
        StampNextRow(b0, piece.def, piece.x, piece.y, piece.rotation, row);
        row := row + 1;
      }
    }

    /** The scan of `clearLinesWithCurrentGravity`: the indices of the full
        rows, in increasing order. */
    method FullLines() returns (fullLines: seq<int>)
      requires WellFormed(board)
      ensures forall y :: y in fullLines <==> 0 <= y < ROWS && RowFull(board[y])
      ensures |fullLines| == CountFull(board)
      ensures forall i, j | 0 <= i < j < |fullLines| :: fullLines[i] < fullLines[j]
    {
      fullLines := [];
      var y := 0;
      while y < ROWS
        invariant 0 <= y <= ROWS
        invariant forall v :: v in fullLines <==> 0 <= v < y && RowFull(board[v])
        invariant |fullLines| == CountFull(board[..y])
        invariant forall i, j | 0 <= i < j < |fullLines| :: fullLines[i] < fullLines[j]
        invariant forall i | 0 <= i < |fullLines| :: fullLines[i] < y
      {
        var full := true;
        var x := 0;
        while x < COLS
          invariant 0 <= x <= COLS
          invariant full && forall i | 0 <= i < x :: board[y][i] != 0
        {
          if board[y][x] == 0 {
            full := false;
            break;
          }
          x := x + 1;
        }
        assert full <==> RowFull(board[y]);
        PrefixStep(board, y);
        if full {
          fullLines := fullLines + [y];
        }
        y := y + 1;
      }
      assert board[..ROWS] == board;
    }

    /** The bottom pass: rows MID..ROWS-1 shift down over the full ones
        listed in `bottomLines`; the rows left free next to the midline are
        emptied. Rows above MID are not touched. */
    method CompactBottom(bottomLines: seq<int>)
      requires WellFormed(board)
      requires forall y :: y in bottomLines <==> MID <= y < ROWS && RowFull(board[y])
      modifies this`board
      ensures board == old(board)[..MID] + CompactDown(old(board)[MID..])
    {
      ghost var b0 := board;
      if |bottomLines| > 0 {
        var writeRow := ShiftDown(bottomLines);
        ghost var b1 := board;
        ClearDown(writeRow);
        assert board[..MID] == b1[..MID] == b0[..MID];
        assert board[MID..] == EmptyRows(writeRow - MID + 1) + Kept(b0[MID..]);
      } else {
        NoFullKeepsAll(b0[MID..]);
        assert b0 == b0[..MID] + b0[MID..];
      }
    }

    /** The shift loop of the bottom pass: walking up from the floor, every
        row that is not full moves down to `writeRow`. On exit the kept rows
        fill `writeRow + 1..ROWS-1` in their original order and one row above
        them stands for each full row that was dropped. */
    method ShiftDown(bottomLines: seq<int>) returns (writeRow: int)
      requires WellFormed(board)
      requires forall y :: y in bottomLines <==> MID <= y < ROWS && RowFull(board[y])
      modifies this`board
      ensures MID - 1 <= writeRow <= ROWS - 1
      ensures WellFormed(board)
      ensures board[..MID] == old(board)[..MID]
      ensures writeRow - (MID - 1) == CountFull(old(board)[MID..])
      ensures board[writeRow + 1..] == Kept(old(board)[MID..])
    {
      ghost var b0 := board;
      writeRow := ROWS - 1;
      var y := ROWS - 1;
      while y >= MID
        invariant MID - 1 <= y <= writeRow <= ROWS - 1
        invariant |board| == ROWS && RowsWide(board)
        invariant forall i | 0 <= i <= y :: board[i] == b0[i]
        invariant writeRow - y == CountFull(b0[y + 1..])
        invariant board[writeRow + 1..] == Kept(b0[y + 1..])
        decreases y
      {
        SuffixStep(b0, y);
        assert y in bottomLines <==> RowFull(b0[y]);
        if y in bottomLines {
          y := y - 1;
          continue;
        }
        if writeRow != y {
          board := board[writeRow := board[y]];
        }
        assert board[writeRow..] == [b0[y]] + board[writeRow + 1..];
        writeRow := writeRow - 1;
        y := y - 1;
      }
      assert board[..MID] == b0[..MID];
    }

    /** The fill loop of the bottom pass: rows `from` down to MID become
        empty rows; nothing else changes. */
    method ClearDown(from: int)
      requires WellFormed(board) && MID - 1 <= from < ROWS
      modifies this`board
      ensures board == old(board)[..MID] + EmptyRows(from - MID + 1) + old(board)[from + 1..]
    {
      ghost var b0 := board;
      var y := from;
      while y >= MID
        invariant MID - 1 <= y <= from
        invariant |board| == ROWS && RowsWide(board)
        invariant board[..y + 1] == b0[..y + 1]
        invariant board[y + 1..from + 1] == EmptyRows(from - y)
        invariant board[from + 1..] == b0[from + 1..]
        decreases y
      {
        board := board[y := EmptyRow()];
        assert board[y..from + 1] == [EmptyRow()] + board[y + 1..from + 1];
        y := y - 1;
      }
      assert board == board[..MID] + board[MID..from + 1] + board[from + 1..];
    }

    /** The top pass: rows 0..MID-1 shift up over the full ones listed in
        `topLines`; the rows left free next to the midline are emptied. Rows
        from MID on are not touched. */
    method CompactTop(topLines: seq<int>)
      requires WellFormed(board)
      requires forall y :: y in topLines <==> 0 <= y < MID && RowFull(board[y])
      modifies this`board
      ensures board == CompactUp(old(board)[..MID]) + old(board)[MID..]
    {
      ghost var b0 := board;
      if |topLines| > 0 {
        var writeRow := ShiftUp(topLines);
        ghost var b1 := board;
        ClearUp(writeRow);
        assert board[MID..] == b1[MID..] == b0[MID..];
        assert board[..MID] == Kept(b0[..MID]) + EmptyRows(MID - writeRow);
      } else {
        NoFullKeepsAll(b0[..MID]);
        assert b0 == b0[..MID] + b0[MID..];
      }
    }

    /** The shift loop of the top pass: walking down from the ceiling, every
        row that is not full moves up to `writeRow`. On exit the kept rows
        fill `0..writeRow-1` in their original order and one row below them
        stands for each full row that was dropped. */
    method ShiftUp(topLines: seq<int>) returns (writeRow: int)
      requires WellFormed(board)
      requires forall y :: y in topLines <==> 0 <= y < MID && RowFull(board[y])
      modifies this`board
      ensures 0 <= writeRow <= MID
      ensures WellFormed(board)
      ensures board[MID..] == old(board)[MID..]
      ensures MID - writeRow == CountFull(old(board)[..MID])
      ensures board[..writeRow] == Kept(old(board)[..MID])
    {
      ghost var b0 := board;
      writeRow := 0;
      var y := 0;
      while y < MID
        invariant 0 <= writeRow <= y <= MID
        invariant |board| == ROWS && RowsWide(board)
        invariant forall i | y <= i < ROWS :: board[i] == b0[i]
        invariant y - writeRow == CountFull(b0[..y])
        invariant board[..writeRow] == Kept(b0[..y])
      {
        PrefixStep(b0, y);
        assert y in topLines <==> RowFull(b0[y]);
        if y in topLines {
          y := y + 1;
          continue;
        }
        if writeRow != y {
          board := board[writeRow := board[y]];
        }
        assert board[..writeRow + 1] == board[..writeRow] + [b0[y]];
        writeRow := writeRow + 1;
        y := y + 1;
      }
      assert board[MID..] == b0[MID..];
    }

    /** The fill loop of the top pass: rows `from` up to MID-1 become empty
        rows; nothing else changes. */
    method ClearUp(from: int)
      requires WellFormed(board) && 0 <= from <= MID
      modifies this`board
      ensures board == old(board)[..from] + EmptyRows(MID - from) + old(board)[MID..]
    {
      ghost var b0 := board;
      var y := from;
      while y < MID
        invariant from <= y <= MID
        invariant |board| == ROWS && RowsWide(board)
        invariant board[..from] == b0[..from]
        invariant board[from..y] == EmptyRows(y - from)
        invariant board[y..] == b0[y..]
      {
        board := board[y := EmptyRow()];
        assert board[from..y + 1] == board[from..y] + [EmptyRow()];
        y := y + 1;
      }
      assert board == board[..from] + board[from..MID] + board[MID..];
    }

    /** `clearLinesWithCurrentGravity`: returns the number of full rows on the
        board and compacts the two regions on their own. */
    method ClearLines() returns (cleared: nat)
      requires WellFormed(board)
      modifies this`board
      ensures board == Cleared(old(board))
      ensures cleared == CountFull(old(board))
    {
      var fullLines := FullLines();
      if |fullLines| == 0 {
        ClearedUnchangedIff(board);
        return 0;
      }
      var midRow := MID;
      ghost var b0 := board;
      var bottomLines := Filter(fullLines, y => y >= midRow);
      CompactBottom(bottomLines);
      CompactShape(b0[MID..]);
      ghost var b1 := board;
      assert b1[..MID] == b0[..MID];
      var topLines := Filter(fullLines, y => y < midRow);
      CompactTop(topLines);
      assert board[MID..] == b1[MID..];
      return |fullLines|;
    }

    /** `lockPiece`: stamp, clear, score by the table, flip gravity, spawn. */
    method LockPiece(next: Kind)
      requires Valid() && current != null
      modifies this
      ensures Valid()
      ensures LockedFrom(old(board), old(score), old(gravityDir),
                         old(current.def), old(current.x), old(current.y), old(current.rotation), next)
      ensures current != null ==> fresh(current)
    {
      StampPiece();
      var cleared := ClearLines();
      ghost var stamped := Stamp(old(board), current.def, current.x, current.y, current.rotation);
      ClearedShape(stamped);
      if cleared > 0 {
        if cleared == 1 {
          score := score + 100;
        } else if cleared == 2 {
          score := score + 300;
        } else if cleared == 3 {
          score := score + 500;
        } else {
          score := score + 800;
        }
      }
      gravityDir := gravityDir * -1;
      current := SpawnPiece(next);
    }

    /** `rotatePiece`: one turn in the direction gravity selects, kept only if
        the new rotation state fits where the piece stands (no wall kicks). */
    method RotatePiece()
      requires Valid()
      modifies current
      ensures Valid()
      ensures current != null ==>
        var turned := NextRotation(old(current.rotation), gravityDir);
        current.x == old(current.x) && current.y == old(current.y) &&
        current.rotation == if Fits(board, current.def, current.x, current.y, turned)
                            then turned else old(current.rotation)
    {
      if current == null {
        return;
      }
      var dir := if gravityDir == 1 then 1 else -1;
      var newRot := (current.rotation + dir + 4) % 4;
      var ok := IsValidPosition(current, current.x, current.y, newRot);
      if ok {
        current.rotation := newRot;
      }
    }

    /** `movePieceHor`: shifts the piece by `dx` columns when it fits there. */
    method MovePieceHor(dx: int)
      requires Valid()
      modifies current
      ensures Valid()
      ensures current != null ==>
        var moved := old(current.x) + dx;
        current.y == old(current.y) && current.rotation == old(current.rotation) &&
        current.x == if Fits(board, current.def, moved, current.y, current.rotation)
                     then moved else old(current.x)
    {
      if current == null {
        return;
      }
      var newX := current.x + dx;
      var ok := IsValidPosition(current, newX, current.y, current.rotation);
      if ok {
        current.x := newX;
      }
    }

    /** `stepGravity`: one row along gravity when the piece fits there,
        otherwise the piece locks where it is. */
    method StepGravity(next: Kind)
      requires Valid()
      modifies this, current
      ensures Valid()
      ensures old(current) == null ==>
        current == null && board == old(board) && score == old(score) && gravityDir == old(gravityDir)
      ensures (old(current) != null &&
        Fits(old(board), old(current.def), old(current.x), old(current.y) + old(gravityDir), old(current.rotation))) ==>
          current == old(current) && current.y == old(current.y) + old(gravityDir) &&
          current.x == old(current.x) && current.rotation == old(current.rotation) &&
          board == old(board) && score == old(score) && gravityDir == old(gravityDir)
      ensures (old(current) != null &&
        !Fits(old(board), old(current.def), old(current.x), old(current.y) + old(gravityDir), old(current.rotation))) ==>
          LockedFrom(old(board), old(score), old(gravityDir),
                     old(current.def), old(current.x), old(current.y), old(current.rotation), next)
      ensures current != null ==> current == old(current) || fresh(current)
    {
      if current == null {
        return;
      }
      var newY := current.y + gravityDir;
      var ok := IsValidPosition(current, current.x, newY, current.rotation);
      if ok {
        current.y := newY;
      } else {
        LockPiece(next);
      }
    }

    /** The loop of `hardDrop`: moves the current piece along gravity, one row
        at a time, for as long as the next row fits; it ends at the row RestY
        names. Nothing but the piece's row changes. */
    method DropToRest()
      requires Valid() && current != null
      modifies current
      ensures Valid()
      ensures current.x == old(current.x) && current.rotation == old(current.rotation)
      ensures current.y == RestY(board, current.def, current.x, old(current.y), current.rotation, gravityDir)
    {
      var piece := current;
      ghost var b, k, x, r, g := board, piece.def, piece.x, piece.rotation, gravityDir;
      ghost var rest := RestY(b, k, x, piece.y, r, g);
      while true
        invariant piece.x == x && piece.rotation == r && board == b && gravityDir == g
        invariant Fits(b, k, x, piece.y, r)
        invariant RestY(b, k, x, piece.y, r, g) == rest
        decreases if g == 1 then ROWS - piece.y else piece.y + 4
      {
        ghost var y := piece.y;
        FitsBounds(b, k, x, y, r);
        var newY := piece.y + gravityDir;
        var ok := IsValidPosition(piece, piece.x, newY, piece.rotation);
        if ok {
          FitsBounds(b, k, x, newY, r);
          piece.y := newY;
        } else {
          break;
        }
      }
      assert piece.y == rest;
    }

    /** `hardDrop`: drops the piece to its resting row, then locks it once. */
    method HardDrop(next: Kind)
      requires Valid()
      modifies this, current
      ensures Valid()
      ensures old(current) == null ==>
        current == null && board == old(board) && score == old(score) && gravityDir == old(gravityDir)
      ensures old(current) != null ==>
        var rest := RestY(old(board), old(current.def), old(current.x), old(current.y), old(current.rotation), old(gravityDir));
        old(current).y == rest &&
        LockedFrom(old(board), old(score), old(gravityDir), old(current.def), old(current.x), rest, old(current.rotation), next)
      ensures current != null ==> current == old(current) || fresh(current)
    {
      if current == null {
        return;
      }
      DropToRest();
      LockPiece(next);
    }

    /** The gameplay part of `update`: nothing at all once the game is over;
        otherwise a queued rotation, a queued hard drop, then `steps` gravity
        steps. `kinds` supplies the piece each possible spawn draws: `kinds[0]`
        for the hard drop, `kinds[i + 1]` for step i. */
    method Update(rotateQueued: bool, hardDropQueued: bool, steps: nat, kinds: seq<Kind>)
      requires Valid() && |kinds| == steps + 1
      modifies this, current
      ensures Valid()
      ensures old(gameOver) ==>
        gameOver && board == old(board) && score == old(score) && gravityDir == old(gravityDir)
      ensures score >= old(score)
    {
      if gameOver {
        return;
      }
      if rotateQueued {
        RotatePiece();
      }
      if hardDropQueued {
        HardDrop(kinds[0]);
      }
      var i := 0;
      while i < steps
        invariant 0 <= i <= steps
        invariant Valid() && score >= old(score)
        invariant current != null ==> current == old(current) || fresh(current)
      {
        StepGravity(kinds[i + 1]);
        i := i + 1;
      }
    }
  }
}
