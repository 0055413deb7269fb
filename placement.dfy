/** The collision checker and what a piece does to the board: where a piece
    may stand, the cells it stamps when it locks, and the row at which a
    drop along the gravity direction comes to rest. */
module Placement {
  import opened Tetrominos
  import opened Grid

  /** Spawn anchor: the 4x4 box centred on the board, whatever the gravity. */
  const SPAWN_X := COLS / 2 - 2
  const SPAWN_Y := ROWS / 2 - 2

  /** `isValidPosition`: every occupied cell of rotation `r`, anchored at
      (nx, ny), lies inside [0, COLS) x [0, ROWS) and on an empty cell. */
  predicate Fits(b: Board, kind: Kind, nx: int, ny: int, r: Rotation)
    requires WellFormed(b)
  {
    forall row, col | 0 <= row < 4 && 0 <= col < 4 && Cell(kind, r, row, col) ::
      0 <= nx + col < COLS && 0 <= ny + row < ROWS && b[ny + row][nx + col] == 0
  }

  /** Whether the box cell (i, j) comes before box cell (row, col) in the
      row-by-row scan of a 4x4 matrix. */
  predicate Before(i: int, j: int, row: int, col: int)
  {
    i < row || (i == row && j < col)
  }

  /** The board after the scan of the piece's 4x4 matrix has reached (row, col):
      every occupied cell visited so far that lies on the board holds the
      piece's colour (occupied cells outside the board are dropped). */
  function StampUpTo(b: Board, kind: Kind, px: int, py: int, r: Rotation, row: int, col: int): (s: Board)
    requires WellFormed(b)
    ensures WellFormed(s)
  {
    seq(ROWS, y requires 0 <= y < ROWS => StampRow(b, kind, px, py, r, row, col, y))
  }

  function StampRow(b: Board, kind: Kind, px: int, py: int, r: Rotation, row: int, col: int, y: nat): (cells: Row)
    requires WellFormed(b) && y < ROWS
    ensures |cells| == COLS
  {
    seq(COLS, x requires 0 <= x < COLS => StampedCell(b, kind, px, py, r, row, col, y, x))
  }

  function StampedCell(b: Board, kind: Kind, px: int, py: int, r: Rotation, row: int, col: int, y: nat, x: nat): nat
    requires WellFormed(b) && y < ROWS && x < COLS
  {
    if Cell(kind, r, y - py, x - px) && Before(y - py, x - px, row, col) then Color(kind) else b[y][x]
  }

  /** The board after the piece locked: the whole matrix scanned. */
  function Stamp(b: Board, kind: Kind, px: int, py: int, r: Rotation): (s: Board)
    requires WellFormed(b)
    ensures WellFormed(s)
  {
    StampUpTo(b, kind, px, py, r, 4, 0)
  }

  /** One step of the scan writes the colour into the visited cell when it is
      occupied and on the board. */
  lemma StampStep(b: Board, kind: Kind, px: int, py: int, r: Rotation, row: int, col: int)
    requires WellFormed(b) && 0 <= row < 4 && 0 <= col < 4
    ensures var s := StampUpTo(b, kind, px, py, r, row, col);
      var y, x := py + row, px + col;
      StampUpTo(b, kind, px, py, r, row, col + 1) ==
        if Cell(kind, r, row, col) && 0 <= y < ROWS && 0 <= x < COLS then SetCell(s, y, x, Color(kind)) else s
  {
    var s := StampUpTo(b, kind, px, py, r, row, col);
    var s1 := StampUpTo(b, kind, px, py, r, row, col + 1);
    var y, x := py + row, px + col;
    var t := if Cell(kind, r, row, col) && 0 <= y < ROWS && 0 <= x < COLS then SetCell(s, y, x, Color(kind)) else s;
    forall i, j | 0 <= i < ROWS && 0 <= j < COLS
      ensures s1[i][j] == t[i][j]
    {
      assert s1[i][j] == StampedCell(b, kind, px, py, r, row, col + 1, i, j);
      assert s[i][j] == StampedCell(b, kind, px, py, r, row, col, i, j);
    }
    SameCells(s1, t);
  }

  /** Finishing a matrix row is starting the next one. */
  lemma StampNextRow(b: Board, kind: Kind, px: int, py: int, r: Rotation, row: int)
    requires WellFormed(b)
    ensures StampUpTo(b, kind, px, py, r, row, 4) == StampUpTo(b, kind, px, py, r, row + 1, 0)
  {
    SameCells(StampUpTo(b, kind, px, py, r, row, 4), StampUpTo(b, kind, px, py, r, row + 1, 0));
  }

  /** Before the scan starts the board is unchanged. */
  lemma StampStart(b: Board, kind: Kind, px: int, py: int, r: Rotation)
    requires WellFormed(b)
    ensures StampUpTo(b, kind, px, py, r, 0, 0) == b
  {
    SameCells(StampUpTo(b, kind, px, py, r, 0, 0), b);
  }

  /** A piece that fits has all four anchor coordinates within three cells of the board. */
  lemma FitsBounds(b: Board, kind: Kind, x: int, y: int, r: Rotation)
    requires WellFormed(b) && Fits(b, kind, x, y, r)
    ensures -3 <= y < ROWS && -3 <= x < COLS
  {
    var row, col := SomeCell(kind, r);
  }

  /** Whatever the board held, stamping a piece sets exactly its occupied cells
      on the board to its colour and leaves every other cell as it was. */
  lemma StampExact(b: Board, kind: Kind, px: int, py: int, r: Rotation)
    requires WellFormed(b)
    ensures forall row, col | Cell(kind, r, row, col) && 0 <= py + row < ROWS && 0 <= px + col < COLS ::
      Stamp(b, kind, px, py, r)[py + row][px + col] == Color(kind)
    ensures forall y, x | 0 <= y < ROWS && 0 <= x < COLS && Stamp(b, kind, px, py, r)[y][x] != b[y][x] ::
      Cell(kind, r, y - py, x - px)
  {
  }

  /** A locked piece fills the cells it stood on, so it no longer fits there
      and nothing fits on top of it. */
  lemma StampBlocks(b: Board, kind: Kind, x: int, y: int, r: Rotation)
    requires WellFormed(b) && Fits(b, kind, x, y, r)
    ensures !Fits(Stamp(b, kind, x, y, r), kind, x, y, r)
  {
    var row, col := SomeCell(kind, r);
    assert Stamp(b, kind, x, y, r)[y + row][x + col] == Color(kind);
  }

  /** On a board without full rows, a row that stamping a piece makes full is
      one of the piece's four box rows, so one lock clears at most four rows. */
  lemma StampFullRows(b: Board, kind: Kind, px: int, py: int, r: Rotation)
    requires WellFormed(b) && NoFullRows(b)
    ensures forall y | 0 <= y < ROWS && RowFull(Stamp(b, kind, px, py, r)[y]) :: py <= y < py + 4
    ensures CountFull(Stamp(b, kind, px, py, r)) <= 4
  {
    var s := Stamp(b, kind, px, py, r);
    StampExact(b, kind, px, py, r);
    forall y | 0 <= y < ROWS && RowFull(s[y])
      ensures py <= y < py + 4
    {
      var x :| 0 <= x < COLS && b[y][x] == 0;
      assert s[y][x] != b[y][x];
    }
    CountFullWithin(s, py, 4);
  }

  /** On an empty board every piece fits at the spawn anchor in rotation 0. */
  lemma SpawnFitsOnEmpty(b: Board, kind: Kind)
    requires WellFormed(b) && IsEmpty(b)
    ensures Fits(b, kind, SPAWN_X, SPAWN_Y, 0)
  {
  }

  /** When the whole 4x4 spawn box is filled, no piece can spawn. */
  lemma SpawnBlocked(b: Board, kind: Kind)
    requires WellFormed(b)
    requires forall y, x | SPAWN_Y <= y < SPAWN_Y + 4 && SPAWN_X <= x < SPAWN_X + 4 :: b[y][x] != 0
    ensures !Fits(b, kind, SPAWN_X, SPAWN_Y, 0)
  {
    var row, col := SomeCell(kind, 0);
    assert b[SPAWN_Y + row][SPAWN_X + col] != 0;
  }

  /** The row at which a piece that fits at row `y` comes to rest when it is
      moved one row at a time in direction `g` for as long as it fits. */
  function RestY(b: Board, kind: Kind, x: int, y: int, r: Rotation, g: int): int
    requires WellFormed(b) && Fits(b, kind, x, y, r) && (g == 1 || g == -1)
    decreases if g == 1 then ROWS - y else y + 4
  {
    FitsBounds(b, kind, x, y, r);
    if Fits(b, kind, x, y + g, r) then
      FitsBounds(b, kind, x, y + g, r);
      RestY(b, kind, x, y + g, r, g)
    else
      y
  }

  /** The resting row fits, the row beyond it in the direction of travel
      does not, and it lies on the far side of the start in that direction. */
  lemma {:induction false} RestYLands(b: Board, kind: Kind, x: int, y: int, r: Rotation, g: int)
    requires WellFormed(b) && Fits(b, kind, x, y, r) && (g == 1 || g == -1)
    ensures Fits(b, kind, x, RestY(b, kind, x, y, r, g), r)
    ensures !Fits(b, kind, x, RestY(b, kind, x, y, r, g) + g, r)
    ensures g == 1 ==> y <= RestY(b, kind, x, y, r, g)
    ensures g == -1 ==> RestY(b, kind, x, y, r, g) <= y
    decreases if g == 1 then ROWS - y else y + 4
  {
    FitsBounds(b, kind, x, y, r);
    if Fits(b, kind, x, y + g, r) {
      FitsBounds(b, kind, x, y + g, r);
      RestYLands(b, kind, x, y + g, r, g);
    }
  }

  /** Every row a drop passes through on its way to RestY also fits: the
      drop stops at the first blocked row, it never jumps over a gap. */
  lemma {:induction false} RestYPath(b: Board, kind: Kind, x: int, y: int, r: Rotation, g: int, j: int)
    requires WellFormed(b) && Fits(b, kind, x, y, r) && (g == 1 || g == -1)
    requires g == 1 ==> y <= j <= RestY(b, kind, x, y, r, g)
    requires g == -1 ==> RestY(b, kind, x, y, r, g) <= j <= y
    ensures Fits(b, kind, x, j, r)
    decreases if g == 1 then ROWS - y else y + 4
  {
    FitsBounds(b, kind, x, y, r);
    if j != y {
      FitsBounds(b, kind, x, y + g, r);
      RestYPath(b, kind, x, y + g, r, g, j);
    }
  }
}
