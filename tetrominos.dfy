/** The tetromino catalog: seven pieces, each with four fixed 4x4 occupancy
    matrices (one per rotation state), indexed `matrix[row][col]`. */
module Tetrominos {

  /** Number of catalog entries. */
  const KINDS := 7

  /** A catalog index, as picked at spawn time. */
  type Kind = k: nat | k < KINDS

  /** A rotation state 0..3. */
  type Rotation = r: nat | r < 4

  /** A 4x4 matrix of 0 (empty) / 1 (occupied). */
  type Mask = seq<seq<nat>>

  /** A catalog entry. The display colour is modelled as a positive number
      (it is a non-empty colour string in the game, so it reads as "filled"). */
  datatype Tetromino = Tetromino(name: string, color: nat, rotations: seq<Mask>)

  ghost predicate IsMask(m: Mask)
  {
    |m| == 4 && forall i | 0 <= i < 4 :: |m[i]| == 4 && forall j | 0 <= j < 4 :: m[i][j] <= 1
  }

  /** The fixed catalog, in the game's order I, O, T, L, J, S, Z. */
  function Catalog(): (t: seq<Tetromino>)
    ensures |t| == KINDS
    ensures forall k | 0 <= k < KINDS :: t[k].color > 0 && |t[k].rotations| == 4
    ensures forall k | 0 <= k < KINDS :: forall r | 0 <= r < 4 :: IsMask(t[k].rotations[r])
    ensures forall i, j | 0 <= i < j < KINDS :: t[i].color != t[j].color
  {
    [
      Tetromino("I", 1, [
        [[0, 0, 0, 0], [1, 1, 1, 1], [0, 0, 0, 0], [0, 0, 0, 0]],
        [[0, 0, 1, 0], [0, 0, 1, 0], [0, 0, 1, 0], [0, 0, 1, 0]],
        [[0, 0, 0, 0], [0, 0, 0, 0], [1, 1, 1, 1], [0, 0, 0, 0]],
        [[0, 1, 0, 0], [0, 1, 0, 0], [0, 1, 0, 0], [0, 1, 0, 0]]
      ]),
      Tetromino("O", 2, [
        [[0, 1, 1, 0], [0, 1, 1, 0], [0, 0, 0, 0], [0, 0, 0, 0]],
        [[0, 1, 1, 0], [0, 1, 1, 0], [0, 0, 0, 0], [0, 0, 0, 0]],
        [[0, 1, 1, 0], [0, 1, 1, 0], [0, 0, 0, 0], [0, 0, 0, 0]],
        [[0, 1, 1, 0], [0, 1, 1, 0], [0, 0, 0, 0], [0, 0, 0, 0]]
      ]),
      Tetromino("T", 3, [
        [[0, 1, 0, 0], [1, 1, 1, 0], [0, 0, 0, 0], [0, 0, 0, 0]],
        [[0, 1, 0, 0], [0, 1, 1, 0], [0, 1, 0, 0], [0, 0, 0, 0]],
        [[0, 0, 0, 0], [1, 1, 1, 0], [0, 1, 0, 0], [0, 0, 0, 0]],
        [[0, 1, 0, 0], [1, 1, 0, 0], [0, 1, 0, 0], [0, 0, 0, 0]]
      ]),
      Tetromino("L", 4, [
        [[0, 0, 1, 0], [1, 1, 1, 0], [0, 0, 0, 0], [0, 0, 0, 0]],
        [[0, 1, 0, 0], [0, 1, 0, 0], [0, 1, 1, 0], [0, 0, 0, 0]],
        [[0, 0, 0, 0], [1, 1, 1, 0], [1, 0, 0, 0], [0, 0, 0, 0]],
        [[1, 1, 0, 0], [0, 1, 0, 0], [0, 1, 0, 0], [0, 0, 0, 0]]
      ]),
      Tetromino("J", 5, [
        [[1, 0, 0, 0], [1, 1, 1, 0], [0, 0, 0, 0], [0, 0, 0, 0]],
        [[0, 1, 1, 0], [0, 1, 0, 0], [0, 1, 0, 0], [0, 0, 0, 0]],
        [[0, 0, 0, 0], [1, 1, 1, 0], [0, 0, 1, 0], [0, 0, 0, 0]],
        [[0, 1, 0, 0], [0, 1, 0, 0], [1, 1, 0, 0], [0, 0, 0, 0]]
      ]),
      Tetromino("S", 6, [
        [[0, 1, 1, 0], [1, 1, 0, 0], [0, 0, 0, 0], [0, 0, 0, 0]],
        [[0, 1, 0, 0], [0, 1, 1, 0], [0, 0, 1, 0], [0, 0, 0, 0]],
        [[0, 0, 0, 0], [0, 1, 1, 0], [1, 1, 0, 0], [0, 0, 0, 0]],
        [[1, 0, 0, 0], [1, 1, 0, 0], [0, 1, 0, 0], [0, 0, 0, 0]]
      ]),
      Tetromino("Z", 7, [
        [[1, 1, 0, 0], [0, 1, 1, 0], [0, 0, 0, 0], [0, 0, 0, 0]],
        [[0, 0, 1, 0], [0, 1, 1, 0], [0, 1, 0, 0], [0, 0, 0, 0]],
        [[0, 0, 0, 0], [1, 1, 0, 0], [0, 1, 1, 0], [0, 0, 0, 0]],
        [[0, 1, 0, 0], [1, 1, 0, 0], [1, 0, 0, 0], [0, 0, 0, 0]]
      ])
    ]
  }

  /** Whether cell (row, col) of rotation `r` of piece `kind` is occupied. */
  predicate Cell(kind: Kind, r: Rotation, row: int, col: int)
  {
    0 <= row < 4 && 0 <= col < 4 && Catalog()[kind].rotations[r][row][col] != 0
  }

  /** The colour that a locked cell of piece `kind` takes on the board. */
  function Color(kind: Kind): (c: nat)
    ensures c > 0
    ensures forall other: Kind :: other != kind ==> Catalog()[other].color != c
  {
    Catalog()[kind].color
  }

  /** The number of occupied cells of a rotation state. */
  function CellCount(kind: Kind, r: Rotation): nat
  {
    var m := Catalog()[kind].rotations[r];
    m[0][0] + m[0][1] + m[0][2] + m[0][3] + m[1][0] + m[1][1] + m[1][2] + m[1][3] +
    m[2][0] + m[2][1] + m[2][2] + m[2][3] + m[3][0] + m[3][1] + m[3][2] + m[3][3]
  }

  /** Every rotation state of every piece is a tetromino: four occupied cells. */
  lemma FourCells(kind: Kind, r: Rotation)
    ensures CellCount(kind, r) == 4
  {
  }

  /** An occupied cell of a rotation state: no matrix of the catalog is empty. */
  lemma SomeCell(kind: Kind, r: Rotation) returns (row: nat, col: nat)
    ensures Cell(kind, r, row, col)
  {
    row := if kind == 0 && r == 2 then 2 else 1;
    col := if kind == 0 && r == 1 then 2 else 1;
  }
}
