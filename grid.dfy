/** The play field: a fixed ROWS x COLS grid addressed `board[y][x]`, row 0 at
    the top, where 0 is an empty cell and any other number a locked colour.
    This module also holds the pure specification of the dual-region line
    clear: the board is split at MID; the bottom region is compacted
    towards row ROWS-1 and the top region towards row 0, each on its own. */
module Grid {

  const ROWS := 30
  const COLS := 10

  /** The row at which the board is split for line clearing (`midRow`). */
  const MID := ROWS / 2

  type Row = seq<nat>
  type Board = seq<Row>

  /** Every row has COLS cells. */
  predicate RowsWide(rows: seq<Row>)
  {
    forall y | 0 <= y < |rows| :: |rows[y]| == COLS
  }

  /** ROWS rows of COLS cells each: the only shape a board ever has. */
  predicate WellFormed(b: Board)
  {
    |b| == ROWS && RowsWide(b)
  }

  /** Every cell of the board is empty. */
  predicate IsEmpty(b: Board)
  {
    forall y, x | 0 <= y < |b| && 0 <= x < |b[y]| :: b[y][x] == 0
  }

  /** The board with cell (y, x) set to `c` (`board[y][x] = c`). */
  function SetCell(b: Board, y: int, x: int, c: nat): (s: Board)
    requires WellFormed(b) && 0 <= y < ROWS && 0 <= x < COLS
    ensures WellFormed(s)
    ensures forall i, j | 0 <= i < ROWS && 0 <= j < COLS :: s[i][j] == if i == y && j == x then c else b[i][j]
  {
    var row: Row := b[y][x := c];
    b[y := row]
  }

  /** A row none of whose cells is empty. */
  predicate RowFull(row: Row)
  {
    forall x | 0 <= x < |row| :: row[x] != 0
  }

  /** A board on which no row is full: the state between two locks. */
  predicate NoFullRows(b: Board)
  {
    forall y | 0 <= y < |b| :: !RowFull(b[y])
  }

  /** A fresh row of COLS empty cells (`new Array(COLS).fill(0)`). */
  function EmptyRow(): (r: Row)
    ensures |r| == COLS && !RowFull(r)
    ensures forall x | 0 <= x < |r| :: r[x] == 0
  {
    var r := seq(COLS, _ => 0);
    assert r[0] == 0;
    r
  }

  /** `n` empty rows. */
  function EmptyRows(n: nat): (rs: seq<Row>)
    ensures |rs| == n && RowsWide(rs)
    ensures forall i | 0 <= i < n :: rs[i] == EmptyRow()
  {
    seq(n, _ => EmptyRow())
  }

  /** `createEmptyBoard`: ROWS rows of COLS zeros, built one row at a time. */
  method CreateEmptyBoard() returns (b: Board)
    ensures WellFormed(b) && IsEmpty(b)
  {
    b := [];
    var y := 0;
    while y < ROWS
      invariant 0 <= y <= ROWS && |b| == y
      invariant forall i | 0 <= i < y :: b[i] == EmptyRow()
    {
      b := b + [EmptyRow()];
      y := y + 1;
    }
  }

  /** The rows that are not full, in their original order. */
  function Kept(rows: seq<Row>): seq<Row>
  {
    if rows == [] then [] else (if RowFull(rows[0]) then [] else [rows[0]]) + Kept(rows[1..])
  }

  /** The number of full rows. */
  function CountFull(rows: seq<Row>): nat
  {
    if rows == [] then 0 else (if RowFull(rows[0]) then 1 else 0) + CountFull(rows[1..])
  }

  /** The bottom region after its pass: the kept rows packed against the
      region's last row, empty rows filling up to the midline. */
  function CompactDown(region: seq<Row>): (r: seq<Row>)
    ensures |r| == |region|
  {
    KeptCount(region);
    EmptyRows(CountFull(region)) + Kept(region)
  }

  /** The top region after its pass: the kept rows packed against row 0,
      empty rows filling down to the midline. */
  function CompactUp(region: seq<Row>): (r: seq<Row>)
    ensures |r| == |region|
  {
    KeptCount(region);
    Kept(region) + EmptyRows(CountFull(region))
  }

  /** The whole board after a line clear. */
  function Cleared(b: Board): (c: Board)
    requires |b| == ROWS
    ensures |c| == ROWS
  {
    CompactUp(b[..MID]) + CompactDown(b[MID..])
  }

  // ---------------------------------------------------------------------------
  // Facts about Kept and CountFull

  /** Filtering and counting distribute over concatenation. */
  lemma {:induction false} KeptAppend(a: seq<Row>, b: seq<Row>)
    ensures Kept(a + b) == Kept(a) + Kept(b)
    ensures CountFull(a + b) == CountFull(a) + CountFull(b)
  {
    if a == [] {
      assert a + b == b;
    } else {
      assert (a + b)[0] == a[0];
      assert (a + b)[1..] == a[1..] + b;
      KeptAppend(a[1..], b);
      var head := if RowFull(a[0]) then [] else [a[0]];
      calc {
        Kept(a + b);
        head + Kept(a[1..] + b);
        head + (Kept(a[1..]) + Kept(b));
        (head + Kept(a[1..])) + Kept(b);
        Kept(a) + Kept(b);
      }
    }
  }

  /** Extending a prefix of the board by one row adds that row to the count
      and to the kept rows when it is, respectively is not, full. */
  lemma PrefixStep(rows: seq<Row>, y: nat)
    requires y < |rows|
    ensures CountFull(rows[..y + 1]) == CountFull(rows[..y]) + (if RowFull(rows[y]) then 1 else 0)
    ensures Kept(rows[..y + 1]) == Kept(rows[..y]) + (if RowFull(rows[y]) then [] else [rows[y]])
  {
    var one: seq<Row> := [rows[y]];
    assert rows[..y + 1] == rows[..y] + one;
    KeptAppend(rows[..y], one);
    assert one[1..] == [];
  }

  /** Dropping the first row of a suffix removes it from the count and from
      the kept rows. */
  lemma SuffixStep(rows: seq<Row>, y: nat)
    requires y < |rows|
    ensures CountFull(rows[y..]) == CountFull(rows[y + 1..]) + (if RowFull(rows[y]) then 1 else 0)
    ensures Kept(rows[y..]) == (if RowFull(rows[y]) then [] else [rows[y]]) + Kept(rows[y + 1..])
  {
    assert rows[y..][0] == rows[y] && rows[y..][1..] == rows[y + 1..];
  }

  /** Every row is either kept or counted as full. */
  lemma {:induction false} KeptCount(rows: seq<Row>)
    ensures |Kept(rows)| + CountFull(rows) == |rows|
  {
    if rows != [] {
      KeptCount(rows[1..]);
    }
  }

  /** Kept rows are rows of the input, and none of them is full. */
  lemma {:induction false} KeptRows(rows: seq<Row>)
    ensures forall i | 0 <= i < |Kept(rows)| :: Kept(rows)[i] in rows && !RowFull(Kept(rows)[i])
  {
    if rows != [] {
      KeptRows(rows[1..]);
      var head := if RowFull(rows[0]) then [] else [rows[0]];
      forall i | 0 <= i < |Kept(rows)|
        ensures Kept(rows)[i] in rows && !RowFull(Kept(rows)[i])
      {
        if i >= |head| {
          assert Kept(rows)[i] == Kept(rows[1..])[i - |head|];
          assert Kept(rows)[i] in rows[1..];
        }
      }
    }
  }

  /** When every full row has its index in [lo, lo + n), at most n rows are
      counted as full. */
  lemma {:induction false} CountFullWithin(rows: seq<Row>, lo: int, n: nat)
    requires forall i | 0 <= i < |rows| && RowFull(rows[i]) :: lo <= i < lo + n
    ensures CountFull(rows) <= n
  {
    if rows != [] {
      assert forall i | 0 <= i < |rows| - 1 :: rows[1..][i] == rows[i + 1];
      if RowFull(rows[0]) {
        CountFullWithin(rows[1..], 0, lo + n - 1);
      } else {
        CountFullWithin(rows[1..], lo - 1, n);
      }
    }
  }

  /** No full row is counted exactly when no row is full, and then every row is kept. */
  lemma {:induction false} NoFullKeepsAll(rows: seq<Row>)
    ensures CountFull(rows) == 0 <==> forall i | 0 <= i < |rows| :: !RowFull(rows[i])
    ensures CountFull(rows) == 0 ==> Kept(rows) == rows
  {
    if rows != [] {
      NoFullKeepsAll(rows[1..]);
      assert forall i | 1 <= i < |rows| :: rows[i] == rows[1..][i - 1];
      assert rows == [rows[0]] + rows[1..];
    }
  }

  /** A row that is not full sits in Kept behind the kept rows before it. */
  lemma KeptAt(rows: seq<Row>, j: nat)
    requires j < |rows| && !RowFull(rows[j])
    ensures |Kept(rows[..j])| < |Kept(rows)| && Kept(rows)[|Kept(rows[..j])|] == rows[j]
    ensures CountFull(rows) == CountFull(rows[..j]) + CountFull(rows[j + 1..])
  {
    var one: seq<Row> := [rows[j]];
    assert rows == rows[..j] + (one + rows[j + 1..]);
    KeptAppend(rows[..j], one + rows[j + 1..]);
    KeptAppend(one, rows[j + 1..]);
    assert one[1..] == [];
  }

  // ---------------------------------------------------------------------------
  // Facts about the cleared board

  lemma CompactShape(region: seq<Row>)
    requires RowsWide(region)
    ensures |CompactDown(region)| == |region| && RowsWide(CompactDown(region))
    ensures |CompactUp(region)| == |region| && RowsWide(CompactUp(region))
    ensures forall i | 0 <= i < |region| :: !RowFull(CompactDown(region)[i]) && !RowFull(CompactUp(region)[i])
  {
    KeptCount(region);
    KeptRows(region);
    var k, e := Kept(region), EmptyRows(CountFull(region));
    forall i | 0 <= i < |region|
      ensures |CompactDown(region)[i]| == COLS && !RowFull(CompactDown(region)[i])
      ensures |CompactUp(region)[i]| == COLS && !RowFull(CompactUp(region)[i])
    {
      if i < |e| {
        assert CompactDown(region)[i] == e[i];
      } else {
        assert CompactDown(region)[i] == k[i - |e|];
      }
      if i < |k| {
        assert CompactUp(region)[i] == k[i];
      } else {
        assert CompactUp(region)[i] == e[i - |k|];
      }
    }
  }

  /** The cleared board is still ROWS x COLS and holds no full row. */
  lemma ClearedShape(b: Board)
    requires WellFormed(b)
    ensures WellFormed(Cleared(b))
    ensures forall y | 0 <= y < ROWS :: !RowFull(Cleared(b)[y])
  {
    CompactShape(b[..MID]);
    CompactShape(b[MID..]);
    var up, down := CompactUp(b[..MID]), CompactDown(b[MID..]);
    forall y | 0 <= y < ROWS
      ensures |Cleared(b)[y]| == COLS && !RowFull(Cleared(b)[y])
    {
      if y < MID {
        assert Cleared(b)[y] == up[y];
      } else {
        assert Cleared(b)[y] == down[y - MID];
      }
    }
  }

  /** The full rows of the board are those of its two regions. */
  lemma CountFullSplit(b: Board)
    requires |b| == ROWS
    ensures CountFull(b) == CountFull(b[..MID]) + CountFull(b[MID..])
  {
    assert b == b[..MID] + b[MID..];
    KeptAppend(b[..MID], b[MID..]);
  }

  /** Clearing changes the board exactly when some row is full. */
  lemma ClearedUnchangedIff(b: Board)
    requires WellFormed(b)
    ensures Cleared(b) == b <==> CountFull(b) == 0
  {
    CountFullSplit(b);
    NoFullKeepsAll(b[..MID]);
    NoFullKeepsAll(b[MID..]);
    NoFullKeepsAll(b);
    if CountFull(b) == 0 {
      assert b == b[..MID] + b[MID..];
    } else {
      ClearedShape(b);
      var y :| 0 <= y < ROWS && RowFull(b[y]);
      assert Cleared(b)[y] != b[y];
    }
  }

  /** A region without a full row is left as it is, whatever the other region holds. */
  lemma ClearedRegionsIndependent(b: Board)
    requires WellFormed(b)
    ensures CountFull(b[..MID]) == 0 ==> Cleared(b)[..MID] == b[..MID]
    ensures CountFull(b[MID..]) == 0 ==> Cleared(b)[MID..] == b[MID..]
  {
    NoFullKeepsAll(b[..MID]);
    NoFullKeepsAll(b[MID..]);
    CompactShape(b[..MID]);
    assert Cleared(b)[..MID] == CompactUp(b[..MID]);
    assert Cleared(b)[MID..] == CompactDown(b[MID..]);
  }

  /** In the bottom region a row that is not full moves down by the number of
      full rows below it. */
  lemma BottomRowLands(b: Board, y: int)
    requires WellFormed(b) && MID <= y < ROWS && !RowFull(b[y])
    ensures y + CountFull(b[y + 1..]) < ROWS
    ensures Cleared(b)[y + CountFull(b[y + 1..])] == b[y]
  {
    var region, j := b[MID..], y - MID;
    assert region[j] == b[y];
    assert region[j + 1..] == b[y + 1..];
    KeptAt(region, j);
    KeptCount(region);
    KeptCount(region[..j]);
    CompactShape(b[..MID]);
    var n := CountFull(region) + |Kept(region[..j])|;
    assert CompactDown(region)[n] == b[y];
    assert Cleared(b)[MID + n] == b[y];
  }

  /** In the top region a row that is not full moves up by the number of full
      rows above it. */
  lemma TopRowLands(b: Board, y: int)
    requires WellFormed(b) && 0 <= y < MID && !RowFull(b[y])
    ensures y - CountFull(b[..y]) >= 0
    ensures Cleared(b)[y - CountFull(b[..y])] == b[y]
  {
    var region := b[..MID];
    assert region[y] == b[y];
    assert region[..y] == b[..y];
    KeptAt(region, y);
    KeptCount(region[..y]);
    CompactShape(region);
    assert CompactUp(region)[|Kept(region[..y])|] == b[y];
  }

  /** The rows vacated next to the midline are empty: as many on each side as
      that side had full rows. */
  lemma ClearedMidlineEmpty(b: Board)
    requires WellFormed(b)
    ensures CountFull(b[..MID]) <= MID && CountFull(b[MID..]) <= ROWS - MID
    ensures forall y | MID - CountFull(b[..MID]) <= y < MID :: Cleared(b)[y] == EmptyRow()
    ensures forall y | MID <= y < MID + CountFull(b[MID..]) :: Cleared(b)[y] == EmptyRow()
  {
    KeptCount(b[..MID]);
    KeptCount(b[MID..]);
    CompactShape(b[..MID]);
    var k := |Kept(b[..MID])|;
    forall y | MID - CountFull(b[..MID]) <= y < MID
      ensures Cleared(b)[y] == EmptyRow()
    {
      assert Cleared(b)[y] == CompactUp(b[..MID])[y];
      assert CompactUp(b[..MID])[y] == EmptyRows(CountFull(b[..MID]))[y - k];
    }
    forall y | MID <= y < MID + CountFull(b[MID..])
      ensures Cleared(b)[y] == EmptyRow()
    {
      assert Cleared(b)[y] == CompactDown(b[MID..])[y - MID];
    }
  }

  /** Two boards with the same cells are the same board. */
  lemma SameCells(a: Board, b: Board)
    requires WellFormed(a) && WellFormed(b)
    requires forall y, x | 0 <= y < ROWS && 0 <= x < COLS :: a[y][x] == b[y][x]
    ensures a == b
  {
    forall y | 0 <= y < ROWS
      ensures a[y] == b[y]
    {
      assert forall x | 0 <= x < COLS :: a[y][x] == b[y][x];
    }
  }
}
