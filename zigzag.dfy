/**
 * Zigzag reordering in Program.cs: the scan table (run position to block
 * cell), the unscan table (block cell to run position), and the two
 * copying loops ZigZagScan and ZigZagUnScan.
 */
module ZigZag {
  import opened Blocks

  /** A cell of an 8x8 block: (row, column). */
  type Cell = c: (int, int) | 0 <= c.0 < 8 && 0 <= c.1 < 8 witness (0, 0)

  /** A position in the 64-entry zigzag run of a block. */
  type Position = p: int | 0 <= p < 64

  const Origin: Cell := (0, 0)

  /** A row of a scan table: eight cells. */
  type ScanRow = r: seq<Cell> | |r| == 8
    witness [Origin, Origin, Origin, Origin, Origin, Origin, Origin, Origin]

  /** A row of the unscan table: eight run positions. */
  type UnScanRow = r: seq<Position> | |r| == 8 witness [0, 0, 0, 0, 0, 0, 0, 0]

  /**
   * ZigZagScanTable as the source declares it: entry [y][x] is the cell
   * whose coefficient goes to run position 8 * y + x. Entry [5][0]
   * (position 40) holds (5, 3), which entry [4][6] (position 38) already
   * holds; the cell (3, 5) is never read.
   */
  const ZigZagScanTable: seq<ScanRow> := [
    [(0, 0), (0, 1), (1, 0), (2, 0), (1, 1), (0, 2), (0, 3), (1, 2)],
    [(2, 1), (3, 0), (4, 0), (3, 1), (2, 2), (1, 3), (0, 4), (0, 5)],
    [(1, 4), (2, 3), (3, 2), (4, 1), (5, 0), (6, 0), (5, 1), (4, 2)],
    [(3, 3), (2, 4), (1, 5), (0, 6), (0, 7), (1, 6), (2, 5), (3, 4)],
    [(4, 3), (5, 2), (6, 1), (7, 0), (7, 1), (6, 2), (5, 3), (4, 4)],
    [(5, 3), (2, 6), (1, 7), (2, 7), (3, 6), (4, 5), (5, 4), (6, 3)],
    [(7, 2), (7, 3), (6, 4), (5, 5), (4, 6), (3, 7), (4, 7), (5, 6)],
    [(6, 5), (7, 4), (7, 5), (6, 6), (5, 7), (6, 7), (7, 6), (7, 7)]
  ]

  /**
   * The zigzag order of ITU-T T.81 (Figure A.6) as a scan table: the
   * source's table with position 40 holding (3, 5).
   */
  const CorrectedScanTable: seq<ScanRow> := [
    [(0, 0), (0, 1), (1, 0), (2, 0), (1, 1), (0, 2), (0, 3), (1, 2)],
    [(2, 1), (3, 0), (4, 0), (3, 1), (2, 2), (1, 3), (0, 4), (0, 5)],
    [(1, 4), (2, 3), (3, 2), (4, 1), (5, 0), (6, 0), (5, 1), (4, 2)],
    [(3, 3), (2, 4), (1, 5), (0, 6), (0, 7), (1, 6), (2, 5), (3, 4)],
    [(4, 3), (5, 2), (6, 1), (7, 0), (7, 1), (6, 2), (5, 3), (4, 4)],
    [(3, 5), (2, 6), (1, 7), (2, 7), (3, 6), (4, 5), (5, 4), (6, 3)],
    [(7, 2), (7, 3), (6, 4), (5, 5), (4, 6), (3, 7), (4, 7), (5, 6)],
    [(6, 5), (7, 4), (7, 5), (6, 6), (5, 7), (6, 7), (7, 6), (7, 7)]
  ]

  /** ZigZagUnScanTable: entry [y][x] is the run position of cell (y, x). */
  const ZigZagUnScanTable: seq<UnScanRow> := [
    [0, 1, 5, 6, 14, 15, 27, 28],
    [2, 4, 7, 13, 16, 26, 29, 42],
    [3, 8, 12, 17, 25, 30, 41, 43],
    [9, 11, 18, 24, 31, 40, 44, 53],
    [10, 19, 23, 32, 39, 45, 52, 54],
    [20, 22, 33, 38, 46, 51, 55, 60],
    [21, 34, 37, 47, 50, 56, 59, 61],
    [35, 36, 48, 49, 57, 58, 62, 63]
  ]

  /** The cell a scan table sends to run position p. */
  function CellAt(table: seq<ScanRow>, p: Position): Cell
    requires |table| == 8
  {
    table[p / 8][p % 8]
  }

  /** The run position the unscan table gives cell c. */
  function PositionOf(c: Cell): Position
  {
    ZigZagUnScanTable[c.0][c.1]
  }

  /** A block laid out as a 64-entry run by a scan table. */
  function ScanBy<T>(table: seq<ScanRow>, block: seq<seq<T>>): (run: seq<T>)
    requires |table| == 8 && IsBlock(block)
    ensures |run| == 64
  {
    seq(64, p requires 0 <= p < 64 => block[CellAt(table, p).0][CellAt(table, p).1])
  }

  /** A 64-entry run laid back out as a block by an unscan table. */
  function UnScanBy<T>(table: seq<UnScanRow>, run: seq<T>): (block: seq<seq<T>>)
    requires |table| == 8 && |run| == 64
    ensures IsBlock(block)
  {
    seq(8, y requires 0 <= y < 8 => seq(8, x requires 0 <= x < 8 => run[table[y][x]]))
  }

  /**
   * ZigZagScan: writes the block's 64 coefficients in the order of `table`
   * (the static ZigZagScanTable, passed in) to
   * quantizedBytes[offset .. offset + 64) and touches no other byte.
   */
  method ZigZagScan(table: seq<ScanRow>, channelFreqs: array2<Byte>, quantizedBytes: array<Byte>, offset: int)
    requires |table| == 8
    requires channelFreqs.Length0 == DCTSize && channelFreqs.Length1 == DCTSize
    requires 0 <= offset && offset + 64 <= quantizedBytes.Length
    modifies quantizedBytes
    ensures quantizedBytes[offset..offset + 64] == ScanBy(table, BlockOf(channelFreqs))
    ensures quantizedBytes[..offset] == old(quantizedBytes[..offset])
    ensures quantizedBytes[offset + 64..] == old(quantizedBytes[offset + 64..])
  {
    for y := 0 to DCTSize
      invariant forall p: Position | p < 8 * y ::
                  quantizedBytes[offset + p] == channelFreqs[CellAt(table, p).0, CellAt(table, p).1]
      invariant quantizedBytes[..offset] == old(quantizedBytes[..offset])
      invariant quantizedBytes[offset + 64..] == old(quantizedBytes[offset + 64..])
    {
      for x := 0 to DCTSize
        invariant forall p: Position | p < 8 * y + x ::
                    quantizedBytes[offset + p] == channelFreqs[CellAt(table, p).0, CellAt(table, p).1]
        invariant quantizedBytes[..offset] == old(quantizedBytes[..offset])
        invariant quantizedBytes[offset + 64..] == old(quantizedBytes[offset + 64..])
      {
        assert CellAt(table, 8 * y + x) == table[y][x];
        quantizedBytes[offset + y * 8 + x] := channelFreqs[table[y][x].0, table[y][x].1];
      }
    }
    ghost var run := ScanBy(table, BlockOf(channelFreqs));
    assert forall p | 0 <= p < 64 :: quantizedBytes[offset..offset + 64][p] == run[p];
  }

  /**
   * ZigZagUnScan: fills the block from quantizedBytes[offset .. offset + 64)
   * in the order of `table` (the static ZigZagUnScanTable, passed in); no
   * other byte is read.
   */
  method ZigZagUnScan(table: seq<UnScanRow>, quantizedBytes: seq<Byte>, quantizedFreqs: array2<Byte>, offset: int)
    requires |table| == 8
    requires quantizedFreqs.Length0 == DCTSize && quantizedFreqs.Length1 == DCTSize
    requires 0 <= offset && offset + 64 <= |quantizedBytes|
    modifies quantizedFreqs
    ensures BlockOf(quantizedFreqs) == UnScanBy(table, quantizedBytes[offset..offset + 64])
  {
    ghost var block := UnScanBy(table, quantizedBytes[offset..offset + 64]);
    for y := 0 to DCTSize
      invariant forall y', x | 0 <= y' < y && 0 <= x < 8 :: quantizedFreqs[y', x] == block[y'][x]
    {
      for x := 0 to DCTSize
        invariant forall y', x' | 0 <= y' < y && 0 <= x' < 8 :: quantizedFreqs[y', x'] == block[y'][x']
        invariant forall x' | 0 <= x' < x :: quantizedFreqs[y, x'] == block[y][x']
      {
        quantizedFreqs[y, x] := quantizedBytes[offset + table[y][x]];
      }
    }
    BlockExtensionality(BlockOf(quantizedFreqs), block);
  }

  /**
   * The source's scan table undoes the unscan table at every cell but
   * (3, 5), whose run position 40 is sent to (5, 3).
   */
  lemma ScanTableAfterUnScanTable(c: Cell)
    ensures CellAt(ZigZagScanTable, PositionOf(c)) == if c == (3, 5) then (5, 3) else c
  {
    if c.0 < 4 {
      ScanTableAfterUnScanTableTop(c);
    } else {
      ScanTableAfterUnScanTableBottom(c);
    }
  }

  lemma ScanTableAfterUnScanTableTop(c: Cell)
    requires c.0 < 4
    ensures CellAt(ZigZagScanTable, PositionOf(c)) == if c == (3, 5) then (5, 3) else c
  {
    var y := c.0;
    if y == 0 {} else if y == 1 {} else if y == 2 {} else {}
  }

  lemma ScanTableAfterUnScanTableBottom(c: Cell)
    requires c.0 >= 4
    ensures CellAt(ZigZagScanTable, PositionOf(c)) == c
  {
    var y := c.0;
    if y == 4 {} else if y == 5 {} else if y == 6 {} else {}
  }

  /**
   * The unscan table undoes the source's scan table at every run position
   * but 40, which comes back as 38.
   */
  lemma UnScanTableAfterScanTable(p: Position)
    ensures PositionOf(CellAt(ZigZagScanTable, p)) == if p == 40 then 38 else p
  {
    if p < 32 {
      UnScanTableAfterScanTableTop(p);
    } else {
      UnScanTableAfterScanTableBottom(p);
    }
  }

  lemma UnScanTableAfterScanTableTop(p: Position)
    requires p < 32
    ensures PositionOf(CellAt(ZigZagScanTable, p)) == p
  {
    var y, x := p / 8, p % 8;
    assert p == 8 * y + x;
    if y == 0 {} else if y == 1 {} else if y == 2 {} else {}
  }

  lemma UnScanTableAfterScanTableBottom(p: Position)
    requires p >= 32
    ensures PositionOf(CellAt(ZigZagScanTable, p)) == if p == 40 then 38 else p
  {
    var y, x := p / 8, p % 8;
    assert p == 8 * y + x;
    if y == 4 {} else if y == 5 {} else if y == 6 {} else {}
  }

  /** The unscan table undoes the corrected scan table at every run position. */
  lemma UnScanTableAfterCorrectedScanTable(p: Position)
    ensures PositionOf(CellAt(CorrectedScanTable, p)) == p
  {
    if p < 32 {
      UnScanTableAfterCorrectedScanTableTop(p);
    } else {
      UnScanTableAfterCorrectedScanTableBottom(p);
    }
  }

  lemma UnScanTableAfterCorrectedScanTableTop(p: Position)
    requires p < 32
    ensures PositionOf(CellAt(CorrectedScanTable, p)) == p
  {
    var y, x := p / 8, p % 8;
    assert p == 8 * y + x;
    if y == 0 {} else if y == 1 {} else if y == 2 {} else {}
  }

  lemma UnScanTableAfterCorrectedScanTableBottom(p: Position)
    requires p >= 32
    ensures PositionOf(CellAt(CorrectedScanTable, p)) == p
  {
    var y, x := p / 8, p % 8;
    assert p == 8 * y + x;
    if y == 4 {} else if y == 5 {} else if y == 6 {} else {}
  }

  /** The corrected scan table undoes the unscan table at every cell. */
  lemma CorrectedScanTableAfterUnScanTable(c: Cell)
    ensures CellAt(CorrectedScanTable, PositionOf(c)) == c
  {
    if c.0 < 4 {
      CorrectedScanTableAfterUnScanTableTop(c);
    } else {
      CorrectedScanTableAfterUnScanTableBottom(c);
    }
  }

  lemma CorrectedScanTableAfterUnScanTableTop(c: Cell)
    requires c.0 < 4
    ensures CellAt(CorrectedScanTable, PositionOf(c)) == c
  {
    var y := c.0;
    if y == 0 {} else if y == 1 {} else if y == 2 {} else {}
  }

  lemma CorrectedScanTableAfterUnScanTableBottom(c: Cell)
    requires c.0 >= 4
    ensures CellAt(CorrectedScanTable, PositionOf(c)) == c
  {
    var y := c.0;
    if y == 4 {} else if y == 5 {} else if y == 6 {} else {}
  }

  /**
   * The unscan table is a bijection from the 64 cells onto the 64 run
   * positions: no two cells share a position, and every position is the
   * position of the cell the corrected scan table lists there.
   */
  lemma UnScanTableIsBijection()
    ensures forall c1: Cell, c2: Cell :: PositionOf(c1) == PositionOf(c2) ==> c1 == c2
    ensures forall p: Position :: PositionOf(CellAt(CorrectedScanTable, p)) == p
  {
    forall c1: Cell, c2: Cell | PositionOf(c1) == PositionOf(c2)
      ensures c1 == c2
    {
      CorrectedScanTableAfterUnScanTable(c1);
      CorrectedScanTableAfterUnScanTable(c2);
    }
    forall p: Position
      ensures PositionOf(CellAt(CorrectedScanTable, p)) == p
    {
      UnScanTableAfterCorrectedScanTable(p);
    }
  }

  /**
   * Scanning with the source's table and unscanning gives back the block
   * except at cell (3, 5), which receives the coefficient of cell (5, 3).
   */
  lemma UnScanAfterScan<T>(block: seq<seq<T>>)
    requires IsBlock(block)
    ensures UnScanBy(ZigZagUnScanTable, ScanBy(ZigZagScanTable, block)) == block[3 := block[3][5 := block[5][3]]]
  {
    var result := UnScanBy(ZigZagUnScanTable, ScanBy(ZigZagScanTable, block));
    var expected := block[3 := block[3][5 := block[5][3]]];
    forall y, x | 0 <= y < 8 && 0 <= x < 8
      ensures result[y][x] == expected[y][x]
    {
      ScanTableAfterUnScanTable((y, x));
    }
    BlockExtensionality(result, expected);
  }

  /** A block with 64 distinct coefficients does not survive the round trip. */
  lemma DistinctBlockDoesNotRoundTrip()
    ensures var block := seq(8, y => seq(8, x => 8 * y + x));
            UnScanBy(ZigZagUnScanTable, ScanBy(ZigZagScanTable, block)) != block
  {
    var block := seq(8, y => seq(8, x => 8 * y + x));
    UnScanAfterScan(block);
    assert UnScanBy(ZigZagUnScanTable, ScanBy(ZigZagScanTable, block))[3][5] == 43 != block[3][5];
  }

  /** With the corrected table, unscan undoes scan and scan undoes unscan. */
  lemma CorrectedScanRoundTrip<T>(block: seq<seq<T>>, run: seq<T>)
    requires IsBlock(block) && |run| == 64
    ensures UnScanBy(ZigZagUnScanTable, ScanBy(CorrectedScanTable, block)) == block
    ensures ScanBy(CorrectedScanTable, UnScanBy(ZigZagUnScanTable, run)) == run
  {
    var unscanned := UnScanBy(ZigZagUnScanTable, ScanBy(CorrectedScanTable, block));
    forall y, x | 0 <= y < 8 && 0 <= x < 8
      ensures unscanned[y][x] == block[y][x]
    {
      CorrectedScanTableAfterUnScanTable((y, x));
    }
    BlockExtensionality(unscanned, block);
    var rescanned := ScanBy(CorrectedScanTable, UnScanBy(ZigZagUnScanTable, run));
    forall p | 0 <= p < 64
      ensures rescanned[p] == run[p]
    {
      UnScanTableAfterCorrectedScanTable(p);
    }
  }

  /** The sum row + column of a cell: the anti-diagonal it lies on. */
  function Diagonal(c: Cell): int
  {
    c.0 + c.1
  }

  /**
   * Consecutive run positions of the source's table stay on one
   * anti-diagonal or move to the next one.
   */
  lemma ScanStepsAlongDiagonals(p: Position)
    requires p < 63
    ensures Diagonal(CellAt(ZigZagScanTable, p)) <= Diagonal(CellAt(ZigZagScanTable, p + 1))
              <= Diagonal(CellAt(ZigZagScanTable, p)) + 1
  {
    RowStepsAlongDiagonals(p / 8);
    NextCell(ZigZagScanTable, p);
  }

  /** Run position p + 1 is the next cell of p's row, or the first of the next row. */
  lemma NextCell(table: seq<ScanRow>, p: Position)
    requires |table| == 8 && p < 63
    ensures CellAt(table, p) == table[p / 8][p % 8]
    ensures CellAt(table, p + 1) == if p % 8 < 7 then table[p / 8][p % 8 + 1] else table[p / 8 + 1][0]
  {
  }

  /** ScanStepsAlongDiagonals for the steps out of row y of the table. */
  lemma RowStepsAlongDiagonals(y: int)
    requires 0 <= y < 8
    ensures forall x | 0 <= x < 7 ::
              Diagonal(ZigZagScanTable[y][x]) <= Diagonal(ZigZagScanTable[y][x + 1]) <= Diagonal(ZigZagScanTable[y][x]) + 1
    ensures y < 7 ==>
              Diagonal(ZigZagScanTable[y][7]) <= Diagonal(ZigZagScanTable[y + 1][0]) <= Diagonal(ZigZagScanTable[y][7]) + 1
  {
    if y == 0 {} else if y == 1 {} else if y == 2 {} else if y == 3 {}
    else if y == 4 {} else if y == 5 {} else if y == 6 {} else {}
  }

  /** The source's table visits cells by non-decreasing anti-diagonal (frequency). */
  lemma {:induction false} ScanOrderedByDiagonal(p: Position, q: Position)
    requires p <= q
    ensures Diagonal(CellAt(ZigZagScanTable, p)) <= Diagonal(CellAt(ZigZagScanTable, q))
  {
    if p < q {
      ScanOrderedByDiagonal(p, q - 1);
      ScanStepsAlongDiagonals(q - 1);
    }
  }
}
