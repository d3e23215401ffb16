/** The coordinate mapper: row-major conversion between a cell (col, row) of a
    board with `m` columns and its linear scan index. Python 2 `/` on
    non-negative integers is floor division, which is Dafny's `/` on `nat`. */
module Coordinates {

  /** Linear index of the cell in column `col` of row `row`: the cells of a
      row occupy the `m` consecutive indices of that row's block. */
  function ColRowToPos(col: nat, row: nat, m: nat): (pos: nat)
    ensures col < m ==> row * m <= pos < (row + 1) * m
  {
    assert (row + 1) * m == row * m + m;
    row * m + col
  }

  /** The cell (col, row) whose linear index is `pos`. */
  function PosToColRow(pos: nat, m: nat): (cell: (nat, nat))
    requires m > 0
    ensures cell.0 < m
    ensures ColRowToPos(cell.0, cell.1, m) == pos
  {
    (pos % m, pos / m)
  }

  /** The cell after (col, row) in scan order: one column to the right, or
      the first column of the next row after the last column. */
  function NextInScan(col: nat, row: nat, m: nat): (nat, nat)
  {
    if col + 1 < m then (col + 1, row) else (0, row + 1)
  }

  /** The cell that follows (col, row): the cell of the next linear index. */
  function NextColRow(col: nat, row: nat, m: nat): (cell: (nat, nat))
    requires m > 0
    ensures cell.0 < m
    ensures col < m ==> cell == NextInScan(col, row, m)
  {
    var next := PosToColRow(ColRowToPos(col, row, m) + 1, m);
    if col < m then NextCellInScan(col, row, m); next else next
  }

  /** From any cell, the next cell has the next linear index. */
  lemma NextColRowAdvances(col: nat, row: nat, m: nat)
    requires m > 0
    ensures var next := NextColRow(col, row, m);
            ColRowToPos(next.0, next.1, m) == ColRowToPos(col, row, m) + 1
  {
  }

  /** The scan successor of a cell has the next linear index. */
  lemma {:induction false} ScanAdvancesIndex(col: nat, row: nat, m: nat)
    requires col < m
    ensures NextInScan(col, row, m).0 < m
    ensures ColRowToPos(NextInScan(col, row, m).0, NextInScan(col, row, m).1, m) == ColRowToPos(col, row, m) + 1
  {
    if col + 1 == m {
      assert (row + 1) * m == row * m + m;
    }
  }

  /** Within a row the scan moves one column right; after the last column it
      wraps to column 0 of the next row. */
  lemma {:induction false} NextCellInScan(col: nat, row: nat, m: nat)
    requires col < m
    ensures PosToColRow(ColRowToPos(col, row, m) + 1, m) == NextInScan(col, row, m)
  {
    if col + 1 < m {
      DivModUnique(row, col + 1, m);
    } else {
      assert ColRowToPos(col, row, m) + 1 == (row + 1) * m + 0;
      DivModUnique(row + 1, 0, m);
    }
  }

  /** The scan has run past the last cell: the board has no columns, or the
      cursor is below the last of the `n` rows. */
  predicate ScanDone(row: nat, m: nat, n: nat)
  {
    m == 0 || row >= n
  }

  /** For a cursor inside a row, the index reaches `m * n` exactly when the
      scan has run past the last cell. */
  lemma {:induction false} ScanDoneAtEnd(col: nat, row: nat, m: nat, n: nat)
    requires m == 0 || col < m
    ensures ColRowToPos(col, row, m) >= m * n <==> ScanDone(row, m, n)
  {
    if m > 0 {
      if row >= n {
        MulMonotone(n, row, m);
      } else {
        MulMonotone(row + 1, n, m);
      }
    }
  }

  /** Quotient and remainder by `m` are unique. */
  lemma DivModUnique(q: nat, r: nat, m: nat)
    requires r < m
    ensures (q * m + r) / m == q && (q * m + r) % m == r
  {
    var x := q * m + r;
    var q', r' := x / m, x % m;
    assert x == q' * m + r';
    if q' > q {
      assert q' * m >= (q + 1) * m by { MulMonotone(q + 1, q', m); }
      assert false;
    } else if q' < q {
      assert q * m >= (q' + 1) * m by { MulMonotone(q' + 1, q, m); }
      assert false;
    }
  }

  lemma MulMonotone(a: nat, b: nat, m: nat)
    requires a <= b
    ensures a * m <= b * m
  {
  }

  /** Converting a cell to its index and back gives the cell again. */
  lemma {:induction false} ColRowRoundTrip(col: nat, row: nat, m: nat)
    requires col < m
    ensures PosToColRow(ColRowToPos(col, row, m), m) == (col, row)
  {
    DivModUnique(row, col, m);
  }

}
