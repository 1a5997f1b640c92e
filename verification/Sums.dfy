/** Totals of a table of numbers, taken row by row or column by column. */
module Sums {

  type Entry = (nat, nat) -> int

  function RowPart(f: Entry, i: nat, cols: nat): int
  {
    if cols == 0 then 0 else RowPart(f, i, cols - 1) + f(i, cols - 1)
  }

  function ColPart(f: Entry, j: nat, rows: nat): int
  {
    if rows == 0 then 0 else ColPart(f, j, rows - 1) + f(rows - 1, j)
  }

  /** The total, row by row. */
  function Rows(f: Entry, rows: nat, cols: nat): int
  {
    if rows == 0 then 0 else Rows(f, rows - 1, cols) + RowPart(f, rows - 1, cols)
  }

  /** The total, column by column. */
  function Cols(f: Entry, rows: nat, cols: nat): int
  {
    if cols == 0 then 0 else Cols(f, rows, cols - 1) + ColPart(f, cols - 1, rows)
  }

  lemma {:induction false} RowsGrow(f: Entry, rows: nat, cols: nat)
    ensures Rows(f, rows, cols + 1) == Rows(f, rows, cols) + ColPart(f, cols, rows)
  {
    if rows > 0 {
      RowsGrow(f, rows - 1, cols);
    }
  }

  /** Rows first or columns first, the total is the same. */
  lemma {:induction false} SameTotal(f: Entry, rows: nat, cols: nat)
    ensures Rows(f, rows, cols) == Cols(f, rows, cols)
  {
    if cols == 0 {
      NoCols(f, rows);
    } else {
      SameTotal(f, rows, cols - 1);
      RowsGrow(f, rows, cols - 1);
    }
  }

  lemma {:induction false} NoCols(f: Entry, rows: nat)
    ensures Rows(f, rows, 0) == 0
  {
    if rows > 0 {
      NoCols(f, rows - 1);
    }
  }

  lemma PartsGrow(f: Entry, i: nat, j: nat)
    ensures RowPart(f, i, 0) == 0 && RowPart(f, i, j + 1) == RowPart(f, i, j) + f(i, j)
    ensures ColPart(f, j, 0) == 0 && ColPart(f, j, i + 1) == ColPart(f, j, i) + f(i, j)
  {
  }

  lemma TotalsGrow(f: Entry, i: nat, j: nat)
    ensures Rows(f, 0, j) == 0 && Rows(f, i + 1, j) == Rows(f, i, j) + RowPart(f, i, j)
    ensures Cols(f, i, 0) == 0 && Cols(f, i, j + 1) == Cols(f, i, j) + ColPart(f, j, i)
  {
  }

  /** Tables that agree have the same total. */
  lemma {:induction false} RowPartsAgree(f: Entry, g: Entry, i: nat, cols: nat)
    requires forall j: nat | j < cols :: f(i, j) == g(i, j)
    ensures RowPart(f, i, cols) == RowPart(g, i, cols)
  {
    if cols > 0 {
      RowPartsAgree(f, g, i, cols - 1);
    }
  }

  lemma {:induction false} TotalsAgree(f: Entry, g: Entry, rows: nat, cols: nat)
    requires forall i: nat, j: nat | i < rows && j < cols :: f(i, j) == g(i, j)
    ensures Rows(f, rows, cols) == Rows(g, rows, cols)
  {
    if rows > 0 {
      RowPartsAgree(f, g, rows - 1, cols);
      TotalsAgree(f, g, rows - 1, cols);
    }
  }

  lemma {:induction false} RowPartWithin(f: Entry, i: nat, cols: nat, lo: int, hi: int)
    requires forall j: nat | j < cols :: lo <= f(i, j) <= hi
    ensures cols * lo <= RowPart(f, i, cols) <= cols * hi
  {
    if cols > 0 {
      RowPartWithin(f, i, cols - 1, lo, hi);
      assert cols * lo == (cols - 1) * lo + lo && cols * hi == (cols - 1) * hi + hi;
    }
  }

  lemma {:induction false} TotalWithin(f: Entry, rows: nat, cols: nat, lo: int, hi: int)
    requires forall i: nat, j: nat | i < rows && j < cols :: lo <= f(i, j) <= hi
    ensures rows * (cols * lo) <= Rows(f, rows, cols) <= rows * (cols * hi)
  {
    if rows > 0 {
      TotalWithin(f, rows - 1, cols, lo, hi);
      RowPartWithin(f, rows - 1, cols, lo, hi);
      var (x, y) := (cols * lo, cols * hi);
      assert rows * x == (rows - 1) * x + x && rows * y == (rows - 1) * y + y;
    }
  }
}
