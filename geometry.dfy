/**
 * The grid arithmetic of the tasklist (libwnck/tasklist.c): how many rows
 * and columns of buttons an allocation holds (wnck_tasklist_layout), which
 * cell the i-th visible task takes, and the integer slice of the allocation
 * each cell receives in wnck_tasklist_size_allocate.
 */
module Geometry {
  import opened Base

  /** The three results of wnck_tasklist_layout: the return value and the two out-parameters. */
  datatype Grid = Grid(buttonWidth: int, cols: int, rows: int)

  // ---------------------------------------------------------------------
  // Arithmetic on non-negative integers

  lemma MulNonneg(a: int, b: int)
    requires a >= 0 && b >= 0
    ensures a * b >= 0
  {
  }

  lemma MulLeft(a: int, b: int, c: int)
    requires a <= b && c >= 0
    ensures c * a <= c * b
  {
    MulNonneg(c, b - a);
    assert c * b - c * a == c * (b - a);
  }

  /** The quotient and remainder of Euclidean division are the only ones. */
  lemma DivUnique(a: int, d: int, q: int, r: int)
    requires d >= 1 && 0 <= r < d && a == q * d + r
    ensures a / d == q
  {
    var q' := a / d;
    var r' := a % d;
    assert a == q' * d + r';
    if q' < q {
      MulLeft(1, q - q', d);
    } else if q' > q {
      MulLeft(1, q' - q, d);
    }
  }

  lemma DivMonotone(a: int, b: int, d: int)
    requires a <= b && d >= 1
    ensures a / d <= b / d
  {
    var qa, qb := a / d, b / d;
    assert a == d * qa + a % d;
    assert b == d * qb + b % d;
    if qa > qb {
      MulLeft(qb + 1, qa, d);
    }
  }

  /** The ceiling quotient of n by r: c * r covers n and (c - 1) * r does not. */
  lemma CeilQuotient(n: int, r: int)
    requires n >= 1 && r >= 1
    ensures var c := (n + r - 1) / r;
      1 <= c <= n && r * c >= n && (c - 1) * r < n
  {
    var c := (n + r - 1) / r;
    var m := (n + r - 1) % r;
    assert n + r - 1 == r * c + m;
    assert (c - 1) * r == r * c - r;
    if c > n {
      MulLeft(n, c - 1, r);
      MulLeft(1, r, n);
    }
    if c < 1 {
      MulLeft(c, 0, r);
    }
  }

  /**
   * wnck_tasklist_layout: as many rows as fit the allocation height (at least
   * one, at most one per button), then enough columns to hold every button;
   * the buttons share the allocation width equally.  No buttons give an
   * empty grid of width 0.
   */
  function Layout(width: int, height: int, maxHeight: int, n: nat): (g: Grid)
    requires maxHeight != 0
    ensures n == 0 ==> g == Grid(0, 0, 0)
    ensures n > 0 ==> 1 <= g.rows <= n && 1 <= g.cols <= n
    ensures n > 0 ==> g.buttonWidth == CDiv(width, g.cols)
  {
    if n == 0 then Grid(0, 0, 0)
    else
      var rows := Max(Min(CDiv(height, maxHeight), n), 1);
      CeilQuotient(n, rows);
      var cols := Max((n + rows - 1) / rows, 1);
      Grid(CDiv(width, cols), cols, rows)
  }

  /**
   * The rows are the allocation height over the button height, kept between
   * one and the number of buttons, and the columns are the fewest that hold
   * every button in that many rows.
   */
  lemma LayoutCovers(width: int, height: int, maxHeight: int, n: nat)
    requires maxHeight != 0 && n > 0
    ensures var g := Layout(width, height, maxHeight, n);
      g.rows == Max(1, Min(CDiv(height, maxHeight), n)) &&
      g.rows * g.cols >= n && (g.cols - 1) * g.rows < n
  {
    var rows := Max(Min(CDiv(height, maxHeight), n), 1);
    CeilQuotient(n, rows);
  }

  /** The rows of a non-empty grid fit the height when at least one row does. */
  lemma LayoutRowsFit(width: int, height: int, maxHeight: int, n: nat)
    requires maxHeight > 0 && height >= maxHeight && n > 0
    ensures Layout(width, height, maxHeight, n).rows * maxHeight <= height
  {
    var rows := Layout(width, height, maxHeight, n).rows;
    LayoutCovers(width, height, maxHeight, n);
    var q := height / maxHeight;
    assert maxHeight * q + height % maxHeight == height;
    assert rows <= q;
    MulLeft(rows, q, maxHeight);
  }

  /**
   * More buttons never need fewer columns: up to the number of rows that fit
   * the height every button has its own row, and beyond it the rows stay the
   * same and the columns are a ceiling quotient that grows with n.
   */
  lemma LayoutColsMonotone(width: int, height: int, maxHeight: int, n1: nat, n2: nat)
    requires maxHeight != 0 && 0 < n1 <= n2
    ensures Layout(width, height, maxHeight, n1).cols <= Layout(width, height, maxHeight, n2).cols
  {
    var fit := Max(1, CDiv(height, maxHeight));
    var g1 := Layout(width, height, maxHeight, n1);
    var g2 := Layout(width, height, maxHeight, n2);
    LayoutCovers(width, height, maxHeight, n1);
    LayoutCovers(width, height, maxHeight, n2);
    if n1 <= fit {
      assert g1.rows == n1;
      CeilQuotient(n1, n1);
      assert (n1 + n1 - 1) / n1 == 1 by {
        DivUnique(n1 + n1 - 1, n1, 1, n1 - 1);
      }
    } else {
      assert g1.rows == fit && g2.rows == fit;
      CeilQuotient(n1, fit);
      CeilQuotient(n2, fit);
      DivMonotone(n1 + fit - 1, n2 + fit - 1, fit);
    }
  }

  // ---------------------------------------------------------------------
  // Cells

  /** The cell of the i-th visible task: row i % rows and column i / rows. */
  function CellRow(i: nat, rows: int): nat
    requires rows >= 1
  {
    i % rows
  }

  function CellCol(i: nat, rows: int): nat
    requires rows >= 1
  {
    i / rows
  }

  /** Right-to-left text direction mirrors the columns. */
  function MirrorCol(col: int, cols: int): int
  {
    cols - col - 1
  }

  /** The column a task is placed in, after the text-direction mirroring. */
  function PlacedCol(i: nat, rows: int, cols: int, rtl: bool): int
    requires rows >= 1
  {
    if rtl then MirrorCol(CellCol(i, rows), cols) else CellCol(i, rows)
  }

  /**
   * Every task of a grid that holds them gets a cell inside the grid, and the
   * index can be read back from the cell, so no two tasks share one.
   */
  lemma CellInGrid(i: nat, rows: int, cols: int, rtl: bool)
    requires rows >= 1 && i < rows * cols
    ensures 0 <= CellRow(i, rows) < rows
    ensures 0 <= PlacedCol(i, rows, cols, rtl) < cols
    ensures i == CellCol(i, rows) * rows + CellRow(i, rows)
  {
    var c := i / rows;
    assert i == c * rows + i % rows;
    if c >= cols {
      assert c * rows >= cols * rows;
    }
  }

  lemma CellsDistinct(i: nat, j: nat, rows: int, cols: int, rtl: bool)
    requires rows >= 1 && i < rows * cols && j < rows * cols && i != j
    ensures CellRow(i, rows) != CellRow(j, rows) || PlacedCol(i, rows, cols, rtl) != PlacedCol(j, rows, cols, rtl)
  {
    CellInGrid(i, rows, cols, rtl);
    CellInGrid(j, rows, cols, rtl);
  }

  /** Mirroring twice gives the column back, and keeps columns inside the grid. */
  lemma MirrorColInvolution(col: int, cols: int)
    requires 0 <= col < cols
    ensures 0 <= MirrorCol(col, cols) < cols
    ensures MirrorCol(MirrorCol(col, cols), cols) == col
  {
  }

  /**
   * The offset of cell k of a span of `total` pixels cut into `count` cells:
   * total * k / count, rounded toward zero as C does.  Cell k spans the
   * offsets of k and k + 1.
   */
  function CellStart(total: int, k: int, count: int): int
    requires count != 0
  {
    CDiv(total * k, count)
  }

  /** The width the source gives cell k: the next offset minus this one. */
  function CellWidth(total: int, k: int, count: int): int
    requires count != 0
  {
    CellStart(total, k + 1, count) - CellStart(total, k, count)
  }

  lemma CellStartMonotone(total: int, k1: int, k2: int, count: int)
    requires total >= 0 && count >= 1 && 0 <= k1 <= k2
    ensures CellStart(total, k1, count) <= CellStart(total, k2, count)
  {
    MulNonneg(total, k1);
    MulLeft(k1, k2, total);
    DivMonotone(total * k1, total * k2, count);
  }

  /**
   * The cells of one row (or column) tile the span: the first starts at 0,
   * the last ends at the span's end, each starts where the previous ends, and
   * each is as wide as an even share rounded down or up.
   */
  lemma CellsTile(total: int, count: int)
    requires total >= 0 && count >= 1
    ensures CellStart(total, 0, count) == 0
    ensures CellStart(total, count, count) == total
    ensures forall k :: 0 <= k < count ==>
      CellStart(total, k, count) + CellWidth(total, k, count) == CellStart(total, k + 1, count)
    ensures forall k :: 0 <= k < count ==>
      total / count <= CellWidth(total, k, count) <= total / count + 1
  {
    DivUnique(total * count, count, total, 0);
    forall k | 0 <= k < count
      ensures total / count <= CellWidth(total, k, count) <= total / count + 1
    {
      CellWidthBounds(total, k, count);
    }
  }

  lemma CellWidthBounds(total: int, k: int, count: int)
    requires total >= 0 && count >= 1 && 0 <= k
    ensures total / count <= CellWidth(total, k, count) <= total / count + 1
  {
    var a := total * k;
    var b := total * (k + 1);
    assert b == a + total;
    MulNonneg(total, k);
    MulNonneg(total, k + 1);
    var qa, ra := a / count, a % count;
    var qt, rt := total / count, total % count;
    assert a == qa * count + ra;
    assert total == qt * count + rt;
    assert b == (qa + qt) * count + (ra + rt);
    if ra + rt < count {
      DivUnique(b, count, qa + qt, ra + rt);
    } else {
      assert b == (qa + qt + 1) * count + (ra + rt - count);
      DivUnique(b, count, qa + qt + 1, ra + rt - count);
    }
  }

  /** Every offset of a non-empty span lies in exactly one cell. */
  lemma CellContaining(total: int, count: int, p: int) returns (k: int)
    requires total >= 0 && count >= 1 && 0 <= p < total
    ensures 0 <= k < count
    ensures CellStart(total, k, count) <= p < CellStart(total, k + 1, count)
    ensures forall j :: 0 <= j < count && CellStart(total, j, count) <= p < CellStart(total, j + 1, count) ==> j == k
  {
    CellsTile(total, count);
    k := 0;
    while CellStart(total, k + 1, count) <= p
      invariant 0 <= k < count
      invariant CellStart(total, k, count) <= p
      decreases count - k
    {
      if k + 1 == count {
        assert false;
      }
      k := k + 1;
    }
    forall j | 0 <= j < count && CellStart(total, j, count) <= p < CellStart(total, j + 1, count)
      ensures j == k
    {
      if j < k {
        CellStartMonotone(total, j + 1, k, count);
      } else if j > k {
        CellStartMonotone(total, k + 1, j, count);
      }
    }
  }
}
