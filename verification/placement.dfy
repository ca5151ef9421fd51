/**
 * Where a badge lands: the column/row arithmetic of `generate_pdf`.
 *
 * The source uses Python's floor `//` and `%`. For a positive divisor these
 * coincide with Dafny's Euclidean `/` and `%`, so the formulas below hold
 * for every integer start index, negative ones included.
 */
module Placement {
  import opened Layouts

  /**
   * The grid terms computed for one linear badge index: the column and row
   * that scale the card size, and the separate multipliers of the
   * horizontal and vertical inter-cell gaps.
   */
  datatype Slot = Slot(col: int, row: int, gapCol: int, gapRow: int)

  /** Linear position of a slot within its sheet, row-major from the bottom. */
  function CellIndex(l: Layout, s: Slot): int
  {
    s.row * l.cols + s.col
  }

  /** Division is determined by any quotient/remainder pair in range. */
  lemma DivModUnique(a: int, d: int, q: int, r: int)
    requires d > 0 && 0 <= r < d && a == q * d + r
    ensures a / d == q && a % d == r
  {
    var q0, r0 := a / d, a % d;
    assert a == q0 * d + r0;
    assert (q - q0) * d == r0 - r;
    if q - q0 >= 1 {
      assert false;
    } else if q - q0 <= -1 {
      assert false;
    }
  }

  /**
   * The gap-row multiplier `(b % (rows*cols)) // cols` and the grid row
   * `(b // cols) % rows` are the same number, and row and column together
   * recover the position of `b` within its sheet.
   */
  lemma {:induction false} RowFormulasAgree(b: int, rows: int, cols: int)
    requires rows > 0 && cols > 0
    ensures (b % (rows * cols)) / cols == (b / cols) % rows
    ensures ((b / cols) % rows) * cols + b % cols == b % (rows * cols)
  {
    var q, m := b / cols, b % cols;
    var bigQ, t := q / rows, q % rows;
    Regroup(b, q, m, bigQ, t, rows, cols);
    InnerBound(t, m, rows, cols);
    DivModUnique(b, rows * cols, bigQ, t * cols + m);
    DivModUnique(t * cols + m, cols, t, m);
  }

  lemma Regroup(b: int, q: int, m: int, bigQ: int, t: int, rows: int, cols: int)
    requires b == q * cols + m && q == bigQ * rows + t
    ensures b == bigQ * (rows * cols) + (t * cols + m)
  {
    calc {
      b;
      q * cols + m;
      (bigQ * rows + t) * cols + m;
      { assert (bigQ * rows + t) * cols == bigQ * rows * cols + t * cols; }
      bigQ * (rows * cols) + (t * cols + m);
    }
  }

  lemma InnerBound(t: int, m: int, rows: int, cols: int)
    requires 0 <= t < rows && 0 <= m < cols
    ensures 0 <= t * cols + m < rows * cols
  {
    assert (rows - 1 - t) * cols >= 0;
    assert (rows - 1 - t) * cols == rows * cols - cols - t * cols;
  }

  /**
   * The slot of badge index `b`, computed with the source's own formulas.
   * Every index lands in a real cell, the gap multipliers agree with the
   * grid position, and the cell is the index modulo the sheet capacity.
   */
  function SlotOf(l: Layout, b: int): (s: Slot)
    requires l.Valid()
    ensures 0 <= s.col < l.cols && 0 <= s.row < l.rows
    ensures s.gapCol == s.col && s.gapRow == s.row
  {
    RowFormulasAgree(b, l.rows, l.cols);
    Slot(b % l.cols, (b / l.cols) % l.rows, b % l.cols, (b % (l.rows * l.cols)) / l.cols)
  }

  /** Row and column together recover the position of `b` within its sheet. */
  lemma SlotCellIndex(l: Layout, b: int)
    requires l.Valid()
    ensures CellIndex(l, SlotOf(l, b)) == b % l.Capacity()
  {
    RowFormulasAgree(b, l.rows, l.cols);
  }

  /** A cell index within a sheet determines the column and row. */
  lemma {:induction false} CellDeterminesSlot(l: Layout, b1: int, b2: int)
    requires l.Valid()
    ensures SlotOf(l, b1) == SlotOf(l, b2) <==> b1 % l.Capacity() == b2 % l.Capacity()
  {
    var s1, s2 := SlotOf(l, b1), SlotOf(l, b2);
    SlotCellIndex(l, b1);
    SlotCellIndex(l, b2);
    if b1 % l.Capacity() == b2 % l.Capacity() {
      var c := b1 % l.Capacity();
      DivModUnique(c, l.cols, s1.row, s1.col);
      DivModUnique(c, l.cols, s2.row, s2.col);
    }
  }

  /** The assignment of cells repeats with period rows*cols. */
  lemma {:induction false} SlotPeriodic(l: Layout, b: int, k: int)
    requires l.Valid()
    ensures SlotOf(l, b + k * l.Capacity()) == SlotOf(l, b)
  {
    var p := l.Capacity();
    DivModUnique(b + k * p, p, b / p + k, b % p);
    CellDeterminesSlot(l, b + k * p, b);
  }

  /** Adding one either bumps the remainder or carries into the quotient. */
  lemma DivStep(a: int, d: int)
    requires d > 0
    ensures a % d + 1 < d ==> (a + 1) / d == a / d && (a + 1) % d == a % d + 1
    ensures a % d + 1 == d ==> (a + 1) / d == a / d + 1 && (a + 1) % d == 0
  {
    if a % d + 1 < d {
      DivModUnique(a + 1, d, a / d, a % d + 1);
    } else {
      DivModUnique(a + 1, d, a / d + 1, 0);
    }
  }

  /**
   * The next index moves one column right, or, from the last column, wraps
   * to column 0 of the next row (and from the top row to the bottom row).
   */
  lemma {:induction false} SlotStep(l: Layout, b: int)
    requires l.Valid()
    ensures SlotOf(l, b).col + 1 < l.cols ==>
      SlotOf(l, b + 1).col == SlotOf(l, b).col + 1 && SlotOf(l, b + 1).row == SlotOf(l, b).row
    ensures SlotOf(l, b).col + 1 == l.cols ==>
      SlotOf(l, b + 1).col == 0 && SlotOf(l, b + 1).row == (SlotOf(l, b).row + 1) % l.rows
  {
    GridStep(b, l.rows, l.cols);
  }

  lemma GridStep(b: int, rows: int, cols: int)
    requires rows > 0 && cols > 0
    ensures b % cols + 1 < cols ==>
      (b + 1) % cols == b % cols + 1 && ((b + 1) / cols) % rows == (b / cols) % rows
    ensures b % cols + 1 == cols ==>
      (b + 1) % cols == 0 && ((b + 1) / cols) % rows == ((b / cols) % rows + 1) % rows
  {
    DivStep(b, cols);
    var q := b / cols;
    DivStep(q, rows);
    if q % rows + 1 < rows {
      DivModUnique(q % rows + 1, rows, 0, q % rows + 1);
    } else {
      DivModUnique(q % rows + 1, rows, 1, 0);
    }
  }

  /** Printer-space geometry of a sheet, in points. */
  datatype Geometry = Geometry(
    borderLeft: real,
    borderBottom: real,
    badgeWidth: real,
    badgeHeight: real,
    interX: real,
    interY: real)

  /** Adding a gap only when it is non-zero is the same as always adding it. */
  lemma UniformPitch(base: real, n: real, size: real, gap: real)
    ensures (if gap != 0.0 then base + n * size + n * gap else base + n * size) == base + n * (size + gap)
  {
  }

  /**
   * Lower-left corner of a slot. The gap is added only when it is non-zero,
   * exactly as in the source; the result is nonetheless a uniform pitch of
   * card size plus gap in each direction.
   */
  function CellOrigin(l: Layout, g: Geometry, b: int): (r: (real, real))
    requires l.Valid()
    ensures r.0 == g.borderLeft + (SlotOf(l, b).col as real) * (g.badgeWidth + g.interX)
    ensures r.1 == g.borderBottom + (SlotOf(l, b).row as real) * (g.badgeHeight + g.interY)
  {
    var s := SlotOf(l, b);
    var x := g.borderLeft + (s.col as real) * g.badgeWidth;
    var y := g.borderBottom + (s.row as real) * g.badgeHeight;
    var x' := if g.interX != 0.0 then x + (s.gapCol as real) * g.interX else x;
    var y' := if g.interY != 0.0 then y + (s.gapRow as real) * g.interY else y;
    UniformPitch(g.borderLeft, s.col as real, g.badgeWidth, g.interX);
    UniformPitch(g.borderBottom, s.row as real, g.badgeHeight, g.interY);
    assert x' == g.borderLeft + (s.col as real) * (g.badgeWidth + g.interX);
    assert y' == g.borderBottom + (s.row as real) * (g.badgeHeight + g.interY);
    (x', y')
  }
}
