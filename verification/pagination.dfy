/**
 * The placement and page-break loop of `generate_pdf`, modelled as a fold
 * over the entries into a canvas that only records which badge went into
 * which slot and where the `showPage` calls fell.
 */
module Pagination {
  import opened Common
  import opened Layouts
  import opened Placement
  import RowFilter

  /** One drawn badge: the entry, its `row` stamp (the loop counter) and its slot. */
  datatype Placed<E> = Placed(entry: E, stamp: int, slot: Slot)

  /**
   * The canvas as far as pagination is concerned: finished pages, and the
   * badges drawn on the page that is still open.
   */
  datatype Canvas<E> = Canvas(pages: seq<seq<Placed<E>>>, current: seq<Placed<E>>)
  {
    /** Drawing a badge puts it on the open page. */
    function Draw(p: Placed<E>): Canvas<E>
    {
      Canvas(pages, current + [p])
    }

    /** `showPage` closes the open page, even when nothing was drawn on it. */
    function ShowPage(): Canvas<E>
    {
      Canvas(pages + [current], [])
    }
  }

  /** Entry `i` drawn at badge index `start + i`, stamped with `i`. */
  function PlacementOf<E>(l: Layout, entries: seq<E>, start: int, i: int): Placed<E>
    requires l.Valid() && 0 <= i < |entries|
  {
    Placed(entries[i], i, SlotOf(l, start + i))
  }

  /** `p` is exactly the drawing of entry `i`. */
  ghost predicate PlacedAs<E>(l: Layout, entries: seq<E>, start: int, p: Placed<E>, i: int)
    requires l.Valid()
  {
    0 <= i < |entries| && p == PlacementOf(l, entries, start, i)
  }

  /**
   * The loop body for entries `i..`: draw entry `i` at badge index
   * `start + i`, then call `showPage` when `(base + i + 1) % (rows*cols)`
   * is zero. The source uses `base = 0`, i.e. it keys breaks on the loop
   * counter alone.
   */
  function Loop<E>(l: Layout, entries: seq<E>, start: int, base: int, i: int, c: Canvas<E>): Canvas<E>
    requires l.Valid() && 0 <= i <= |entries|
    decreases |entries| - i
  {
    if i == |entries| then c
    else
      var c1 := c.Draw(PlacementOf(l, entries, start, i));
      var c2 := if (base + i + 1) % l.Capacity() == 0 then c1.ShowPage() else c1;
      Loop(l, entries, start, base, i + 1, c2)
  }

  /** The whole run: the loop, then the unconditional final `showPage`. */
  function Paginate<E>(l: Layout, entries: seq<E>, start: int, base: int): Canvas<E>
    requires l.Valid()
  {
    Loop(l, entries, start, base, 0, Canvas([], [])).ShowPage()
  }

  // ---------------------------------------------------------------------
  // Page layout of the output, for a break phase in [0, rows*cols)
  // ---------------------------------------------------------------------

  /** Index of the first entry on page `k` when breaks fall after `(phase + i + 1) % p == 0`. */
  function PageStart(p: int, phase: int, k: int): int
    requires p > 0 && 0 <= phase < p && k >= 0
  {
    if k == 0 then 0 else k * p - phase
  }

  /** Number of entries a completed page `k` holds. */
  function PageSize(p: int, phase: int, k: int): int
    requires p > 0 && 0 <= phase < p && k >= 0
  {
    if k == 0 then p - phase else p
  }

  lemma PageStartNext(p: int, phase: int, k: int)
    requires p > 0 && 0 <= phase < p && k >= 0
    ensures PageStart(p, phase, k + 1) == PageStart(p, phase, k) + PageSize(p, phase, k)
  {
  }

  /** The canvas after the loop has processed entries `0..n`. */
  ghost predicate Shape<E>(l: Layout, entries: seq<E>, start: int, phase: int, n: int, c: Canvas<E>)
    requires l.Valid() && 0 <= phase < l.Capacity()
  {
    var p := l.Capacity();
    var k := |c.pages|;
    && 0 <= n <= |entries|
    && k == (phase + n) / p
    && PageStart(p, phase, k) <= n
    && (forall i :: 0 <= i < k ==> |c.pages[i]| == PageSize(p, phase, i))
    && (forall i, j :: 0 <= i < k && 0 <= j < |c.pages[i]| ==>
          PlacedAs(l, entries, start, c.pages[i][j], PageStart(p, phase, i) + j))
    && |c.current| == n - PageStart(p, phase, k)
    && (forall j :: 0 <= j < |c.current| ==> PlacedAs(l, entries, start, c.current[j], PageStart(p, phase, k) + j))
  }

  lemma ModShift(a: int, b: int, p: int)
    requires p > 0
    ensures (a + b) % p == (a % p + b) % p
  {
    DivModUnique(a + b, p, a / p + (a % p + b) / p, (a % p + b) % p);
  }

  /** Closing a full open page keeps the shape, with one more finished page. */
  lemma ShapeClosePage<E>(l: Layout, entries: seq<E>, start: int, phase: int, n: int, c: Canvas<E>)
    requires l.Valid() && 0 <= phase < l.Capacity() && 0 <= n <= |entries|
    requires (phase + n) % l.Capacity() == 0 && |c.pages| + 1 == (phase + n) / l.Capacity()
    requires PageStart(l.Capacity(), phase, |c.pages| + 1) == n
    requires |c.current| == PageSize(l.Capacity(), phase, |c.pages|)
    requires forall i :: 0 <= i < |c.pages| ==> |c.pages[i]| == PageSize(l.Capacity(), phase, i)
    requires forall i, j :: 0 <= i < |c.pages| && 0 <= j < |c.pages[i]| ==>
      PlacedAs(l, entries, start, c.pages[i][j], PageStart(l.Capacity(), phase, i) + j)
    requires forall j :: 0 <= j < |c.current| ==>
      PlacedAs(l, entries, start, c.current[j], PageStart(l.Capacity(), phase, |c.pages|) + j)
    ensures Shape(l, entries, start, phase, n, c.ShowPage())
  {
    var p, k := l.Capacity(), |c.pages|;
    var c2 := c.ShowPage();
    forall i, j | 0 <= i < k + 1 && 0 <= j < |c2.pages[i]|
      ensures PlacedAs(l, entries, start, c2.pages[i][j], PageStart(p, phase, i) + j)
    {
      if i == k {
        assert c2.pages[i][j] == c.current[j];
      } else {
        assert c2.pages[i] == c.pages[i];
      }
    }
  }

  /** Drawing entry `n` appends it to the open page and leaves the finished pages alone. */
  lemma ShapeDraw<E>(l: Layout, entries: seq<E>, start: int, phase: int, n: int, c: Canvas<E>)
    requires l.Valid() && 0 <= phase < l.Capacity()
    requires Shape(l, entries, start, phase, n, c) && n < |entries|
    ensures var c1 := c.Draw(PlacementOf(l, entries, start, n));
      && c1.pages == c.pages
      && |c1.current| == n + 1 - PageStart(l.Capacity(), phase, |c.pages|)
      && (forall j :: 0 <= j < |c1.current| ==>
            PlacedAs(l, entries, start, c1.current[j], PageStart(l.Capacity(), phase, |c.pages|) + j))
  {
  }

  lemma ShapeStep<E>(l: Layout, entries: seq<E>, start: int, base: int, n: int, c: Canvas<E>)
    requires l.Valid() && Shape(l, entries, start, base % l.Capacity(), n, c) && n < |entries|
    ensures var c1 := c.Draw(PlacementOf(l, entries, start, n));
      Shape(l, entries, start, base % l.Capacity(), n + 1,
            if (base + n + 1) % l.Capacity() == 0 then c1.ShowPage() else c1)
  {
    var p, phase := l.Capacity(), base % l.Capacity();
    var k := |c.pages|;
    var c1 := c.Draw(PlacementOf(l, entries, start, n));
    ShapeDraw(l, entries, start, phase, n, c);
    ModShift(base, n + 1, p);
    DivStep(phase + n, p);
    PageStartNext(p, phase, k);
    if (base + n + 1) % p == 0 {
      assert phase + n + 1 == (k + 1) * p;
      ShapeClosePage(l, entries, start, phase, n + 1, c1);
    } else {
      assert Shape(l, entries, start, phase, n + 1, c1);
    }
  }

  lemma {:induction false} LoopShape<E>(l: Layout, entries: seq<E>, start: int, base: int, n: int, c: Canvas<E>)
    requires l.Valid() && Shape(l, entries, start, base % l.Capacity(), n, c)
    ensures Shape(l, entries, start, base % l.Capacity(), |entries|, Loop(l, entries, start, base, n, c))
    decreases |entries| - n
  {
    if n < |entries| {
      var c1 := c.Draw(PlacementOf(l, entries, start, n));
      var c2 := if (base + n + 1) % l.Capacity() == 0 then c1.ShowPage() else c1;
      ShapeStep(l, entries, start, base, n, c);
      LoopShape(l, entries, start, base, n + 1, c2);
    }
  }

  /**
   * Shape of the finished document for any break base: the pages follow one
   * another without gaps, every page but the last is complete, and the last
   * page holds whatever is left (possibly nothing).
   */
  lemma {:induction false} PaginateShape<E>(l: Layout, entries: seq<E>, start: int, base: int)
    requires l.Valid()
    ensures var r, p, phase := Paginate(l, entries, start, base), l.Capacity(), base % l.Capacity();
      && r.current == []
      && |r.pages| == (phase + |entries|) / p + 1
      && (forall i :: 0 <= i < |r.pages| - 1 ==> |r.pages[i]| == PageSize(p, phase, i))
      && |r.pages[|r.pages| - 1]| == |entries| - PageStart(p, phase, |r.pages| - 1)
      && (forall i, j :: 0 <= i < |r.pages| && 0 <= j < |r.pages[i]| ==>
            PlacedAs(l, entries, start, r.pages[i][j], PageStart(p, phase, i) + j))
  {
    var p, phase := l.Capacity(), base % l.Capacity();
    DivModUnique(phase, p, 0, phase);
    var c0: Canvas<E> := Canvas([], []);
    assert Shape(l, entries, start, phase, 0, c0);
    LoopShape(l, entries, start, base, 0, c0);
    var c := Loop(l, entries, start, base, 0, c0);
    var r := c.ShowPage();
    assert forall i, j :: 0 <= i < |r.pages| && 0 <= j < |r.pages[i]| ==>
        PlacedAs(l, entries, start, r.pages[i][j], PageStart(p, phase, i) + j) by {
      forall i, j | 0 <= i < |r.pages| && 0 <= j < |r.pages[i]|
        ensures PlacedAs(l, entries, start, r.pages[i][j], PageStart(p, phase, i) + j)
      {
        if i == |c.pages| {
          assert r.pages[i][j] == c.current[j];
        } else {
          assert r.pages[i] == c.pages[i];
        }
      }
    }
  }

  // ---------------------------------------------------------------------
  // The source as written: page breaks keyed on the loop counter
  // ---------------------------------------------------------------------

  /**
   * `generate_pdf`: entry `i` goes to badge index `start + i`; `showPage`
   * follows entry `i` exactly when `(i + 1) % (rows*cols) == 0`, and once
   * more at the end. So there are `N / (rows*cols) + 1` pages, each full
   * except the last, which holds `N % (rows*cols)` badges, and page `k`
   * holds entries `k*rows*cols ..` in input order.
   */
  function GeneratePdf<E>(l: Layout, entries: seq<E>, start: int): (r: Canvas<E>)
    requires l.Valid()
    ensures r.current == []
    ensures |r.pages| == |entries| / l.Capacity() + 1
    ensures forall k :: 0 <= k < |r.pages| - 1 ==> |r.pages[k]| == l.Capacity()
    ensures |r.pages[|r.pages| - 1]| == |entries| % l.Capacity()
    ensures forall k, j :: 0 <= k < |r.pages| && 0 <= j < |r.pages[k]| ==>
      PlacedAs(l, entries, start, r.pages[k][j], k * l.Capacity() + j)
  {
    var p, n := l.Capacity(), |entries|;
    PaginateShape(l, entries, start, 0);
    DivModUnique(0, p, 0, 0);
    DivModUnique(n, p, n / p, n % p);
    var r := Paginate(l, entries, start, 0);
    forall k | 0 <= k < |r.pages|
      ensures PageStart(p, 0, k) == k * p
    {
    }
    r
  }

  /**
   * The whole run over the filtered rows. `fill_badge` looks each column up
   * as it draws, so the first row that cannot be read raises and the run
   * ends before `save`: no document at all, reported as that row's error.
   * Otherwise the document is `generate_pdf` of the entries read.
   */
  function Render(l: Layout, rows: seq<RowFilter.Row>, start: int): (r: Result<Canvas<RowFilter.Entry>, RowFilter.ReadError>)
    requires l.Valid()
    ensures r.Success? <==> forall k :: 0 <= k < |rows| ==> RowFilter.ReadEntry(rows[k]).Success?
    ensures r.Failure? ==> exists k :: 0 <= k < |rows| && RowFilter.ReadEntry(rows[k]) == Failure(r.error) &&
                                       (forall j :: 0 <= j < k ==> RowFilter.ReadEntry(rows[j]).Success?)
    ensures r.Success? ==>
      && RowFilter.ReadAll(rows).Success?
      && r.value == GeneratePdf(l, RowFilter.ReadAll(rows).value, start)
      && |r.value.pages| == |rows| / l.Capacity() + 1
  {
    match RowFilter.ReadAll(rows)
    case Failure(e) => Failure(e)
    case Success(entries) =>
      var doc := GeneratePdf(l, entries, start);
      Success(doc)
  }

  /** Page breaks do not depend on the starting badge index. */
  lemma BreaksIgnoreStart<E>(l: Layout, entries: seq<E>, s1: int, s2: int)
    requires l.Valid()
    ensures var r1, r2 := GeneratePdf(l, entries, s1), GeneratePdf(l, entries, s2);
      && |r1.pages| == |r2.pages|
      && (forall k :: 0 <= k < |r1.pages| ==> |r1.pages[k]| == |r2.pages[k]|)
      && (forall k, j :: 0 <= k < |r1.pages| && 0 <= j < |r1.pages[k]| ==>
            r1.pages[k][j].entry == r2.pages[k][j].entry && r1.pages[k][j].stamp == r2.pages[k][j].stamp)
  {
  }

  /** Fewer than `p` consecutive integers have distinct residues. */
  lemma ModDistinct(b: int, j1: int, j2: int, p: int)
    requires p > 0 && 0 <= j1 < j2 < p
    ensures (b + j1) % p != (b + j2) % p
  {
    var q, r := (b + j1) / p, (b + j1) % p;
    if r + (j2 - j1) < p {
      DivModUnique(b + j2, p, q, r + (j2 - j1));
    } else {
      DivModUnique(b + j2, p, q + 1, r + (j2 - j1) - p);
    }
  }

  /** No two badges on one page share a cell. */
  lemma {:induction false} PageCellsDistinct<E>(l: Layout, entries: seq<E>, start: int, k: int, j1: int, j2: int)
    requires l.Valid()
    requires var r := GeneratePdf(l, entries, start);
      0 <= k < |r.pages| && 0 <= j1 < j2 < |r.pages[k]|
    ensures var r := GeneratePdf(l, entries, start);
      r.pages[k][j1].slot != r.pages[k][j2].slot
  {
    var p := l.Capacity();
    var kp := k * p;
    var r := GeneratePdf(l, entries, start);
    assert PlacedAs(l, entries, start, r.pages[k][j1], kp + j1);
    assert PlacedAs(l, entries, start, r.pages[k][j2], kp + j2);
    assert j2 < p by {
      if k < |r.pages| - 1 {
        assert |r.pages[k]| == p;
      } else {
        assert |r.pages[k]| == |entries| % p;
      }
    }
    ModDistinct(start + kp, j1, j2, p);
    CellDeterminesSlot(l, start + kp + j1, start + kp + j2);
  }

  /** A full last sheet is followed by an empty page (the final `showPage`). */
  lemma TrailingEmptyPage<E>(l: Layout, entries: seq<E>, start: int)
    requires l.Valid() && |entries| > 0 && |entries| % l.Capacity() == 0
    ensures var r := GeneratePdf(l, entries, start);
      |r.pages| >= 2 && r.pages[|r.pages| - 1] == [] && |r.pages[|r.pages| - 2]| == l.Capacity()
  {
  }

  /** Thirty entries on the default sheet from badge index 0: 24 + 6. */
  lemma DefaultSheetThirtyEntries<E>(entries: seq<E>)
    requires |entries| == 30
    ensures var r := GeneratePdf(Apli1212, entries, 0);
      |r.pages| == 2 && |r.pages[0]| == 24 && |r.pages[1]| == 6
  {
  }

  /** A run of at least `p` items covers at least one whole multiple of `p`. */
  lemma DivAtLeastOne(n: int, p: int)
    requires 0 < p <= n
    ensures n / p >= 1
  {
    var q, r := (n - p) / p, (n - p) % p;
    assert n == (q + 1) * p + r;
    DivModUnique(n, p, q + 1, r);
  }

  /** Filling up the rest of the sheet of `start` reaches the next sheet boundary. */
  lemma NextSheet(start: int, p: int)
    requires p > 0
    ensures (start + (p - start % p)) / p == start / p + 1
    ensures (start + (p - start % p)) % p == 0
  {
    var q := start / p;
    assert start + (p - start % p) == (q + 1) * p;
    DivModUnique(start + (p - start % p), p, q + 1, 0);
  }

  /**
   * With a start index that is not at a sheet boundary, the first sheet also
   * receives badges in cells below `start % (rows*cols)`: entry
   * `rows*cols - start % (rows*cols)` is drawn on page 0 in cell 0, which
   * belongs to the next physical sheet's run of badge indices.
   */
  lemma {:induction false} StartReusesLowCells<E>(l: Layout, entries: seq<E>, start: int)
    requires l.Valid()
    requires 0 < start % l.Capacity() && |entries| > l.Capacity() - start % l.Capacity()
    ensures var r, j := GeneratePdf(l, entries, start), l.Capacity() - start % l.Capacity();
      && j < |r.pages[0]|
      && r.pages[0][j].stamp == j
      && CellIndex(l, r.pages[0][j].slot) == 0
      && (start + j) / l.Capacity() == start / l.Capacity() + 1
  {
    var p, n := l.Capacity(), |entries|;
    var j := p - start % p;
    var r := GeneratePdf(l, entries, start);
    assert j < |r.pages[0]| by {
      if n < p {
        DivModUnique(n, p, 0, n);
        assert |r.pages[0]| == n;
      } else {
        DivAtLeastOne(n, p);
        assert |r.pages[0]| == p;
      }
    }
    assert PlacedAs(l, entries, start, r.pages[0][j], 0 * p + j);
    SlotCellIndex(l, start + j);
    NextSheet(start, p);
  }

  /** The 1212 sheet with `--start 5` and 20 entries: entry 19 lands in cell 0 of sheet 1. */
  lemma DefaultSheetStartFive<E>(entries: seq<E>)
    requires |entries| == 20
    ensures var r := GeneratePdf(Apli1212, entries, 5);
      |r.pages| == 1 && r.pages[0][19].slot.col == 0 && r.pages[0][19].slot.row == 0
  {
    StartReusesLowCells(Apli1212, entries, 5);
    var r := GeneratePdf(Apli1212, entries, 5);
    var s := r.pages[0][19].slot;
    assert s.row * 3 + s.col == 0;
  }

  // ---------------------------------------------------------------------
  // Corrected pagination: page breaks keyed on the badge index
  // ---------------------------------------------------------------------

  /** Where an aligned page starts, relative to the start index's sheet. */
  lemma AlignedBlock(start: int, p: int, k: int, j: int)
    requires p > 0 && k >= 0 && 0 <= j < PageSize(p, start % p, k)
    ensures (start + PageStart(p, start % p, k) + j) / p == start / p + k
    ensures (start + PageStart(p, start % p, k) + j) % p == (if k == 0 then start % p + j else j)
  {
    var o, q := start % p, start / p;
    assert start == q * p + o;
    if k == 0 {
      DivModUnique(start + j, p, q, o + j);
    } else {
      var kp := k * p;
      assert PageStart(p, o, k) == kp - o;
      assert (q + k) * p == q * p + kp;
      DivModUnique(start + (kp - o) + j, p, q + k, j);
    }
  }

  /**
   * `generate_pdf` with `showPage` after badge index `b` exactly when
   * `(b + 1) % (rows*cols) == 0`. Every page then holds badge indices from
   * one physical sheet only, the first page starts at cell
   * `start % (rows*cols)`, and all entries still appear once, in order.
   */
  function GeneratePdfAligned<E>(l: Layout, entries: seq<E>, start: int): (r: Canvas<E>)
    requires l.Valid()
    ensures r.current == []
    ensures |r.pages| == (start % l.Capacity() + |entries|) / l.Capacity() + 1
    ensures forall k :: 0 <= k < |r.pages| - 1 ==>
      |r.pages[k]| == PageSize(l.Capacity(), start % l.Capacity(), k)
    ensures |r.pages[|r.pages| - 1]| == |entries| - PageStart(l.Capacity(), start % l.Capacity(), |r.pages| - 1)
    ensures forall k, j :: 0 <= k < |r.pages| && 0 <= j < |r.pages[k]| ==>
      PlacedAs(l, entries, start, r.pages[k][j], PageStart(l.Capacity(), start % l.Capacity(), k) + j)
    ensures forall k, j :: 0 <= k < |r.pages| && 0 <= j < |r.pages[k]| ==>
      (start + r.pages[k][j].stamp) / l.Capacity() == start / l.Capacity() + k
    ensures forall j :: 0 <= j < |r.pages[0]| ==>
      CellIndex(l, r.pages[0][j].slot) == start % l.Capacity() + j
  {
    PaginateShape(l, entries, start, start);
    var r := Paginate(l, entries, start, start);
    forall k, j | 0 <= k < |r.pages| && 0 <= j < |r.pages[k]|
      ensures (start + r.pages[k][j].stamp) / l.Capacity() == start / l.Capacity() + k
      ensures k == 0 ==> CellIndex(l, r.pages[k][j].slot) == start % l.Capacity() + j
    {
      AlignedPlacement(l, entries, start, k, j);
    }
    r
  }

  /** One badge of the aligned run: its sheet and, on the first page, its cell. */
  /** The entries run out before the page after the last one would start. */
  lemma LastPageBound(p: int, o: int, n: int, k: int)
    requires p > 0 && 0 <= o < p && n >= 0 && k == (o + n) / p
    ensures n < PageStart(p, o, k + 1)
  {
    PageStartNext(p, o, k);
    DivModUnique(o + n, p, k, (o + n) % p);
  }

  lemma AlignedPlacement<E>(l: Layout, entries: seq<E>, start: int, k: int, j: int)
    requires l.Valid()
    requires var r := Paginate(l, entries, start, start);
      0 <= k < |r.pages| && 0 <= j < |r.pages[k]|
    ensures var r := Paginate(l, entries, start, start);
      && (start + r.pages[k][j].stamp) / l.Capacity() == start / l.Capacity() + k
      && (k == 0 ==> CellIndex(l, r.pages[k][j].slot) == start % l.Capacity() + j)
  {
    var p := l.Capacity();
    var o := start % p;
    PaginateShape(l, entries, start, start);
    var r := Paginate(l, entries, start, start);
    assert PlacedAs(l, entries, start, r.pages[k][j], PageStart(p, o, k) + j);
    assert j < PageSize(p, o, k) by {
      if k == |r.pages| - 1 {
        LastPageBound(p, o, |entries|, k);
      }
    }
    AlignedBlock(start, p, k, j);
    SlotCellIndex(l, start + PageStart(p, o, k) + j);
  }
}
