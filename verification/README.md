# GenBadges core in Dafny

GenBadges turns a participant list into sheets of adhesive badge labels. Each
label shows the participant's badge type, name, job title and organisation,
plus a QR code that holds a vCard. This project models the parts of
`genbadges.py` that are pure logic, and proves properties about them:

- **Layouts** (`layouts.dfy`): the `knownlayouts` catalog of label sheets.
  It records grid rows and columns, nominal card size and inter-cell padding.
- **Placement** (`placement.dfy`): the column/row arithmetic that maps a
  linear badge index to a cell. This includes the separate gap-row formula
  and the resulting lower-left corner of the cell.
- **Pagination** (`pagination.dfy`): the loop of `generate_pdf`. It is
  modelled as a fold into a canvas that records the finished pages and the
  open page. `showPage` closes the open page. The model includes the
  source's page-break rule and a corrected rule (see Findings).
- **RowFilter** (`row_filter.dfy`): `open_csv` applied to already-parsed
  rows. It keeps the non-empty rows whose running index is in the
  inclusive range. It also reads an entry through the `csvkeymap` headers.
- **TextFit** (`text_fit.dfy`): `fit_text`, the step-down size search.
  Sizes are integers counting half points, so the 0.5 pt step and the
  0.5 pt floor are exact. The string width is a function parameter.
- **Badge** (`badge.dfy`): the sizing decisions of `fill_badge`. These are
  which text is fitted, from which start size, against which box, and the
  16 pt one-line/two-line rule for the name.
- **Vcard** (`vcard.dfy`): `make_vcard`, the six CRLF-separated lines in
  the style of vCard 2.1. The file also defines a CRLF splitter and a
  reader that gets the fields back.

Python's `//` and `%` round toward minus infinity. For a positive divisor
they agree with Dafny's Euclidean `/` and `%`. So the placement formulas
are modelled exactly for any `--start` value, negative ones included.

On page breaks, the code calls `showPage` after every full sheet and then
once more unconditionally. That gives `N / (rows*cols) + 1` pages, with an
empty last page whenever `N` is a positive multiple of the sheet capacity
(`Pagination.GeneratePdf`, `Pagination.TrailingEmptyPage`).

## Model

| member | source | states |
|---|---|---|
| Layouts.Lookup | genbadges.py:36-58 | A key is found iff it is one of `4278`, `4668`, `1212`. A found layout has positive rows and 3 columns of 70 mm cards, and it is the catalog's entry for that key. |
| Layouts.CatalogValid | genbadges.py:36-58 | Every catalog layout has positive rows and columns, so the placement arithmetic never divides by zero. Every catalog layout has zero inter-cell padding. |
| Layouts.DefaultLayoutShape | genbadges.py:51-57 | The default `1212` sheet has 8 rows of 3 cells, 24 cells per page. |
| Placement.RowFormulasAgree | genbadges.py:198-204 | For every integer index, the gap term `(b % (rows*cols)) // cols` equals the grid row `(b // cols) % rows`. Row and column recombine to `b % (rows*cols)`. |
| Placement.SlotOf | genbadges.py:198-204 | The slot is computed with the source's formulas. The column is in `[0, cols)`, the row is in `[0, rows)`, and the gap multipliers equal the column and row. |
| Placement.SlotCellIndex | genbadges.py:198-199 | `row*cols + col` of an index's slot is the index modulo the sheet capacity. |
| Placement.CellDeterminesSlot | genbadges.py:198-199 | Two indices get the same slot iff they are congruent modulo `rows*cols`. |
| Placement.SlotPeriodic | genbadges.py:198-213 | The cell assignment repeats with period `rows*cols`, for any multiple of the period. |
| Placement.SlotStep | genbadges.py:198-213 | Incrementing the badge index moves one column right. From the last column it wraps to column 0 of the next row, and after the top row back to row 0. |
| Placement.CellOrigin | genbadges.py:198-204 | Adding the gaps only when they are non-zero still yields a uniform pitch. The pitch is card width plus horizontal gap per column, and card height plus vertical gap per row. |
| Pagination.PaginateShape | genbadges.py:196-215 | For any break base, the pages follow each other in input order without gaps. Every page but the last has its full size. The last page holds the rest. The count is one per `showPage`. |
| Pagination.GeneratePdf | genbadges.py:196-215 | Output has `N / (rows*cols) + 1` pages, each full except the last, which holds `N % (rows*cols)` badges. Page `k` position `j` is entry `k*rows*cols + j`, stamped with its loop counter and placed at badge index `start + k*rows*cols + j`. |
| Pagination.Render | genbadges.py:196-216 | A document comes out iff every row is readable, and it is `generate_pdf` of the entries read, with `N / (rows*cols) + 1` pages. An unreadable row ends the run before `save`, and the first such row's error is reported. |
| Pagination.BreaksIgnoreStart | genbadges.py:210-213 | Which entries share a page does not depend on the starting badge index. |
| Pagination.PageCellsDistinct | genbadges.py:196-215 | No two badges drawn on the same page occupy the same cell. |
| Pagination.TrailingEmptyPage | genbadges.py:210-215 | When `N > 0` is a multiple of the capacity, the last full sheet is followed by an empty page. |
| Pagination.DefaultSheetThirtyEntries | genbadges.py:196-215 | On the `1212` layout, 30 entries from index 0 give 2 pages, with 24 and 6 badges. |
| Pagination.StartReusesLowCells | genbadges.py:210-213 | As written: if `start % (rows*cols)` is non-zero and enough entries follow, the first page gets entry `rows*cols - start % (rows*cols)` in cell 0. That entry's badge index belongs to the next physical sheet. |
| Pagination.DefaultSheetStartFive | genbadges.py:210-213 | As written, on layout `1212` with `--start 5` and 20 entries, entry 19 is drawn on the only page, at column 0 and row 0. |
| Pagination.GeneratePdfAligned | genbadges.py:196-215 | With breaks keyed on the badge index, every page holds badge indices from one physical sheet only. The first page starts at cell `start % (rows*cols)` and holds `rows*cols - start % (rows*cols)` entries, every later page but the last is full, and the last holds the rest, so page `k` position `j` is the next entry in input order and all entries appear once. |
| RowFilter.KeptIndices | genbadges.py:86-95 | The kept positions are exactly the non-empty rows with `first <= idx <= last`, where the index counts every row. They are strictly increasing. |
| RowFilter.Bounds | genbadges.py:87-88 | An absent `--csvfirst` becomes 0 and an absent `--csvlast` becomes 2147483647. A given bound is used unchanged. |
| RowFilter.OpenCsv | genbadges.py:86-95 | The loop appends exactly the kept rows, in input order, with the defaults `0` and `2147483647` for absent bounds. |
| RowFilter.KeptCount | genbadges.py:86-95 | At most `last - first + 1` rows are kept (none if `last < first`), and never more than there are rows. |
| RowFilter.DefaultsKeepAllNonEmpty | genbadges.py:87-88 | With no bounds, on fewer than 2^31 rows, a row is kept iff it is non-empty. |
| RowFilter.ReadEntry | genbadges.py:121-170 | An entry is read iff the type, first name, last name, job title and organisation columns are present with a value and the email column is present. A missing email value is read as the text `None`. A failure reports the first lookup, in the order type, first name, last name, job title, organisation, email, that meets an absent column or a missing value. |
| RowFilter.ReadEntryReportsFirstFailure | genbadges.py:121-170 | Conversely, whenever lookup `k` is the first one that fails, that failure is the one reported. |
| RowFilter.ReadAll | genbadges.py:196-207 | Reading the entries in loop order succeeds iff every row is readable, and then entry `k` is row `k` read. Otherwise the error is that of the first unreadable row. |
| TextFit.FitText | genbadges.py:97-104 | The search terminates. The result is at most the start size, and its width is the width measured at it. Either the text is narrower than the box or the size is at most 0.5 pt. Every larger size tried was too wide. A start of at least 0.5 pt never yields less than 0.5 pt. |
| TextFit.Tried | genbadges.py:98-104 | The sizes measured are the start size and then each size exactly 0.5 pt smaller. The search stops at the first size that meets the stopping condition, which is the returned size. |
| TextFit.FitTextGreatest | genbadges.py:97-104 | For widths that grow with size, and for sizes above the floor, a size fits iff it is at most the returned size. So the result is the largest fitting size. |
| Badge.LayoutName | genbadges.py:137-152 | The name is on one line iff the full name's fitted size from 22 pt is at least 16 pt, and then it fits the box. Otherwise first and last name are drawn on two lines at the smaller of their fitted sizes, with ties taking the first name's metrics. |
| Badge.LayoutNameSized | genbadges.py:137-152 | The chosen block is one line iff the full name's fitted size is at least 16 pt, and then the full name fits at its largest fitting size. Otherwise first and last name share the smaller of their two fitted sizes, with the first name's fit on a tie. Above that size one of them is too wide, and at it one of them fits unless it is the 0.5 pt floor. |
| Badge.TwoLinesBothFit | genbadges.py:143-152 | For widths that grow with size, both lines of a two-line name fit at the shared size unless it is the 0.5 pt floor. |
| Badge.Upper | genbadges.py:125-127 | The badge type is upper-cased letter by letter. The length is kept, each lower-case ASCII letter becomes the upper-case letter at the same alphabet position, and every other character is unchanged. |
| Badge.UpperIdempotent | genbadges.py:125-127 | Upper-casing an already upper-cased type changes nothing. |
| Badge.LayoutBadge | genbadges.py:121-165 | The badge type is fitted only when non-empty. Type, job title and organisation are each set at a size between 0.5 pt and 16 pt that fits unless it is the floor, with every larger size up to 16 pt too wide. The name is on one line iff the full name's fitted size is at least 16 pt, and then it fits. Otherwise both names are set at the smaller of their two fitted sizes. |
| Badge.LayoutBadgeGreatest | genbadges.py:121-165 | For widths that grow with size, type, job title and organisation are each set at the largest size up to 16 pt that fits. Above 0.5 pt a size fits iff it is at most the chosen one. |
| Vcard.MakeVcard | genbadges.py:60-72 | The card starts with `BEGIN:VCARD`, `VERSION:2.1` and `N:`, and ends with `END:VCARD`. It adds exactly 54 fixed characters to the four field values. |
| Vcard.SplitJoin | genbadges.py:65-72 | Splitting a CRLF join of CRLF-free lines on CRLF gives the lines back. |
| Vcard.SplitCard | genbadges.py:60-72 | When no field contains CRLF, splitting the card on CRLF gives exactly the six lines `BEGIN:VCARD`, `VERSION:2.1`, `N:<last>;<first>`, `ORG:<company>`, `EMAIL:<email>`, `END:VCARD`. |
| Vcard.JoinSplit | genbadges.py:65-72 | Joining the pieces of any split with CRLF restores the string. |
| Vcard.ParseVcard | genbadges.py:60-72 | Whatever the reader accepts is exactly the card `make_vcard` builds from the fields it returns. |
| Vcard.ParseMakeVcard | genbadges.py:60-72 | For fields without CRLF and a last name without `;`, reading the card back gives the original four fields. |

## Left out

- Drawing: reportlab canvas calls, `drawString`, `line`, `rect`, debug frames, `save`, and the QR-code image. These are foreign library calls. The canvas records only which badge went into which slot and where pages end.
- Font registration and string metrics: `stringWidth` is a function parameter. The face-based height estimate is left out because it only feeds vertical positions.
- Floating-point geometry: millimetre conversion, page borders, the 3 mm padding, and the fractions of the cell height. `Placement.CellOrigin` uses exact reals and ignores float rounding.
- The `borders` entry of layout `4668` is computed from 5 rows although the sheet has 7. This is catalog geometry and is not part of this model.
- `fit_text` receives a `height` argument that it never uses. The model omits it.
- TextFit.FitText: start sizes that are not whole multiples of 0.5 pt are not modelled. Every call site starts at 16 pt or 22 pt.
- CSV tokenising and file opening: rows arrive already parsed. `csv.DictReader` already drops blank lines. So the `len(row)` test only removes records with no fields, and the running index counts the records the reader yields. A short record has `None` in the columns it lacks, which the model keeps as a missing value. A long record's surplus fields, which the reader files under the key `None`, are not modelled.
- RowFilter.ReadEntry: a missing job title or organisation value is taken to fail when the metrics library measures it. That library is not part of this model.
- Command-line handling: argparse, `--layout-list` printing, `exit` codes, `--debug`, and passing the raw `--layout` string where a layout is expected. This is I/O plumbing.
- The class-level shared `entries` list: entries are an explicit immutable sequence.
- Badge.Upper: upper-cases ASCII letters only. Python's `str.upper` covers all of Unicode, and that mapping is library data.
- Vcard.ParseMakeVcard: the round trip needs CRLF-free fields and a last name without `;`. `make_vcard` inserts values without vCard escaping, so other values do not read back unambiguously.
- Unknown layout keys: the source never looks one up (see the `--layout` note above). `Layouts.Lookup` returns `None` for them.

## Findings

| source | as written | input that shows it | evidently intended | confidence | as-written member | corrected member |
|---|---|---|---|---|---|---|
| genbadges.py:210-211 | `showPage` after entry `i` when `(i+1) % (rows*cols) == 0`, keyed on the loop counter while cells are keyed on `badgeindex = start + i` | layout `1212`, `--start 5`, 20 entries: entry 19 has badge index 24 and is drawn in column 0, row 0 of the first sheet. `--start` declared that cell already used. | break when `(badgeindex + 1) % (rows*cols) == 0`, so each page holds one physical sheet's cells | medium (not executed) | Pagination.StartReusesLowCells | Pagination.GeneratePdfAligned |
