/**
 * `open_csv` after tokenising: which of the already-parsed rows become
 * badge entries, and how a row is read through the header map.
 */
module RowFilter {
  import opened Common

  /**
   * A parsed record: header name to cell text. A record shorter than the
   * header row has `None` in the columns it lacks.
   */
  type Row = map<string, Option<string>>

  /** Bounds used when `--csvfirst` / `--csvlast` are absent. */
  const DefaultFirst: int := 0
  const DefaultLast: int := 2147483647

  /** The inclusive index range, with the defaults filled in. */
  function Bounds(csvFirst: Option<int>, csvLast: Option<int>): (r: (int, int))
    ensures r.0 == (if csvFirst.Some? then csvFirst.value else 0)
    ensures r.1 == (if csvLast.Some? then csvLast.value else 2147483647)
  {
    (if csvFirst.None? then DefaultFirst else csvFirst.value,
     if csvLast.None? then DefaultLast else csvLast.value)
  }

  /** Row `k` is kept when it has fields and its running index is in range. */
  predicate Keep(rows: seq<Row>, first: int, last: int, k: int)
    requires 0 <= k < |rows|
  {
    |rows[k]| > 0 && first <= k <= last
  }

  /**
   * Positions of the kept rows, in increasing order. The running index
   * counts every row, the skipped empty ones included.
   */
  function KeptIndices(rows: seq<Row>, first: int, last: int): (ix: seq<int>)
    ensures forall j :: 0 <= j < |ix| ==> 0 <= ix[j] < |rows| && Keep(rows, first, last, ix[j])
    ensures forall k :: 0 <= k < |rows| && Keep(rows, first, last, k) ==> k in ix
    ensures forall j1, j2 :: 0 <= j1 < j2 < |ix| ==> ix[j1] < ix[j2]
    decreases |rows|
  {
    if |rows| == 0 then []
    else
      var n := |rows| - 1;
      var prev := KeptIndices(rows[..n], first, last);
      assert forall j :: 0 <= j < |prev| ==> rows[..n][prev[j]] == rows[prev[j]];
      if |rows[n]| > 0 && first <= n <= last then prev + [n] else prev
  }

  /**
   * `open_csv`: walk the rows with a running index and append every kept
   * row to the entries. The result is the kept rows, in input order.
   */
  method OpenCsv(rows: seq<Row>, csvFirst: Option<int>, csvLast: Option<int>) returns (entries: seq<Row>)
    ensures var (first, last) := Bounds(csvFirst, csvLast);
      var ix := KeptIndices(rows, first, last);
      |entries| == |ix| && forall j :: 0 <= j < |entries| ==> entries[j] == rows[ix[j]]
  {
    var (first, last) := Bounds(csvFirst, csvLast);
    entries := [];
    var idx := 0;
    while idx < |rows|
      invariant 0 <= idx <= |rows|
      invariant |entries| == |KeptIndices(rows[..idx], first, last)|
      invariant forall j :: 0 <= j < |entries| ==> entries[j] == rows[KeptIndices(rows[..idx], first, last)[j]]
    {
      assert rows[..idx + 1][..idx] == rows[..idx];
      if |rows[idx]| > 0 && idx >= first && idx <= last {
        entries := entries + [rows[idx]];
      }
      idx := idx + 1;
    }
    assert rows[..idx] == rows;
  }

  /** An increasing run of integers inside `[lo, hi]` has at most `hi - lo + 1` elements. */
  lemma {:induction false} IncreasingWithin(s: seq<int>, lo: int, hi: int)
    requires forall j :: 0 <= j < |s| ==> lo <= s[j] <= hi
    requires forall j1, j2 :: 0 <= j1 < j2 < |s| ==> s[j1] < s[j2]
    ensures |s| <= (if hi < lo then 0 else hi - lo + 1)
  {
    if |s| > 0 {
      IncreasingWithin(s[1..], s[0] + 1, hi);
    }
  }

  /**
   * At most `last - first + 1` rows are kept (none when the range is
   * empty), and never more than there are rows.
   */
  lemma KeptCount(rows: seq<Row>, first: int, last: int)
    ensures |KeptIndices(rows, first, last)| <= (if last < first then 0 else last - first + 1)
    ensures |KeptIndices(rows, first, last)| <= |rows|
  {
    var ix := KeptIndices(rows, first, last);
    IncreasingWithin(ix, first, last);
    IncreasingWithin(ix, 0, |rows| - 1);
  }

  /** With no bounds given, every non-empty row of a file with fewer than 2^31 rows is kept. */
  lemma DefaultsKeepAllNonEmpty(rows: seq<Row>)
    requires |rows| <= 2147483648
    ensures var ix := KeptIndices(rows, 0, 2147483647);
      forall k :: 0 <= k < |rows| ==> (k in ix <==> |rows[k]| > 0)
  {
  }

  // ---------------------------------------------------------------------
  // Reading an entry through the header map (`csvkeymap`)
  // ---------------------------------------------------------------------

  const TypeHeader := "Type of Participant"
  const EmailHeader := "Email"
  const LastNameHeader := "Last Name"
  const FirstNameHeader := "First Name"
  const RoleHeader := "Job Title"
  const CompanyHeader := "Organisation"

  /** The columns in the order `fill_badge` first looks them up. */
  const LookupOrder: seq<string> := [TypeHeader, FirstNameHeader, LastNameHeader, RoleHeader, CompanyHeader, EmailHeader]

  /** One participant as the badge renderer reads it. */
  datatype Entry = Entry(kind: string, email: string, lastName: string, firstName: string, role: string, company: string)

  /** Why a row cannot be rendered: the column is absent, or this record has no value in it. */
  datatype ReadError = MissingColumn(header: string) | MissingValue(header: string)

  /** The column is present and this record has a value in it. */
  predicate Readable(row: Row, h: string)
  {
    h in row && row[h].Some?
  }

  /** A cell as an f-string renders it: a missing value becomes the text `None`. */
  function Rendered(v: Option<string>): (t: string)
    ensures v.Some? ==> t == v.value
    ensures v.None? ==> t == "None"
  {
    if v.Some? then v.value else "None"
  }

  /**
   * Lookup `k` is the first to fail, with error `e`: every earlier column
   * is readable, and column `k` is absent or, before the email, has no value.
   */
  predicate FailsAt(row: Row, k: int, e: ReadError)
    requires 0 <= k < |LookupOrder|
  {
    && e.header == LookupOrder[k]
    && (forall j :: 0 <= j < k ==> Readable(row, LookupOrder[j]))
    && (e.MissingColumn? <==> LookupOrder[k] !in row)
    && (e.MissingValue? ==> k < 5 && row[LookupOrder[k]].None?)
  }

  /**
   * The six fields of a row. Each column is looked up when the renderer
   * first needs it: the type, the first and last names, the job title, the
   * organisation and finally the email. An absent column raises a key error
   * there. A missing value fails at its first use (the length test, the
   * name concatenation, the width measurement) for the first five columns;
   * the email only goes into an f-string, which renders it as `None`.
   */
  function ReadEntry(row: Row): (r: Result<Entry, ReadError>)
    ensures r.Success? <==>
      Readable(row, TypeHeader) && Readable(row, FirstNameHeader) && Readable(row, LastNameHeader) &&
      Readable(row, RoleHeader) && Readable(row, CompanyHeader) && EmailHeader in row
    ensures r.Success? ==>
      r.value == Entry(row[TypeHeader].value, Rendered(row[EmailHeader]), row[LastNameHeader].value,
                       row[FirstNameHeader].value, row[RoleHeader].value, row[CompanyHeader].value)
    ensures r.Failure? ==> exists k :: 0 <= k < |LookupOrder| && FailsAt(row, k, r.error)
  {
    if !Readable(row, TypeHeader) then
      var e := if TypeHeader !in row then MissingColumn(TypeHeader) else MissingValue(TypeHeader);
      assert FailsAt(row, 0, e);
      Failure(e)
    else if !Readable(row, FirstNameHeader) then
      var e := if FirstNameHeader !in row then MissingColumn(FirstNameHeader) else MissingValue(FirstNameHeader);
      assert FailsAt(row, 1, e);
      Failure(e)
    else if !Readable(row, LastNameHeader) then
      var e := if LastNameHeader !in row then MissingColumn(LastNameHeader) else MissingValue(LastNameHeader);
      assert FailsAt(row, 2, e);
      Failure(e)
    else if !Readable(row, RoleHeader) then
      var e := if RoleHeader !in row then MissingColumn(RoleHeader) else MissingValue(RoleHeader);
      assert FailsAt(row, 3, e);
      Failure(e)
    else if !Readable(row, CompanyHeader) then
      var e := if CompanyHeader !in row then MissingColumn(CompanyHeader) else MissingValue(CompanyHeader);
      assert FailsAt(row, 4, e);
      Failure(e)
    else if EmailHeader !in row then
      assert FailsAt(row, 5, MissingColumn(EmailHeader));
      Failure(MissingColumn(EmailHeader))
    else Success(Entry(row[TypeHeader].value, Rendered(row[EmailHeader]), row[LastNameHeader].value,
                       row[FirstNameHeader].value, row[RoleHeader].value, row[CompanyHeader].value))
  }

  /** Conversely, the first lookup that fails is the error reported. */
  lemma ReadEntryReportsFirstFailure(row: Row, k: int, e: ReadError)
    requires 0 <= k < |LookupOrder| && FailsAt(row, k, e)
    ensures ReadEntry(row) == Failure(e)
  {
  }

  /**
   * Reading every entry in turn, as the badge loop does: the first row that
   * cannot be read stops the run with its error; otherwise every row is read.
   */
  function ReadAll(rows: seq<Row>): (r: Result<seq<Entry>, ReadError>)
    ensures r.Success? <==> forall k :: 0 <= k < |rows| ==> ReadEntry(rows[k]).Success?
    ensures r.Success? ==>
      |r.value| == |rows| && forall k :: 0 <= k < |rows| ==> ReadEntry(rows[k]) == Success(r.value[k])
    ensures r.Failure? ==> exists k :: 0 <= k < |rows| && ReadEntry(rows[k]) == Failure(r.error) &&
                                       (forall j :: 0 <= j < k ==> ReadEntry(rows[j]).Success?)
    decreases |rows|
  {
    if |rows| == 0 then Success([])
    else
      match ReadEntry(rows[0])
      case Failure(e) =>
        assert ReadEntry(rows[0]) == Failure(e);
        Failure(e)
      case Success(x) =>
        match ReadAll(rows[1..])
        case Failure(e) =>
          var k :| 0 <= k < |rows[1..]| && ReadEntry(rows[1..][k]) == Failure(e) &&
                   forall j :: 0 <= j < k ==> ReadEntry(rows[1..][j]).Success?;
          assert ReadEntry(rows[k + 1]) == Failure(e);
          assert forall j :: 0 <= j < k + 1 ==> ReadEntry(rows[j]).Success? by {
            forall j | 0 <= j < k + 1
              ensures ReadEntry(rows[j]).Success?
            {
              if j > 0 { assert rows[j] == rows[1..][j - 1]; }
            }
          }
          Failure(e)
        case Success(xs) =>
          assert forall k :: 0 < k < |rows| ==> rows[k] == rows[1..][k - 1];
          Success([x] + xs)
  }
}
