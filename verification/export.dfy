/** The export step: the display copy (durations rendered as text), the
    sheet copy (durations as fractions of a day) and the per-cell style
    directives the spreadsheet writer is driven by. Columns and rows are
    numbered from 1 as in the sheet; row 1 is the header, so the data rows of
    a table with n rows are 2..n+1. */
module Export {
  import opened Tables
  import opened Codec

  datatype Style = NumberFormat(code: string) | AlignRight

  /** One style assignment to the cell at (column, row). */
  datatype Directive = Directive(column: nat, row: nat, style: Style)

  /** Elapsed-time format: hours not wrapped at 24. */
  const DurationFormat: string := "[h]:mm:ss"

  const SecondsPerDay: real := 86400.0

  /** Number format and right alignment for each data row 2..n+1 of column
      `col`, row by row. */
  function FormatRun(col: nat, n: nat): (r: seq<Directive>)
    ensures forall d :: d in r <==>
              d.column == col && 2 <= d.row <= n + 1 && (d.style == NumberFormat(DurationFormat) || d.style == AlignRight)
  {
    if n == 0 then []
    else
      var before := FormatRun(col, n - 1);
      before + [Directive(col, n + 1, NumberFormat(DurationFormat)), Directive(col, n + 1, AlignRight)]
  }

  /** Right alignment for rows 1..last of column `col`. */
  function AlignRun(col: nat, last: nat): (r: seq<Directive>)
    ensures forall d :: d in r <==> d.column == col && 1 <= d.row <= last && d.style == AlignRight
  {
    if last == 0 then [] else AlignRun(col, last - 1) + [Directive(col, last, AlignRight)]
  }

  /** The first loop: for each present duration column, its data cells get
      the duration format and right alignment, then its header cell gets
      right alignment. */
  function TimeDirectives(columns: seq<string>, timeCols: seq<string>, n: nat): seq<Directive>
    requires forall c | c in timeCols :: c in columns
    decreases |timeCols|
  {
    if |timeCols| == 0 then []
    else
      var front := timeCols[..|timeCols| - 1];
      var c := timeCols[|timeCols| - 1];
      var col := IndexOf(columns, c) + 1;
      assert forall x | x in front :: x in timeCols;
      TimeDirectives(columns, front, n) + FormatRun(col, n) + [Directive(col, 1, AlignRight)]
  }

  /** What the first loop does to one cell of a duration column. */
  predicate DurationStyle(d: Directive, n: nat) {
    (2 <= d.row <= n + 1 && (d.style == NumberFormat(DurationFormat) || d.style == AlignRight))
    || (d.row == 1 && d.style == AlignRight)
  }

  /** Under distinct names, a column's position is where IndexOf finds it. */
  lemma PositionOf(columns: seq<string>, col: nat)
    requires Distinct(columns) && 1 <= col <= |columns|
    ensures IndexOf(columns, columns[col - 1]) + 1 == col
  {
  }

  /** One iteration of the first loop: the last listed column adds its
      own cells to what the earlier ones styled. */
  lemma TimeDirectivesStep(columns: seq<string>, timeCols: seq<string>, n: nat, d: Directive)
    requires |timeCols| > 0
    requires forall c | c in timeCols :: c in columns
    ensures forall x | x in timeCols[..|timeCols| - 1] :: x in columns
    ensures d in TimeDirectives(columns, timeCols, n) <==>
              d in TimeDirectives(columns, timeCols[..|timeCols| - 1], n)
              || (d.column == IndexOf(columns, timeCols[|timeCols| - 1]) + 1 && DurationStyle(d, n))
  {
    assert forall x | x in timeCols[..|timeCols| - 1] :: x in timeCols;
  }

  /** The first loop styles exactly the cells of the listed duration
      columns: their data cells with format and alignment, their header
      with alignment. */
  lemma {:induction false} TimeDirectivesSpec(columns: seq<string>, timeCols: seq<string>, n: nat, d: Directive)
    requires Distinct(columns)
    requires forall c | c in timeCols :: c in columns
    ensures d in TimeDirectives(columns, timeCols, n) <==>
              1 <= d.column <= |columns| && columns[d.column - 1] in timeCols && DurationStyle(d, n)
    decreases |timeCols|
  {
    if |timeCols| > 0 {
      var front := timeCols[..|timeCols| - 1];
      var c := timeCols[|timeCols| - 1];
      TimeDirectivesStep(columns, timeCols, n, d);
      TimeDirectivesSpec(columns, front, n, d);
      assert forall x :: x in timeCols <==> x in front || x == c;
      if 1 <= d.column <= |columns| && columns[d.column - 1] == c {
        PositionOf(columns, d.column);
      }
    }
  }

  /** The second loop over columns 1..k: every column that is neither the
      identity nor a duration is right-aligned on rows 1..n+1. */
  function OtherDirectives(columns: seq<string>, timeCols: seq<string>, k: nat, n: nat): (r: seq<Directive>)
    requires k <= |columns|
    ensures forall d :: d in r <==>
              1 <= d.column <= k && columns[d.column - 1] != Identity && columns[d.column - 1] !in timeCols
              && 1 <= d.row <= n + 1 && d.style == AlignRight
  {
    if k == 0 then []
    else
      var name := columns[k - 1];
      var added := if name != Identity && name !in timeCols then AlignRun(k, n + 1) else [];
      assert forall d :: d in added <==>
               d.column == k && name != Identity && name !in timeCols && 1 <= d.row <= n + 1 && d.style == AlignRight;
      OtherDirectives(columns, timeCols, k - 1, n) + added
  }

  /** Both loops, in the order they run. */
  function Applied(columns: seq<string>, n: nat): seq<Directive> {
    var timeCols := Within(TimeColumns, columns);
    TimeDirectives(columns, timeCols, n) + OtherDirectives(columns, timeCols, |columns|, n)
  }

  lemma FormatAt(columns: seq<string>, n: nat, col: nat, row: nat, code: string)
    requires Distinct(columns)
    ensures Directive(col, row, NumberFormat(code)) in Applied(columns, n) <==>
              code == DurationFormat && 1 <= col <= |columns| && columns[col - 1] in TimeColumns && 2 <= row <= n + 1
  {
    var timeCols := Within(TimeColumns, columns);
    var d := Directive(col, row, NumberFormat(code));
    assert d !in OtherDirectives(columns, timeCols, |columns|, n);
    TimeDirectivesSpec(columns, timeCols, n, d);
    if 1 <= col <= |columns| {
      assert columns[col - 1] in timeCols <==> columns[col - 1] in TimeColumns;
    }
  }

  /** The first loop right-aligns rows 1..n+1 of exactly the listed
      duration columns. */
  lemma TimeAlign(columns: seq<string>, timeCols: seq<string>, n: nat, col: nat, row: nat)
    requires Distinct(columns)
    requires forall c | c in timeCols :: c in columns
    ensures Directive(col, row, AlignRight) in TimeDirectives(columns, timeCols, n) <==>
              1 <= col <= |columns| && columns[col - 1] in timeCols && 1 <= row <= n + 1
  {
    TimeDirectivesSpec(columns, timeCols, n, Directive(col, row, AlignRight));
  }

  /** Both loops together right-align every cell of every column but the
      identity. */
  lemma AlignWith(columns: seq<string>, timeCols: seq<string>, n: nat, col: nat, row: nat)
    requires Distinct(columns)
    requires forall c | c in timeCols :: c in columns
    requires Identity !in timeCols
    ensures Directive(col, row, AlignRight) in TimeDirectives(columns, timeCols, n) + OtherDirectives(columns, timeCols, |columns|, n) <==>
              1 <= col <= |columns| && columns[col - 1] != Identity && 1 <= row <= n + 1
  {
    TimeAlign(columns, timeCols, n, col, row);
  }

  lemma AlignAt(columns: seq<string>, n: nat, col: nat, row: nat)
    requires Distinct(columns)
    ensures Directive(col, row, AlignRight) in Applied(columns, n) <==>
              1 <= col <= |columns| && columns[col - 1] != Identity && 1 <= row <= n + 1
  {
    IdentityApart();
    AlignWith(columns, Within(TimeColumns, columns), n, col, row);
  }

  /** Every style directive of the export, in the order they are applied.
      A column's position must identify it, so the column names are
      distinct. */
  function Directives(columns: seq<string>, n: nat): (r: seq<Directive>)
    requires Distinct(columns)
    ensures forall col: nat, row: nat, code ::
              Directive(col, row, NumberFormat(code)) in r <==>
                code == DurationFormat && 1 <= col <= |columns| && columns[col - 1] in TimeColumns && 2 <= row <= n + 1
    ensures forall col: nat, row: nat ::
              Directive(col, row, AlignRight) in r <==>
                1 <= col <= |columns| && columns[col - 1] != Identity && 1 <= row <= n + 1
  {
    var r := Applied(columns, n);
    forall col: nat, row: nat, code
      ensures Directive(col, row, NumberFormat(code)) in r <==>
                code == DurationFormat && 1 <= col <= |columns| && columns[col - 1] in TimeColumns && 2 <= row <= n + 1
    {
      FormatAt(columns, n, col, row, code);
    }
    forall col: nat, row: nat
      ensures Directive(col, row, AlignRight) in r <==>
                1 <= col <= |columns| && columns[col - 1] != Identity && 1 <= row <= n + 1
    {
      AlignAt(columns, n, col, row);
    }
    r
  }

  /** A duration column's cells after aggregation: numbers, or null for the
      mean over no agents. */
  predicate DurationCells(t: Table) {
    forall i, c | 0 <= i < |t.rows| && c in t.columns && IsDuration(t.columns, c) ::
      Get(t.rows[i], c).Null? || Get(t.rows[i], c).Num?
  }

  predicate IsDuration(columns: seq<string>, c: string) {
    c in columns && c in TimeColumns
  }

  function DisplayRow(r: Row, columns: seq<string>): (d: Row)
    requires forall c | IsDuration(columns, c) :: Get(r, c).Null? || Get(r, c).Num?
    ensures forall c | IsDuration(columns, c) ::
              Get(d, c).Text?
              && (Get(r, c).Null? ==> Get(d, c).s == "0:00:00")
              && (Get(r, c).Num? ==>
                    Get(d, c).s == SecondsToTime(Truncate(Get(r, c).x))
                    && ClockToSeconds(Get(d, c).s) == Truncate(Get(r, c).x))
    ensures forall c | !IsDuration(columns, c) :: Get(d, c) == Get(r, c)
  {
    map c | c in r.Keys + (set c | c in columns && c in TimeColumns) ::
      if IsDuration(columns, c) then Text(FormatCell(Get(r, c))) else r[c]
  }

  /** The preview copy: each duration cell rendered by seconds_to_time. */
  function DisplayCopy(t: Table): (r: Table)
    requires DurationCells(t)
    ensures r.columns == t.columns && |r.rows| == |t.rows|
    ensures forall i, c | 0 <= i < |t.rows| && IsDuration(t.columns, c) ::
              Get(r.rows[i], c).Text?
              && (Get(t.rows[i], c).Null? ==> Get(r.rows[i], c).s == "0:00:00")
              && (Get(t.rows[i], c).Num? ==>
                    Get(r.rows[i], c).s == SecondsToTime(Truncate(Get(t.rows[i], c).x))
                    && ClockToSeconds(Get(r.rows[i], c).s) == Truncate(Get(t.rows[i], c).x))
    ensures forall i, c | 0 <= i < |t.rows| && !IsDuration(t.columns, c) :: Get(r.rows[i], c) == Get(t.rows[i], c)
  {
    Table(t.columns, seq(|t.rows|, i requires 0 <= i < |t.rows| => DisplayRow(t.rows[i], t.columns)))
  }

  function SheetRow(r: Row, columns: seq<string>): (d: Row)
    ensures forall c | IsDuration(columns, c) ::
              (Get(r, c).Num? ==> Get(d, c).Num? && Get(d, c).x * SecondsPerDay == Get(r, c).x)
              && (!Get(r, c).Num? ==> Get(d, c) == Get(r, c))
    ensures forall c | !IsDuration(columns, c) :: Get(d, c) == Get(r, c)
  {
    map c | c in r ::
      if IsDuration(columns, c) && r[c].Num? then Num(r[c].x / SecondsPerDay) else r[c]
  }

  /** The workbook copy: each duration, in seconds, divided by the seconds
      of a day, so that the duration format shows it as elapsed time; a
      null stays null. */
  function SheetCopy(t: Table): (r: Table)
    ensures r.columns == t.columns && |r.rows| == |t.rows|
    ensures forall i, c | 0 <= i < |t.rows| && IsDuration(t.columns, c) ::
              (Get(t.rows[i], c).Num? ==>
                 Get(r.rows[i], c).Num? && Get(r.rows[i], c).x * SecondsPerDay == Get(t.rows[i], c).x)
              && (!Get(t.rows[i], c).Num? ==> Get(r.rows[i], c) == Get(t.rows[i], c))
    ensures forall i, c | 0 <= i < |t.rows| && !IsDuration(t.columns, c) :: Get(r.rows[i], c) == Get(t.rows[i], c)
  {
    Table(t.columns, seq(|t.rows|, i requires 0 <= i < |t.rows| => SheetRow(t.rows[i], t.columns)))
  }
}
