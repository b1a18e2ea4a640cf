/** merge_excel_files after the uploads are read: concatenate the tables,
    drop the administrative columns, insist on the identity column, keep the
    rows that name an agent, read the duration columns as seconds, group per
    agent and append the "Average" row. */
module Merger {
  import opened Results
  import opened Strings
  import opened Tables
  import opened Codec
  import opened Grouping

  /** The two failures the merger reports itself. */
  datatype MergeError = NoFiles | MissingIdentity

  /** The message shown for each failure. */
  function Message(e: MergeError): (m: string)
    ensures m == "No valid Excel files uploaded." <==> e == NoFiles
    ensures m == "Collector Name column not found in the data." <==> e == MissingIdentity
  {
    match e
    case NoFiles => "No valid Excel files uploaded."
    case MissingIdentity => "Collector Name column not found in the data."
  }

  /** One row of one input table, together with that table's header. */
  datatype Entry = Entry(header: seq<string>, row: Row)

  /** A cell as the concatenated frame sees it: a column the row's own table
      lacks reads as Null. */
  function CellOf(e: Entry, c: string): Cell {
    if c in e.header then Get(e.row, c) else Null
  }

  /** Every row of every table, table by table, in order. */
  function Entries(tables: seq<Table>): (es: seq<Entry>)
    decreases |tables|
  {
    if |tables| == 0 then []
    else
      var t := tables[|tables| - 1];
      Entries(tables[..|tables| - 1]) + seq(|t.rows|, i requires 0 <= i < |t.rows| => Entry(t.columns, t.rows[i]))
  }

  /** Appends to `acc` each column of `cols` it does not hold yet, in order. */
  function AppendNew(acc: seq<string>, cols: seq<string>): (r: seq<string>)
    ensures |acc| <= |r| && r[..|acc|] == acc
    ensures forall c :: c in r <==> c in acc || c in cols
    ensures Distinct(acc) ==> Distinct(r)
    decreases |cols|
  {
    if |cols| == 0 then acc
    else
      var a := AppendNew(acc, cols[..|cols| - 1]);
      var c := cols[|cols| - 1];
      assert forall x :: x in cols <==> x in cols[..|cols| - 1] || x == c;
      if c in a then a else a + [c]
  }

  /** Every table's header, one table after another. */
  function Headers(tables: seq<Table>): (h: seq<string>)
    ensures forall c :: c in h <==> exists i | 0 <= i < |tables| :: c in tables[i].columns
    decreases |tables|
  {
    if |tables| == 0 then []
    else
      var prefix := tables[..|tables| - 1];
      assert forall i | 0 <= i < |prefix| :: prefix[i] == tables[i];
      Headers(prefix) + tables[|tables| - 1].columns
  }

  /** Appending the new columns of `cols` keeps first-appearance order: the
      result lists the elements of `h + cols` in the order they first occur. */
  lemma {:induction false} AppendNewFollows(acc: seq<string>, h: seq<string>, cols: seq<string>)
    requires Distinct(acc) && Follows(acc, h)
    requires forall x :: x in acc <==> x in h
    ensures Follows(AppendNew(acc, cols), h + cols)
    decreases |cols|
  {
    if |cols| == 0 {
      assert h + cols == h;
    } else {
      var front := cols[..|cols| - 1];
      var c := cols[|cols| - 1];
      AppendNewFollows(acc, h, front);
      var a := AppendNew(acc, front);
      var hf := h + front;
      assert h + cols == hf + [c];
      assert forall x :: x in a <==> x in hf;
      if c in a {
        FollowsExtend(a, hf, c);
      } else {
        FollowsAppend(a, hf, c);
      }
    }
  }

  /** The columns of pd.concat: every header of every table, once, in order of
      first appearance. */
  function UnionColumns(tables: seq<Table>): (r: seq<string>)
    ensures Distinct(r)
    ensures forall c :: c in r <==> exists i | 0 <= i < |tables| :: c in tables[i].columns
    ensures Follows(r, Headers(tables))
    decreases |tables|
  {
    if |tables| == 0 then []
    else
      var prefix := tables[..|tables| - 1];
      var u := UnionColumns(prefix);
      var r := AppendNew(u, tables[|tables| - 1].columns);
      assert forall i | 0 <= i < |prefix| :: prefix[i] == tables[i];
      AppendNewFollows(u, Headers(prefix), tables[|tables| - 1].columns);
      r
  }

  /** A row of the concatenated frame: exactly the union columns. */
  function Widen(cols: seq<string>, e: Entry): (r: Row)
    ensures r.Keys == set c | c in cols
  {
    map c | c in cols :: CellOf(e, c)
  }

  function ConcatRows(cols: seq<string>, es: seq<Entry>): (rows: seq<Row>)
    ensures |rows| == |es|
    ensures forall i | 0 <= i < |es| :: rows[i] == Widen(cols, es[i])
    decreases |es|
  {
    if |es| == 0 then []
    else ConcatRows(cols, es[..|es| - 1]) + [Widen(cols, es[|es| - 1])]
  }

  /** pd.concat(dfs, ignore_index=True): an outer union of the columns and
      every row of every table in order; a column a table lacks is null in
      that table's rows. */
  function Concat(tables: seq<Table>): (t: Table)
    ensures t.columns == UnionColumns(tables)
    ensures |t.rows| == |Entries(tables)|
    ensures forall i | 0 <= i < |t.rows| :: t.rows[i].Keys == set c | c in t.columns
    ensures forall i, c | 0 <= i < |t.rows| && c in t.columns :: t.rows[i][c] == CellOf(Entries(tables)[i], c)
  {
    var cols := UnionColumns(tables);
    Table(cols, ConcatRows(cols, Entries(tables)))
  }

  /** Applies `f` to every row, keeping the order. */
  function MapRows(rows: seq<Row>, f: Row -> Row): (r: seq<Row>)
    ensures |r| == |rows|
    ensures forall i | 0 <= i < |rows| :: r[i] == f(rows[i])
    decreases |rows|
  {
    if |rows| == 0 then []
    else MapRows(rows[..|rows| - 1], f) + [f(rows[|rows| - 1])]
  }

  const AdminSet: set<string> := set c | c in AdminColumns

  function DropRow(r: Row): Row {
    r - AdminSet
  }

  /** Removes the administrative columns that are present; an absent one is
      simply skipped. */
  function DropAdmin(t: Table): (r: Table)
    ensures forall c | c in AdminColumns :: c !in r.columns
    ensures forall c | c !in AdminColumns :: c in r.columns <==> c in t.columns
    ensures Distinct(t.columns) ==> Distinct(r.columns)
    ensures |r.rows| == |t.rows|
    ensures forall i, c | 0 <= i < |t.rows| && c !in AdminColumns :: Get(r.rows[i], c) == Get(t.rows[i], c)
    ensures forall i | 0 <= i < |t.rows| :: r.rows[i].Keys == t.rows[i].Keys - AdminSet
    ensures ((forall c | c in AdminColumns :: c !in t.columns)
              && (forall i | 0 <= i < |t.rows| :: t.rows[i].Keys <= set c | c in t.columns))
              ==> r == t
  {
    var r := Table(Without(t.columns, AdminColumns), MapRows(t.rows, DropRow));
    if (forall c | c in AdminColumns :: c !in t.columns)
       && (forall i | 0 <= i < |t.rows| :: t.rows[i].Keys <= set c | c in t.columns) then
      forall i | 0 <= i < |t.rows| ensures DropRow(t.rows[i]) == t.rows[i] {
        assert forall c | c in AdminSet :: c !in t.rows[i];
      }
      assert r.rows == t.rows;
      r
    else r
  }

  /** The row filter: the identity is present and not blank after stripping. */
  predicate HasName(r: Row) {
    match Get(r, Identity)
    case Null => false
    case Text(s) => Strip(s) != ""
    case _ => true
  }

  function KeepNamed(rows: seq<Row>): (r: seq<Row>)
    ensures forall x | x in r :: x in rows && HasName(x)
    ensures forall i | 0 <= i < |rows| :: HasName(rows[i]) ==> rows[i] in r
    decreases |rows|
  {
    if |rows| == 0 then []
    else
      var prefix := rows[..|rows| - 1];
      var last := rows[|rows| - 1];
      assert forall i | 0 <= i < |prefix| :: prefix[i] == rows[i];
      KeepNamed(prefix) + (if HasName(last) then [last] else [])
  }

  /** Keeps exactly the rows that name an agent, in their order. */
  function FilterNamed(t: Table): (r: Table)
    ensures r.columns == t.columns
    ensures forall x | x in r.rows :: x in t.rows && HasName(x)
    ensures forall i | 0 <= i < |t.rows| :: HasName(t.rows[i]) ==> t.rows[i] in r.rows
  {
    Table(t.columns, KeepNamed(t.rows))
  }

  function NormaliseRow(r: Row, timeCols: seq<string>): (n: Row)
    ensures forall c :: c in n <==> c in r
    ensures forall c | c in r && c in timeCols :: Get(n, c) == Num(TimeToSeconds(r[c]))
    ensures forall c | c !in timeCols :: Get(n, c) == Get(r, c)
  {
    map c | c in r :: if c in timeCols then Num(TimeToSeconds(r[c])) else r[c]
  }

  function NormFn(timeCols: seq<string>): Row -> Row {
    r => NormaliseRow(r, timeCols)
  }

  /** Reads every cell of the given duration columns as seconds; every other
      cell is left alone. */
  function Normalise(t: Table, timeCols: seq<string>): (r: Table)
    ensures r.columns == t.columns && |r.rows| == |t.rows|
    ensures forall i | 0 <= i < |t.rows| :: r.rows[i].Keys == t.rows[i].Keys
    ensures forall i, c | 0 <= i < |t.rows| && c in timeCols && c in t.rows[i] ::
              Get(r.rows[i], c) == Num(TimeToSeconds(t.rows[i][c]))
    ensures forall i, c | 0 <= i < |t.rows| && c !in timeCols :: Get(r.rows[i], c) == Get(t.rows[i], c)
  {
    var rows := MapRows(t.rows, NormFn(timeCols));
    assert forall i | 0 <= i < |t.rows| :: rows[i] == NormaliseRow(t.rows[i], timeCols);
    assert forall i | 0 <= i < |t.rows| :: rows[i].Keys == t.rows[i].Keys;
    Table(t.columns, rows)
  }

  /** The identity column holds only text or nulls in every input: the cell
      kinds the row filter and the sort are defined on. */
  predicate NamesAreText(tables: seq<Table>) {
    forall e | e in Entries(tables) :: CellOf(e, Identity).Null? || CellOf(e, Identity).Text?
  }

  /** The columns after concatenation and the administrative drop. */
  function MergedColumns(tables: seq<Table>): (cols: seq<string>)
    ensures cols == DropAdmin(Concat(tables)).columns
    ensures Distinct(cols)
    ensures forall c :: c in cols <==> c !in AdminColumns && exists i | 0 <= i < |tables| :: c in tables[i].columns
    ensures Follows(cols, Headers(tables))
  {
    TimeColumnsDistinct();
    var u := UnionColumns(tables);
    var cols := Without(u, AdminColumns);
    WithoutOrder(u, AdminColumns);
    FollowsTransitive(cols, u, Headers(tables));
    cols
  }

  /** The duration columns present, in the fixed list's order. */
  function PresentTimeColumns(cols: seq<string>): seq<string> {
    Within(TimeColumns, cols)
  }

  /** The identity alone holds no duration column. */
  lemma IdentityAlone()
    ensures PresentTimeColumns([Identity]) == []
  {
    TimeColumnsDistinct();
  }

  /** Every present column that is neither a duration nor the identity, in
      frame order; these aggregate with "first". */
  function OtherColumns(cols: seq<string>): (r: seq<string>)
    ensures forall c :: c in r <==> c in cols && c !in TimeColumns && c != Identity
    ensures Distinct(cols) ==> Distinct(r) && Follows(r, cols)
  {
    if Distinct(cols) then
      WithoutOrder(cols, PresentTimeColumns(cols) + [Identity]);
      Without(cols, PresentTimeColumns(cols) + [Identity])
    else
      Without(cols, PresentTimeColumns(cols) + [Identity])
  }

  /** The column layout of a merged table: the identity first, then the
      duration columns in the fixed list's order, then every other column in
      its order in `frame`. */
  predicate LaidOut(out: seq<string>, frame: seq<string>) {
    |out| > 0 && out[0] == Identity
    && (forall x | x in out :: x in frame)
    && (forall i, j | 0 < i < j < |out| && out[j] in TimeColumns :: out[i] in TimeColumns)
    && (forall i, j | 0 < i < j < |out| && out[i] in TimeColumns && out[j] in TimeColumns ::
          IndexOf(TimeColumns, out[i]) < IndexOf(TimeColumns, out[j]))
    && (forall i, j | 0 < i < j < |out| && out[i] !in TimeColumns && out[j] !in TimeColumns ::
          IndexOf(frame, out[i]) < IndexOf(frame, out[j]))
  }

  /** A layout relative to a frame holds relative to anything the frame
      follows. */
  lemma LaidOutFollows(out: seq<string>, frame: seq<string>, h: seq<string>)
    requires LaidOut(out, frame) && Follows(frame, h)
    ensures LaidOut(out, h)
  {
    forall i, j | 0 < i < j < |out| && out[i] !in TimeColumns && out[j] !in TimeColumns
      ensures IndexOf(h, out[i]) < IndexOf(h, out[j])
    {
      var p, q := IndexOf(frame, out[i]), IndexOf(frame, out[j]);
      assert frame[p] == out[i] && frame[q] == out[j] && p < q;
    }
  }

  /** The rows handed to groupby: concatenated, dropped, filtered and
      normalised. */
  function PreparedRows(tables: seq<Table>): seq<Row> {
    var merged := DropAdmin(Concat(tables));
    Normalise(FilterNamed(merged), PresentTimeColumns(merged.columns)).rows
  }

  lemma FirstTwoDiffer(s: seq<string>)
    requires Distinct(s) && |s| > 1
    ensures s[0] != s[1]
  {
  }

  lemma SingleColumn(s: seq<string>, a: string)
    requires Distinct(s) && a in s
    requires forall i | 0 <= i < |s| :: s[i] == a
    ensures s == [a]
  {
    if |s| > 1 {
      FirstTwoDiffer(s);
      assert false;
    }
  }

  /** The aggregated columns are laid out as the output promises. */
  lemma LayoutOrder(cols: seq<string>)
    requires Distinct(cols) && Identity in cols
    ensures LaidOut(Layout(PresentTimeColumns(cols), OtherColumns(cols)), cols)
  {
    TimeColumnsDistinct();
    WithinOrder(TimeColumns, cols);
    LaidOutParts(PresentTimeColumns(cols), OtherColumns(cols), cols);
  }

  /** Positions 1..|tc| of the layout hold `tc`, the rest hold `ot`. */
  lemma LayoutIndex(tc: seq<string>, ot: seq<string>)
    ensures var out := [Identity] + tc + ot;
            (forall k | 1 <= k <= |tc| :: out[k] == tc[k - 1])
            && (forall k | |tc| < k < |out| :: out[k] == ot[k - 1 - |tc|])
  {
  }

  lemma LaidOutParts(tc: seq<string>, ot: seq<string>, frame: seq<string>)
    requires Identity in frame && Identity !in TimeColumns
    requires Follows(tc, TimeColumns) && forall x | x in tc :: x in frame
    requires Follows(ot, frame) && forall x | x in ot :: x !in TimeColumns
    ensures LaidOut([Identity] + tc + ot, frame)
  {
    var out := [Identity] + tc + ot;
    LayoutIndex(tc, ot);
    DurationsFirst(tc, ot);
    OthersInOrder(tc, ot, frame);
    assert forall x | x in out :: x == Identity || x in tc || x in ot;
  }

  lemma DurationsFirst(tc: seq<string>, ot: seq<string>)
    requires Follows(tc, TimeColumns) && forall x | x in ot :: x !in TimeColumns
    ensures var out := [Identity] + tc + ot;
            (forall i, j | 0 < i < j < |out| && out[j] in TimeColumns :: out[i] in TimeColumns)
            && (forall i, j | 0 < i < j < |out| && out[i] in TimeColumns && out[j] in TimeColumns ::
                  IndexOf(TimeColumns, out[i]) < IndexOf(TimeColumns, out[j]))
  {
    var out := [Identity] + tc + ot;
    var n := |tc|;
    LayoutIndex(tc, ot);
    assert forall k | n < k < |out| :: out[k] in ot && out[k] !in TimeColumns;
    forall i, j | 0 < i < j < |out| && out[j] in TimeColumns ensures out[i] in TimeColumns {
      assert out[i] == tc[i - 1] && tc[i - 1] in tc;
    }
    forall i, j | 0 < i < j < |out| && out[i] in TimeColumns && out[j] in TimeColumns
      ensures IndexOf(TimeColumns, out[i]) < IndexOf(TimeColumns, out[j])
    {
      assert out[i] == tc[i - 1] && out[j] == tc[j - 1];
    }
  }

  lemma OthersInOrder(tc: seq<string>, ot: seq<string>, frame: seq<string>)
    requires Follows(tc, TimeColumns) && Follows(ot, frame)
    ensures var out := [Identity] + tc + ot;
            forall i, j | 0 < i < j < |out| && out[i] !in TimeColumns && out[j] !in TimeColumns ::
              out[i] in frame && out[j] in frame && IndexOf(frame, out[i]) < IndexOf(frame, out[j])
  {
    var out := [Identity] + tc + ot;
    var n := |tc|;
    LayoutIndex(tc, ot);
    assert forall k | 1 <= k <= n :: out[k] in tc && out[k] in TimeColumns;
    forall i, j | 0 < i < j < |out| && out[i] !in TimeColumns && out[j] !in TimeColumns
      ensures out[i] in frame && out[j] in frame && IndexOf(frame, out[i]) < IndexOf(frame, out[j])
    {
      assert out[i] == ot[i - 1 - n] && out[j] == ot[j - 1 - n];
      assert out[i] in ot && out[j] in ot;
    }
  }

  lemma LayoutFacts(cols: seq<string>)
    requires Distinct(cols) && Identity in cols
    ensures var l := Layout(PresentTimeColumns(cols), OtherColumns(cols));
            Distinct(l) && (forall c :: c in l <==> c in cols)
  {
    var tc := PresentTimeColumns(cols);
    var ot := OtherColumns(cols);
    TimeColumnsDistinct();
    assert Identity !in tc;
    DistinctAppend([Identity], tc);
    DistinctAppend([Identity] + tc, ot);
  }

  /** With no duration column and no other column, the identity is all
      that is left. */
  lemma DegenerateColumns(cols: seq<string>)
    requires Distinct(cols) && Identity in cols
    requires |PresentTimeColumns(cols)| + |OtherColumns(cols)| == 0
    ensures cols == [Identity]
  {
    assert forall i | 0 <= i < |cols| :: cols[i] in cols;
    SingleColumn(cols, Identity);
  }

  /** groupby(...).agg(...).reset_index() with the Average row appended. */
  function Grouped(rows: seq<Row>, timeCols: seq<string>, others: seq<string>): Table {
    var agents := Aggregate(rows, timeCols, others);
    Table(agents.columns, agents.rows + [AverageRow(agents.rows, timeCols, others)])
  }

  /** The grouped table holds one row per key, then the Average row. */
  lemma GroupedLast(rows: seq<Row>, timeCols: seq<string>, others: seq<string>)
    ensures var t := Grouped(rows, timeCols, others);
            |t.rows| == |Keys(rows)| + 1 && Get(t.rows[|t.rows| - 1], Identity) == Text(AverageLabel)
  {
    var agents := Aggregate(rows, timeCols, others);
    var average := AverageRow(agents.rows, timeCols, others);
    assert Identity in average;
    var out := agents.rows + [average];
    assert out[|out| - 1] == average;
  }

  /** The grouped table with the Average row appended, or, when no column
      besides the identity is left to aggregate, the rows as they are. */
  function Assemble(cols: seq<string>, rows: seq<Row>): (t: Table)
    requires Distinct(cols) && Identity in cols
    ensures |t.columns| > 0 && t.columns[0] == Identity
    ensures Distinct(t.columns)
    ensures forall c :: c in t.columns <==> c in cols
    ensures LaidOut(t.columns, cols)
    ensures |t.columns| > 1 ==> |t.rows| > 0 && Get(t.rows[|t.rows| - 1], Identity) == Text(AverageLabel)
    ensures |t.columns| <= 1 ==> t == Table(cols, rows)
  {
    var timeCols := PresentTimeColumns(cols);
    var others := OtherColumns(cols);
    LayoutFacts(cols);
    LayoutOrder(cols);
    if |timeCols| + |others| == 0 then
      DegenerateColumns(cols);
      Table(cols, rows)
    else
      GroupedLast(rows, timeCols, others);
      Grouped(rows, timeCols, others)
  }

  /** An assembly with at most one column holds the identity alone and the
      rows as given. */
  lemma AssembleDegenerate(cols: seq<string>, rows: seq<Row>)
    requires Distinct(cols) && Identity in cols
    requires |Assemble(cols, rows).columns| <= 1
    ensures cols == [Identity] && Assemble(cols, rows) == Table([Identity], rows)
  {
    assert cols == [cols[0]];
  }

  /** merge_excel_files: the merged table, or the reason there is none. */
  function Merge(tables: seq<Table>): (res: Result<Table, MergeError>)
    requires NamesAreText(tables)
    ensures |tables| == 0 ==> res == Err(NoFiles)
    ensures |tables| > 0 ==>
              (res.Err? <==> forall i | 0 <= i < |tables| :: Identity !in tables[i].columns)
    ensures res.Err? ==> res == Err(NoFiles) || res == Err(MissingIdentity)
    ensures |tables| > 0 && res.Err? ==> res == Err(MissingIdentity)
    ensures res.Ok? ==> |res.value.columns| > 0 && res.value.columns[0] == Identity
    ensures res.Ok? ==> Distinct(res.value.columns)
    ensures res.Ok? && |res.value.columns| > 1 ==>
              |res.value.rows| > 0 && Get(res.value.rows[|res.value.rows| - 1], Identity) == Text(AverageLabel)
    ensures res.Ok? ==> forall c ::
              c in res.value.columns <==> c !in AdminColumns && exists i | 0 <= i < |tables| :: c in tables[i].columns
  {
    if |tables| == 0 then Err(NoFiles)
    else
      var cols := MergedColumns(tables);
      if Identity !in cols then
        TimeColumnsDistinct();
        Err(MissingIdentity)
      else
        Ok(Assemble(cols, PreparedRows(tables)))
  }
}
