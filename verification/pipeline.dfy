/** The merged table is a valid input to the export step: its column names
    are distinct, its duration cells are numbers or nulls, and the export
    leaves its identity column unstyled. */
module Pipeline {
  import opened Results
  import opened Tables
  import opened Merger
  import opened MergeLaws
  import opened Export

  lemma AgentDurations(tables: seq<Table>, t: Table)
    requires NamesAreText(tables)
    requires Merge(tables) == Ok(t) && |t.columns| > 1
    ensures forall i, c | 0 <= i < |t.rows| - 1 && c in t.columns && c in TimeColumns :: Get(t.rows[i], c).Num?
  {
    forall i | 0 <= i < |t.rows| - 1
      ensures forall c | c in t.columns && c in TimeColumns :: Get(t.rows[i], c).Num?
    {
      MergeAgentRow(tables, t, i);
    }
  }

  lemma AverageDurations(tables: seq<Table>, t: Table)
    requires NamesAreText(tables)
    requires Merge(tables) == Ok(t) && |t.columns| > 1
    ensures forall c | c in t.columns && c in TimeColumns ::
              Get(t.rows[|t.rows| - 1], c).Null? || Get(t.rows[|t.rows| - 1], c).Num?
  {
    MergeAverage(tables, t);
  }

  lemma DegenerateDurations(tables: seq<Table>, t: Table)
    requires NamesAreText(tables)
    requires Merge(tables) == Ok(t) && |t.columns| <= 1
    ensures forall c | c in t.columns :: c !in TimeColumns
  {
    MergeDegenerate(tables, t);
    TimeColumnsDistinct();
  }

  /** The agent rows' and the Average row's duration cells together are
      all of a table's duration cells. */
  lemma DurationsJoin(t: Table)
    requires |t.columns| <= 1 ==> forall c | c in t.columns :: c !in TimeColumns
    requires |t.columns| > 1 ==>
               |t.rows| > 0
               && (forall i, c | 0 <= i < |t.rows| - 1 && c in t.columns && c in TimeColumns :: Get(t.rows[i], c).Num?)
               && (forall c | c in t.columns && c in TimeColumns ::
                     Get(t.rows[|t.rows| - 1], c).Null? || Get(t.rows[|t.rows| - 1], c).Num?)
    ensures DurationCells(t)
  {
  }

  /** Every duration cell of a merged table is a number or a null. */
  lemma MergedDurations(tables: seq<Table>, t: Table)
    requires NamesAreText(tables)
    requires Merge(tables) == Ok(t)
    ensures DurationCells(t)
  {
    if |t.columns| <= 1 {
      DegenerateDurations(tables, t);
    } else {
      AgentDurations(tables, t);
      AverageDurations(tables, t);
    }
    DurationsJoin(t);
  }

  /** Exporting a merged table: the preview and workbook copies are defined,
      and no directive touches the identity column (column 1). */
  lemma MergedExport(tables: seq<Table>, t: Table)
    requires NamesAreText(tables)
    requires Merge(tables) == Ok(t)
    ensures DurationCells(t) && Distinct(t.columns)
    ensures forall d | d in Directives(t.columns, |t.rows|) :: d.column != 1
  {
    MergedDurations(tables, t);
    NoIdentityStyle(t.columns, |t.rows|);
  }

  lemma NoIdentityStyle(columns: seq<string>, n: nat)
    requires Distinct(columns) && |columns| > 0 && columns[0] == Identity
    ensures forall d | d in Directives(columns, n) :: d.column != 1
  {
    var ds := Directives(columns, n);
    TimeColumnsDistinct();
    forall d | d in ds ensures d.column != 1 {
      match d.style
      case AlignRight =>
        assert Directive(d.column, d.row, AlignRight) in ds;
      case NumberFormat(code) =>
        assert Directive(d.column, d.row, NumberFormat(code)) in ds;
    }
  }
}
