/** What the merged table says about the uploaded rows it came from: the
    agent rows, their order, their sums and first values, the Average row,
    and the ungrouped degenerate case. */
module MergeLaws {
  import opened Results
  import opened Strings
  import opened Tables
  import opened Ordering
  import opened Codec
  import opened Grouping
  import opened Merger

  /** The identity text of an input row, or "" when it has none. */
  function RawName(e: Entry): string {
    if CellOf(e, Identity).Text? then CellOf(e, Identity).s else ""
  }

  /** An input row that names an agent: a text identity that is not blank. */
  predicate IsAgent(e: Entry) {
    CellOf(e, Identity).Text? && Strip(CellOf(e, Identity).s) != ""
  }

  /** The input rows whose identity is exactly `k`, untrimmed, in order. */
  function RawGroup(es: seq<Entry>, k: string): (g: seq<Entry>)
    ensures forall e | e in g :: e in es && RawName(e) == k
    ensures forall i | 0 <= i < |es| && RawName(es[i]) == k :: es[i] in g
    decreases |es|
  {
    if |es| == 0 then []
    else
      var prefix := es[..|es| - 1];
      assert forall i | 0 <= i < |prefix| :: prefix[i] == es[i];
      RawGroup(prefix, k) + (if RawName(es[|es| - 1]) == k then [es[|es| - 1]] else [])
  }

  /** The input rows that name an agent, in order. */
  function AgentEntries(es: seq<Entry>): (r: seq<Entry>)
    ensures forall e | e in r :: e in es && IsAgent(e)
    decreases |es|
  {
    if |es| == 0 then []
    else
      var prefix := es[..|es| - 1];
      AgentEntries(prefix) + (if IsAgent(es[|es| - 1]) then [es[|es| - 1]] else [])
  }

  /** The distinct agent names of the input. */
  function AgentNames(tables: seq<Table>): set<string> {
    set e | e in Entries(tables) && IsAgent(e) :: RawName(e)
  }

  /** Column `c` read as seconds and summed over the rows; a column the
      row's own file lacks counts as 0. */
  function RawTotal(g: seq<Entry>, c: string): real
    decreases |g|
  {
    if |g| == 0 then 0.0 else TimeToSeconds(CellOf(g[0], c)) + RawTotal(g[1..], c)
  }

  /** The first non-null value of column `c` among the rows, or Null. */
  function RawFirst(g: seq<Entry>, c: string): Cell
    decreases |g|
  {
    if |g| == 0 then Null
    else if !CellOf(g[0], c).Null? then CellOf(g[0], c)
    else RawFirst(g[1..], c)
  }

  /** RawFirst is Null exactly when every cell is, and otherwise the cell of
      the earliest row that has one. */
  lemma {:induction false} RawFirstSpec(g: seq<Entry>, c: string)
    ensures RawFirst(g, c).Null? <==> forall i | 0 <= i < |g| :: CellOf(g[i], c).Null?
    ensures !RawFirst(g, c).Null? ==> exists i | 0 <= i < |g| ::
              RawFirst(g, c) == CellOf(g[i], c) && forall j | 0 <= j < i :: CellOf(g[j], c).Null?
    decreases |g|
  {
    if |g| > 0 && CellOf(g[0], c).Null? {
      var t := g[1..];
      RawFirstSpec(t, c);
      assert forall i | 1 <= i < |g| :: t[i - 1] == g[i];
      var r := RawFirst(t, c);
      if !r.Null? {
        var i :| 0 <= i < |t| && r == CellOf(t[i], c) && forall j | 0 <= j < i :: CellOf(t[j], c).Null?;
        assert r == CellOf(g[i + 1], c) && forall j | 0 <= j < i + 1 :: CellOf(g[j], c).Null?;
      }
    }
  }

  lemma {:induction false} RawTotalSnoc(g: seq<Entry>, e: Entry, c: string)
    ensures RawTotal(g + [e], c) == RawTotal(g, c) + TimeToSeconds(CellOf(e, c))
    decreases |g|
  {
    if |g| > 0 {
      assert (g + [e])[1..] == g[1..] + [e];
      RawTotalSnoc(g[1..], e, c);
    }
  }

  /** A non-empty sequence is its front followed by its last element. */
  lemma LastSplit<T>(s: seq<T>)
    requires |s| > 0
    ensures s == s[..|s| - 1] + [s[|s| - 1]]
  {
  }

  /** Sums agree when the cells do, row for row. */
  lemma {:induction false} TotalsAgree(rows: seq<Row>, g: seq<Entry>, c: string)
    requires |rows| == |g|
    requires forall i | 0 <= i < |g| :: NumOf(Get(rows[i], c)) == TimeToSeconds(CellOf(g[i], c))
    ensures ColumnTotal(rows, c) == RawTotal(g, c)
    decreases |g|
  {
    if |g| > 0 {
      var n := |g| - 1;
      TotalsAgree(rows[..n], g[..n], c);
      RawTotalSnoc(g[..n], g[n], c);
      LastSplit(g);
    }
  }

  /** RawFirst is the cell of any row that is the first with a non-null
      cell. */
  lemma {:induction false} RawFirstAt(g: seq<Entry>, c: string, k: nat)
    requires k < |g| && !CellOf(g[k], c).Null?
    requires forall j | 0 <= j < k :: CellOf(g[j], c).Null?
    ensures RawFirst(g, c) == CellOf(g[k], c)
    decreases k
  {
    if k > 0 {
      assert CellOf(g[0], c).Null?;
      assert forall j | 0 <= j < k - 1 :: g[1..][j] == g[j + 1];
      RawFirstAt(g[1..], c, k - 1);
    }
  }

  /** First values agree when the cells do, row for row. */
  lemma FirstsAgree(rows: seq<Row>, g: seq<Entry>, c: string)
    requires |rows| == |g|
    requires forall i | 0 <= i < |g| :: Get(rows[i], c) == CellOf(g[i], c)
    ensures FirstNonNull(rows, c) == RawFirst(g, c)
  {
    var a := FirstNonNull(rows, c);
    if a.Null? {
      RawFirstSpec(g, c);
    } else {
      var i :| 0 <= i < |rows| && a == Get(rows[i], c) && forall j | 0 <= j < i :: Get(rows[j], c).Null?;
      RawFirstAt(g, c, i);
    }
  }

  lemma GroupSnoc(rows: seq<Row>, r: Row, k: string)
    ensures GroupOf(rows + [r], k) == GroupOf(rows, k) + (if NameOf(r) == k then [r] else [])
  {
    assert (rows + [r])[..|rows|] == rows;
    GroupAppend(rows + [r], k);
  }

  lemma MapSnoc(rows: seq<Row>, r: Row, f: Row -> Row)
    ensures MapRows(rows + [r], f) == MapRows(rows, f) + [f(r)]
  {
  }

  /** Grouping commutes with a row-wise map that keeps the identity. */
  lemma {:induction false} GroupMap(rows: seq<Row>, f: Row -> Row, k: string)
    requires forall i | 0 <= i < |rows| :: NameOf(f(rows[i])) == NameOf(rows[i])
    ensures GroupOf(MapRows(rows, f), k) == MapRows(GroupOf(rows, k), f)
    decreases |rows|
  {
    if |rows| > 0 {
      var n := |rows| - 1;
      var front := rows[..n];
      var last := rows[n];
      assert rows == front + [last];
      GroupMap(front, f, k);
      MapSnoc(front, last, f);
      GroupSnoc(MapRows(front, f), f(last), k);
      GroupSnoc(front, last, k);
      if NameOf(last) == k {
        MapSnoc(GroupOf(front, k), last, f);
      }
    }
  }

  /** The row filter removes no row of a non-blank agent. */
  lemma {:induction false} GroupKeep(rows: seq<Row>, k: string)
    requires Strip(k) != ""
    ensures GroupOf(KeepNamed(rows), k) == GroupOf(rows, k)
    decreases |rows|
  {
    if |rows| > 0 {
      var n := |rows| - 1;
      var front := rows[..n];
      var last := rows[n];
      assert rows == front + [last];
      GroupKeep(front, k);
      KeepSnoc(front, last);
      GroupSnoc(front, last, k);
      if HasName(last) {
        assert KeepNamed(rows) == KeepNamed(front) + [last];
        GroupSnoc(KeepNamed(front), last, k);
      } else {
        assert KeepNamed(rows) == KeepNamed(front);
        assert NameOf(last) != k;
        assert GroupOf(rows, k) == GroupOf(front, k);
      }
    }
  }

  lemma WidenSnoc(cols: seq<string>, es: seq<Entry>, e: Entry)
    ensures ConcatRows(cols, es + [e]) == ConcatRows(cols, es) + [Widen(cols, e)]
  {
  }

  /** Concatenation turns each input row into a row with the same identity. */
  lemma {:induction false} GroupWiden(cols: seq<string>, es: seq<Entry>, k: string)
    requires Identity in cols
    ensures GroupOf(ConcatRows(cols, es), k) == ConcatRows(cols, RawGroup(es, k))
    decreases |es|
  {
    if |es| > 0 {
      var n := |es| - 1;
      var front := es[..n];
      var last := es[n];
      assert es == front + [last];
      var w := Widen(cols, last);
      GroupWiden(cols, front, k);
      WidenSnoc(cols, front, last);
      assert NameOf(w) == RawName(last);
      GroupSnoc(ConcatRows(cols, front), w, k);
      assert GroupOf(ConcatRows(cols, es), k)
             == ConcatRows(cols, RawGroup(front, k)) + (if RawName(last) == k then [w] else []);
      if RawName(last) == k {
        assert RawGroup(es, k) == RawGroup(front, k) + [last];
        WidenSnoc(cols, RawGroup(front, k), last);
      } else {
        assert RawGroup(es, k) == RawGroup(front, k);
      }
    }
  }

  /** One input row after concatenation, the administrative drop and the
      duration reading. */
  function Prepared(cols: seq<string>, timeCols: seq<string>, e: Entry): Row {
    NormaliseRow(DropRow(Widen(cols, e)), timeCols)
  }

  lemma DropKeepsName(r: Row)
    ensures NameOf(DropRow(r)) == NameOf(r)
  {
    TimeColumnsDistinct();
    assert Identity !in AdminSet;
  }

  lemma NormaliseKeepsName(r: Row, timeCols: seq<string>)
    requires Identity !in timeCols
    ensures NameOf(NormFn(timeCols)(r)) == NameOf(r)
  {
  }

  /** The rows groupby sees for a non-blank agent `k` are that agent's input
      rows, each prepared, in input order. */
  lemma PreparedGroups(tables: seq<Table>, k: string)
    requires Identity in UnionColumns(tables)
    requires Strip(k) != ""
    ensures |GroupOf(PreparedRows(tables), k)| == |RawGroup(Entries(tables), k)|
    ensures forall i | 0 <= i < |RawGroup(Entries(tables), k)| ::
              GroupOf(PreparedRows(tables), k)[i]
              == Prepared(UnionColumns(tables), PresentTimeColumns(MergedColumns(tables)), RawGroup(Entries(tables), k)[i])
  {
    var cols := UnionColumns(tables);
    var es := Entries(tables);
    var tc := PresentTimeColumns(MergedColumns(tables));
    var raw := RawGroup(es, k);
    var concat := ConcatRows(cols, es);
    var dropped := MapRows(concat, DropRow);
    var kept := KeepNamed(dropped);
    TimeColumnsDistinct();
    assert PreparedRows(tables) == MapRows(kept, NormFn(tc));
    forall i | 0 <= i < |kept| ensures NameOf(NormFn(tc)(kept[i])) == NameOf(kept[i]) {
      NormaliseKeepsName(kept[i], tc);
    }
    GroupMap(kept, NormFn(tc), k);
    GroupKeep(dropped, k);
    forall i | 0 <= i < |concat| ensures NameOf(DropRow(concat[i])) == NameOf(concat[i]) {
      DropKeepsName(concat[i]);
    }
    GroupMap(concat, DropRow, k);
    GroupWiden(cols, es, k);
    var g := MapRows(MapRows(ConcatRows(cols, raw), DropRow), NormFn(tc));
    assert GroupOf(PreparedRows(tables), k) == g;
    forall i | 0 <= i < |raw| ensures g[i] == Prepared(cols, tc, raw[i]) {
    }
  }

  /** One prepared cell: a present duration column holds the input cell read
      as seconds, every other kept column holds the input cell unchanged. */
  lemma PreparedCell(cols: seq<string>, timeCols: seq<string>, e: Entry, c: string)
    requires c in cols && c !in AdminColumns
    ensures c in timeCols ==> Get(Prepared(cols, timeCols, e), c) == Num(TimeToSeconds(CellOf(e, c)))
    ensures c !in timeCols ==> Get(Prepared(cols, timeCols, e), c) == CellOf(e, c)
  {
    var w := Widen(cols, e);
    assert c in w && w[c] == CellOf(e, c);
    assert c !in AdminSet;
    assert c in DropRow(w);
  }

  /** A row the filter keeps names an agent, when identities are text. */
  lemma KeptNamesAgent(cols: seq<string>, es: seq<Entry>, r: Row)
    requires Identity in cols
    requires forall e | e in es :: CellOf(e, Identity).Null? || CellOf(e, Identity).Text?
    requires r in KeepNamed(MapRows(ConcatRows(cols, es), DropRow))
    ensures Strip(NameOf(r)) != ""
  {
    var concat := ConcatRows(cols, es);
    var dropped := MapRows(concat, DropRow);
    var j :| 0 <= j < |dropped| && dropped[j] == r;
    assert es[j] in es;
    assert Identity !in AdminSet by {
      TimeColumnsDistinct();
    }
    assert Get(r, Identity) == CellOf(es[j], Identity);
  }

  /** Every row that reaches groupby names an agent. */
  lemma PreparedNonBlank(tables: seq<Table>)
    requires NamesAreText(tables)
    requires Identity in UnionColumns(tables)
    ensures forall i | 0 <= i < |PreparedRows(tables)| :: Strip(NameOf(PreparedRows(tables)[i])) != ""
  {
    var cols := UnionColumns(tables);
    var tc := PresentTimeColumns(MergedColumns(tables));
    var kept := KeepNamed(MapRows(ConcatRows(cols, Entries(tables)), DropRow));
    var rows := PreparedRows(tables);
    TimeColumnsDistinct();
    assert rows == MapRows(kept, NormFn(tc));
    forall i | 0 <= i < |rows| ensures Strip(NameOf(rows[i])) != "" {
      assert kept[i] in kept;
      KeptNamesAgent(cols, Entries(tables), kept[i]);
      NormaliseKeepsName(kept[i], tc);
    }
  }

  /** Whether a non-blank name reaches groupby depends only on whether some
      input row carries it. */
  lemma GroupSize(tables: seq<Table>, k: string)
    requires Identity in UnionColumns(tables)
    requires Strip(k) != ""
    ensures k in Names(PreparedRows(tables)) <==> |RawGroup(Entries(tables), k)| > 0
  {
    PreparedGroups(tables, k);
  }

  lemma NameIsAgent(tables: seq<Table>, k: string)
    requires NamesAreText(tables)
    requires Identity in UnionColumns(tables)
    requires k in Names(PreparedRows(tables))
    ensures k in AgentNames(tables)
  {
    var rows := PreparedRows(tables);
    PreparedNonBlank(tables);
    var i :| 0 <= i < |rows| && Names(rows)[i] == k;
    GroupSize(tables, k);
    var raw := RawGroup(Entries(tables), k);
    assert raw[0] in raw;
    assert IsAgent(raw[0]);
  }

  /** An agent name of the input has a non-empty raw group. */
  lemma AgentHasGroup(es: seq<Entry>, k: string)
    requires k in set e | e in es && IsAgent(e) :: RawName(e)
    ensures Strip(k) != "" && |RawGroup(es, k)| > 0
  {
    var e :| e in es && IsAgent(e) && RawName(e) == k;
    var j :| 0 <= j < |es| && es[j] == e;
    assert es[j] in RawGroup(es, k);
  }

  lemma AgentIsName(tables: seq<Table>, k: string)
    requires Identity in UnionColumns(tables)
    requires k in AgentNames(tables)
    ensures k in Names(PreparedRows(tables))
  {
    AgentHasGroup(Entries(tables), k);
    GroupSize(tables, k);
  }

  /** The names that reach groupby are exactly the agent names of the input. */
  lemma PreparedNames(tables: seq<Table>)
    requires NamesAreText(tables)
    requires Identity in UnionColumns(tables)
    ensures forall k :: k in Names(PreparedRows(tables)) <==> k in AgentNames(tables)
  {
    forall k ensures k in Names(PreparedRows(tables)) <==> k in AgentNames(tables) {
      if k in Names(PreparedRows(tables)) {
        NameIsAgent(tables, k);
      }
      if k in AgentNames(tables) {
        AgentIsName(tables, k);
      }
    }
  }

  /** A successful merge is the assembly of the merged columns and the
      prepared rows. */
  lemma MergeOk(tables: seq<Table>, t: Table)
    requires NamesAreText(tables)
    requires Merge(tables) == Ok(t)
    ensures Distinct(MergedColumns(tables)) && Identity in MergedColumns(tables)
    ensures t == Assemble(MergedColumns(tables), PreparedRows(tables))
  {
  }

  /** The merged columns: `Collector Name`, then the duration columns that
      occur in the fixed list's order, then every other column in the order
      it first appears across the uploaded headers. */
  lemma MergeColumnOrder(tables: seq<Table>, t: Table)
    requires NamesAreText(tables)
    requires Merge(tables) == Ok(t)
    ensures LaidOut(t.columns, Headers(tables))
  {
    MergeOk(tables, t);
    LaidOutFollows(t.columns, MergedColumns(tables), Headers(tables));
  }

  /** The merged table's agent part unfolded: whenever a column besides the
      identity survives, the result is the grouped rows plus the Average
      row. */
  lemma MergeParts(tables: seq<Table>, t: Table)
    requires NamesAreText(tables)
    requires Merge(tables) == Ok(t) && |t.columns| > 1
    ensures Identity in UnionColumns(tables)
    ensures var cols := MergedColumns(tables);
            var agents := Aggregate(PreparedRows(tables), PresentTimeColumns(cols), OtherColumns(cols));
            t == Table(Layout(PresentTimeColumns(cols), OtherColumns(cols)),
                       agents.rows + [AverageRow(agents.rows, PresentTimeColumns(cols), OtherColumns(cols))])
  {
    var cols := MergedColumns(tables);
    TimeColumnsDistinct();
    if |PresentTimeColumns(cols)| + |OtherColumns(cols)| == 0 {
      DegenerateColumns(cols);
    }
  }

  /** Row `i` of the grouped table, short of the Average row, is the
      reference row of the `i`-th key. */
  lemma GroupedRow(rows: seq<Row>, timeCols: seq<string>, others: seq<string>, i: int)
    requires 0 <= i < |Grouped(rows, timeCols, others).rows| - 1
    ensures i < |Keys(rows)| && Keys(rows)[i] in Names(rows)
    ensures Grouped(rows, timeCols, others).rows[i]
            == AgentRowOf(GroupOf(rows, Keys(rows)[i]), Keys(rows)[i], timeCols, others)
    ensures Get(Grouped(rows, timeCols, others).rows[i], Identity) == Text(Keys(rows)[i])
  {
    var agents := Aggregate(rows, timeCols, others);
    var t := Grouped(rows, timeCols, others);
    assert t.rows[i] == agents.rows[i];
    assert Keys(rows)[i] in Keys(rows);
  }

  /** There are as many keys as distinct names. */
  lemma KeyCount(rows: seq<Row>, names: set<string>)
    requires forall k :: k in Names(rows) <==> k in names
    ensures |Keys(rows)| == |names|
  {
    SortedCount(Keys(rows));
    assert (set x | x in Keys(rows)) == names;
  }

  lemma ShapeCount(rows: seq<Row>, timeCols: seq<string>, others: seq<string>, names: set<string>)
    requires forall k :: k in Names(rows) <==> k in names
    ensures var t := Grouped(rows, timeCols, others);
            |t.rows| == |names| + 1 && Get(t.rows[|t.rows| - 1], Identity) == Text(AverageLabel)
  {
    KeyCount(rows, names);
    GroupedLast(rows, timeCols, others);
  }

  lemma ShapeNames(rows: seq<Row>, timeCols: seq<string>, others: seq<string>, names: set<string>)
    requires forall k :: k in Names(rows) <==> k in names
    ensures var t := Grouped(rows, timeCols, others);
            (forall i | 0 <= i < |t.rows| - 1 ::
               Get(t.rows[i], Identity).Text? && Get(t.rows[i], Identity).s in names)
            && (forall k | k in names :: exists i | 0 <= i < |t.rows| - 1 :: Get(t.rows[i], Identity) == Text(k))
  {
    AgentRowsNamed(rows, timeCols, others, names);
    NamedAgentsListed(rows, timeCols, others, names);
  }

  /** Every agent row is labelled with a name that occurs. */
  lemma AgentRowsNamed(rows: seq<Row>, timeCols: seq<string>, others: seq<string>, names: set<string>)
    requires forall k :: k in Names(rows) <==> k in names
    ensures var t := Grouped(rows, timeCols, others);
            forall i | 0 <= i < |t.rows| - 1 ::
              Get(t.rows[i], Identity).Text? && Get(t.rows[i], Identity).s in names
  {
    var t := Grouped(rows, timeCols, others);
    forall i | 0 <= i < |t.rows| - 1 ensures Get(t.rows[i], Identity) == Text(Keys(rows)[i]) && Keys(rows)[i] in names {
      GroupedRow(rows, timeCols, others, i);
    }
  }

  /** Every name that occurs labels some agent row. */
  lemma NamedAgentsListed(rows: seq<Row>, timeCols: seq<string>, others: seq<string>, names: set<string>)
    requires forall k :: k in Names(rows) <==> k in names
    ensures var t := Grouped(rows, timeCols, others);
            forall k | k in names :: exists i | 0 <= i < |t.rows| - 1 :: Get(t.rows[i], Identity) == Text(k)
  {
    var t := Grouped(rows, timeCols, others);
    var keys := Keys(rows);
    GroupedLast(rows, timeCols, others);
    forall k | k in names ensures exists i | 0 <= i < |t.rows| - 1 :: Get(t.rows[i], Identity) == Text(k) {
      var i :| 0 <= i < |keys| && keys[i] == k;
      GroupedRow(rows, timeCols, others, i);
    }
  }

  lemma ShapeOrder(rows: seq<Row>, timeCols: seq<string>, others: seq<string>)
    ensures var t := Grouped(rows, timeCols, others);
            forall i, j | 0 <= i < j < |t.rows| - 1 ::
              Get(t.rows[i], Identity).Text? && Get(t.rows[j], Identity).Text?
              && Less(Get(t.rows[i], Identity).s, Get(t.rows[j], Identity).s)
  {
    var t := Grouped(rows, timeCols, others);
    var keys := Keys(rows);
    forall i | 0 <= i < |t.rows| - 1 ensures Get(t.rows[i], Identity) == Text(keys[i]) {
      GroupedRow(rows, timeCols, others, i);
    }
  }

  /** Agent rows, then one Average row: one agent row per distinct non-blank
      input name (untrimmed, so "Alice" and "Alice " stay apart), in
      ascending name order, and no other. */
  lemma MergeShape(tables: seq<Table>, t: Table)
    requires NamesAreText(tables)
    requires Merge(tables) == Ok(t) && |t.columns| > 1
    ensures |t.rows| == |AgentNames(tables)| + 1
    ensures Get(t.rows[|t.rows| - 1], Identity) == Text(AverageLabel)
    ensures forall i | 0 <= i < |t.rows| - 1 ::
              Get(t.rows[i], Identity).Text? && Get(t.rows[i], Identity).s in AgentNames(tables)
    ensures forall i, j | 0 <= i < j < |t.rows| - 1 ::
              Less(Get(t.rows[i], Identity).s, Get(t.rows[j], Identity).s)
    ensures forall k | k in AgentNames(tables) :: exists i | 0 <= i < |t.rows| - 1 :: Get(t.rows[i], Identity) == Text(k)
  {
    MergeParts(tables, t);
    var cols := MergedColumns(tables);
    var rows, tc, ot := PreparedRows(tables), PresentTimeColumns(cols), OtherColumns(cols);
    PreparedNames(tables);
    ShapeCount(rows, tc, ot, AgentNames(tables));
    ShapeNames(rows, tc, ot, AgentNames(tables));
    ShapeOrder(rows, tc, ot);
  }

  /** Each agent row: every present duration column is the sum, over that
      agent's input rows, of the cell read as seconds (a column the row's
      file lacked counts 0); every other column is the agent's first
      non-null value in upload order. */
  lemma MergeAgentRow(tables: seq<Table>, t: Table, i: int)
    requires NamesAreText(tables)
    requires Merge(tables) == Ok(t) && |t.columns| > 1
    requires 0 <= i < |t.rows| - 1
    ensures Get(t.rows[i], Identity).Text?
    ensures var g := RawGroup(Entries(tables), Get(t.rows[i], Identity).s);
            forall c | c in t.columns && c in TimeColumns :: Get(t.rows[i], c) == Num(RawTotal(g, c))
    ensures var g := RawGroup(Entries(tables), Get(t.rows[i], Identity).s);
            forall c | c in t.columns && c != Identity && c !in TimeColumns :: Get(t.rows[i], c) == RawFirst(g, c)
  {
    MergeParts(tables, t);
    var u := UnionColumns(tables);
    var cols := MergedColumns(tables);
    var tc, ot := PresentTimeColumns(cols), OtherColumns(cols);
    var rows := PreparedRows(tables);
    GroupedRow(rows, tc, ot, i);
    var k := Keys(rows)[i];
    var group := GroupOf(rows, k);
    var raw := RawGroup(Entries(tables), k);
    PreparedNonBlank(tables);
    PreparedGroups(tables, k);
    ColumnClasses(cols);
    forall c | c in t.columns && c in TimeColumns ensures Get(t.rows[i], c) == Num(RawTotal(raw, c)) {
      assert c in tc;
      forall j | 0 <= j < |raw| ensures NumOf(Get(group[j], c)) == TimeToSeconds(CellOf(raw[j], c)) {
        PreparedCell(u, tc, raw[j], c);
      }
      TotalsAgree(group, raw, c);
    }
    forall c | c in t.columns && c != Identity && c !in TimeColumns ensures Get(t.rows[i], c) == RawFirst(raw, c) {
      assert c in ot && c !in tc;
      forall j | 0 <= j < |raw| ensures Get(group[j], c) == CellOf(raw[j], c) {
        PreparedCell(u, tc, raw[j], c);
      }
      FirstsAgree(group, raw, c);
    }
  }

  /** Present duration columns are duration columns; the other columns are
      neither durations nor the identity. */
  lemma ColumnClasses(cols: seq<string>)
    ensures forall c | c in PresentTimeColumns(cols) :: c in TimeColumns && c != Identity
    ensures forall c | c in OtherColumns(cols) :: c !in TimeColumns && c != Identity
  {
    TimeColumnsDistinct();
  }

  /** AverageRow's cells read through Get, stated for the columns the
      output lays out. */
  lemma AverageCells(agents: seq<Row>, timeCols: seq<string>, others: seq<string>)
    requires forall c | c in timeCols :: c != Identity
    requires forall c | c in others :: c !in timeCols && c != Identity
    ensures var average := AverageRow(agents, timeCols, others);
            (forall c | c in timeCols ::
               if |agents| == 0 then Get(average, c) == Null
               else Get(average, c).Num? && Times(Get(average, c).x, |agents|) == ColumnTotal(agents, c))
            && (forall c | c in others :: Get(average, c) == Null)
  {
  }

  /** One duration column of the Average row, read through the merged
      table: its agent rows are the rows before it. */
  lemma AverageAt(rows: seq<Row>, agents: seq<Row>, average: Row, c: string)
    requires rows == agents + [average]
    requires if |agents| == 0 then Get(average, c) == Null
             else Get(average, c).Num? && Times(Get(average, c).x, |agents|) == ColumnTotal(agents, c)
    ensures var n := |rows| - 1;
            if n == 0 then Get(rows[n], c) == Null
            else Get(rows[n], c).Num? && Times(Get(rows[n], c).x, n) == ColumnTotal(rows[..n], c)
  {
    AverageSplit(rows, agents, average);
  }

  lemma AverageOthers(t: Table, agents: seq<Row>, average: Row, timeCols: seq<string>, others: seq<string>)
    requires forall c | c in timeCols :: c in TimeColumns
    requires forall c | c in others :: Get(average, c) == Null
    requires t == Table(Layout(timeCols, others), agents + [average])
    ensures forall c | c in t.columns && c != Identity && c !in TimeColumns :: Get(t.rows[|t.rows| - 1], c) == Null
  {
    AverageSplit(t.rows, agents, average);
    forall c | c in t.columns && c != Identity && c !in TimeColumns ensures Get(t.rows[|agents|], c) == Null {
      assert c in others;
    }
  }

  lemma AverageSplit(rows: seq<Row>, agents: seq<Row>, average: Row)
    requires rows == agents + [average]
    ensures |rows| == |agents| + 1 && rows[..|agents|] == agents && rows[|agents|] == average
  {
  }

  /** The Average row: each present duration column is the mean over the
      agent rows alone (null when there are none), every other column
      besides the identity is null. */
  lemma MergeAverage(tables: seq<Table>, t: Table)
    requires NamesAreText(tables)
    requires Merge(tables) == Ok(t) && |t.columns| > 1
    ensures var n := |t.rows| - 1;
            forall c | c in t.columns && c in TimeColumns ::
              if n == 0 then Get(t.rows[n], c) == Null
              else Get(t.rows[n], c).Num? && Times(Get(t.rows[n], c).x, n) == ColumnTotal(t.rows[..n], c)
    ensures forall c | c in t.columns && c != Identity && c !in TimeColumns :: Get(t.rows[|t.rows| - 1], c) == Null
  {
    MergeParts(tables, t);
    var cols := MergedColumns(tables);
    var tc, ot := PresentTimeColumns(cols), OtherColumns(cols);
    var agents := Aggregate(PreparedRows(tables), tc, ot);
    ColumnClasses(cols);
    var average := AverageRow(agents.rows, tc, ot);
    AverageCells(agents.rows, tc, ot);
    forall c | c in t.columns && c in TimeColumns
      ensures var n := |t.rows| - 1;
              if n == 0 then Get(t.rows[n], c) == Null
              else Get(t.rows[n], c).Num? && Times(Get(t.rows[n], c).x, n) == ColumnTotal(t.rows[..n], c)
    {
      AverageAt(t.rows, agents.rows, average, c);
    }
    AverageOthers(t, agents.rows, average, tc, ot);
  }

  lemma KeepSnoc(rows: seq<Row>, r: Row)
    ensures KeepNamed(rows + [r]) == KeepNamed(rows) + (if HasName(r) then [r] else [])
  {
    assert (rows + [r])[..|rows|] == rows;
  }

  lemma AgentSnoc(es: seq<Entry>, e: Entry)
    ensures AgentEntries(es + [e]) == AgentEntries(es) + (if IsAgent(e) then [e] else [])
  {
    assert (es + [e])[..|es|] == es;
  }

  /** After concatenation and the drop, an input row passes the row filter
      exactly when it names an agent, when its identity is text or null. */
  lemma FilterIsAgent(cols: seq<string>, e: Entry)
    requires Identity in cols
    requires CellOf(e, Identity).Null? || CellOf(e, Identity).Text?
    ensures HasName(DropRow(Widen(cols, e))) <==> IsAgent(e)
  {
    TimeColumnsDistinct();
    assert Identity !in AdminSet;
    assert Get(DropRow(Widen(cols, e)), Identity) == CellOf(e, Identity);
  }

  /** The row filter keeps exactly the rows of the input rows that name an
      agent, when identities are text. */
  lemma {:induction false} KeepWiden(cols: seq<string>, es: seq<Entry>)
    requires Identity in cols
    requires forall e | e in es :: CellOf(e, Identity).Null? || CellOf(e, Identity).Text?
    ensures KeepNamed(MapRows(ConcatRows(cols, es), DropRow)) == MapRows(ConcatRows(cols, AgentEntries(es)), DropRow)
    decreases |es|
  {
    if |es| > 0 {
      var n := |es| - 1;
      var front := es[..n];
      var last := es[n];
      assert es == front + [last];
      assert last in es;
      assert forall e | e in front :: e in es;
      KeepWiden(cols, front);
      var w := Widen(cols, last);
      var d := DropRow(w);
      var a := MapRows(ConcatRows(cols, front), DropRow);
      var af := AgentEntries(front);
      FilterIsAgent(cols, last);
      WidenSnoc(cols, front, last);
      MapSnoc(ConcatRows(cols, front), w, DropRow);
      assert MapRows(ConcatRows(cols, es), DropRow) == a + [d];
      KeepSnoc(a, d);
      AgentSnoc(front, last);
      if IsAgent(last) {
        assert AgentEntries(es) == af + [last];
        WidenSnoc(cols, af, last);
        MapSnoc(ConcatRows(cols, af), w, DropRow);
      } else {
        assert AgentEntries(es) == af;
      }
    }
  }

  lemma DegenerateRow(cols: seq<string>, e: Entry)
    requires Without(cols, AdminColumns) == [Identity]
    ensures NormaliseRow(DropRow(Widen(cols, e)), []) == map[Identity := CellOf(e, Identity)]
  {
    var d := DropRow(Widen(cols, e));
    assert Identity in Without(cols, AdminColumns);
    forall c ensures c in d <==> c == Identity {
      assert c in Without(cols, AdminColumns) <==> c in cols && c !in AdminColumns;
      assert c in AdminSet <==> c in AdminColumns;
    }
    assert NormaliseRow(d, []) == d;
  }

  /** The degenerate path on the raw rows: with only the identity left after
      the drop, the prepared rows are the named input rows, each reduced to
      its identity cell. */
  lemma DegenerateRows(u: seq<string>, es: seq<Entry>)
    requires Without(u, AdminColumns) == [Identity]
    requires forall e | e in es :: CellOf(e, Identity).Null? || CellOf(e, Identity).Text?
    ensures var rows := MapRows(KeepNamed(MapRows(ConcatRows(u, es), DropRow)), NormFn([]));
            |rows| == |AgentEntries(es)|
            && forall i | 0 <= i < |rows| :: rows[i] == map[Identity := CellOf(AgentEntries(es)[i], Identity)]
  {
    assert Identity in Without(u, AdminColumns);
    KeepWiden(u, es);
    var agents := AgentEntries(es);
    var rows := MapRows(MapRows(ConcatRows(u, agents), DropRow), NormFn([]));
    forall i | 0 <= i < |rows| ensures rows[i] == map[Identity := CellOf(agents[i], Identity)] {
      assert rows[i] == NormaliseRow(DropRow(Widen(u, agents[i])), []);
      DegenerateRow(u, agents[i]);
    }
  }

  /** The prepared rows when only the identity column survives the drop. */
  lemma DegeneratePrepared(tables: seq<Table>)
    requires NamesAreText(tables)
    requires MergedColumns(tables) == [Identity]
    ensures |PreparedRows(tables)| == |AgentEntries(Entries(tables))|
    ensures forall i | 0 <= i < |PreparedRows(tables)| ::
              PreparedRows(tables)[i] == map[Identity := CellOf(AgentEntries(Entries(tables))[i], Identity)]
  {
    var u := UnionColumns(tables);
    var es := Entries(tables);
    TimeColumnsDistinct();
    var merged := DropAdmin(Concat(tables));
    assert merged.columns == [Identity];
    IdentityAlone();
    var kept := KeepNamed(MapRows(ConcatRows(u, es), DropRow));
    assert FilterNamed(merged).rows == kept;
    assert PreparedRows(tables) == MapRows(kept, NormFn([]));
    DegenerateRows(u, es);
  }

  /** When only the identity column survives, the merge hands back the
      prepared rows under that column alone. */
  lemma DegenerateParts(tables: seq<Table>, t: Table)
    requires NamesAreText(tables)
    requires Merge(tables) == Ok(t) && |t.columns| <= 1
    ensures MergedColumns(tables) == [Identity]
    ensures t == Table([Identity], PreparedRows(tables))
  {
    MergeOk(tables, t);
    AssembleDegenerate(MergedColumns(tables), PreparedRows(tables));
  }

  /** When no column besides the identity survives, nothing is grouped and
      no Average row is added: the result is the filtered rows, one per
      input row that names an agent, in upload order. */
  lemma MergeDegenerate(tables: seq<Table>, t: Table)
    requires NamesAreText(tables)
    requires Merge(tables) == Ok(t) && |t.columns| <= 1
    ensures t.columns == [Identity]
    ensures |t.rows| == |AgentEntries(Entries(tables))|
    ensures forall i | 0 <= i < |t.rows| ::
              t.rows[i] == map[Identity := CellOf(AgentEntries(Entries(tables))[i], Identity)]
  {
    DegenerateParts(tables, t);
    DegeneratePrepared(tables);
  }

  /** One uploaded table with the identity and one duration column, holding
      one row for agent `name`. */
  function OneUpload(name: string, talk: string): Table {
    Table([Identity, "Talk Time"], [map[Identity := Text(name), "Talk Time" := Text(talk)]])
  }

  lemma OneUploadNamed(name: string, talk: string)
    ensures NamesAreText([OneUpload(name, talk)])
  {
    var tables := [OneUpload(name, talk)];
    assert tables[..0] == [];
    assert forall e | e in Entries(tables) :: e == Entry(tables[0].columns, tables[0].rows[0]);
  }

  lemma OneUploadColumns(name: string, talk: string)
    ensures forall c :: c in OneUpload(name, talk).columns && c !in AdminColumns <==> c == Identity || c == "Talk Time"
  {
  }

  /** A single table that has `Collector Name` and one more kept column
      merges: the result holds exactly the table's non-administrative
      columns, so it is aggregated and ends with the Average row. */
  lemma MergeOneTable(t0: Table, other: string)
    requires NamesAreText([t0]) && Identity in t0.columns
    requires other in t0.columns && other != Identity && other !in AdminColumns
    ensures Merge([t0]).Ok?
    ensures forall c :: c in Merge([t0]).value.columns <==> c in t0.columns && c !in AdminColumns
    ensures var t := Merge([t0]).value;
            |t.columns| > 1 && |t.rows| > 0 && Get(t.rows[|t.rows| - 1], Identity) == Text(AverageLabel)
  {
    assert [t0][0] == t0;
    TwoMembers(Merge([t0]).value.columns, Identity, other);
  }

  /** A non-empty upload that has `Collector Name` merges, whatever the
      agent's name and duration text: the result has exactly the identity and
      the duration column, and ends with the Average row. */
  lemma ExampleMerged(name: string, talk: string)
    ensures NamesAreText([OneUpload(name, talk)])
    ensures Merge([OneUpload(name, talk)]).Ok?
    ensures forall c :: c in Merge([OneUpload(name, talk)]).value.columns <==> c == Identity || c == "Talk Time"
    ensures var t := Merge([OneUpload(name, talk)]).value;
            |t.columns| > 1 && |t.rows| > 0 && Get(t.rows[|t.rows| - 1], Identity) == Text(AverageLabel)
  {
    OneUploadNamed(name, talk);
    OneUploadColumns(name, talk);
    MergeOneTable(OneUpload(name, talk), "Talk Time");
  }
}
