/** groupby("Collector Name").agg(...).reset_index(): duration columns are
    summed, every other column keeps its first non-null value, and the keys
    come out in ascending order. The rows are folded once, left to right, into
    one accumulated row per agent; AgentRow is the reference definition the
    fold is proved to meet. */
module Grouping {
  import opened Tables
  import opened Ordering

  /** The identity of a row; rows without a text identity never reach here. */
  function NameOf(r: Row): string {
    if Get(r, Identity).Text? then Get(r, Identity).s else ""
  }

  /** A cell as an addend of pandas' sum, which skips nulls. */
  function NumOf(c: Cell): real {
    if c.Num? then c.x else 0.0
  }

  function Names(rows: seq<Row>): (ns: seq<string>)
    ensures |ns| == |rows|
    ensures forall i | 0 <= i < |rows| :: ns[i] == NameOf(rows[i])
  {
    seq(|rows|, i requires 0 <= i < |rows| => NameOf(rows[i]))
  }

  lemma NamesPrefix(rows: seq<Row>)
    requires |rows| > 0
    ensures Names(rows) == Names(rows[..|rows| - 1]) + [NameOf(rows[|rows| - 1])]
  {
  }

  /** The rows of agent `k`, in their original order. */
  function GroupOf(rows: seq<Row>, k: string): (g: seq<Row>)
    ensures forall r | r in g :: r in rows && NameOf(r) == k
    ensures |g| > 0 <==> k in Names(rows)
    decreases |rows|
  {
    if |rows| == 0 then []
    else
      var prefix := rows[..|rows| - 1];
      var last := rows[|rows| - 1];
      NamesPrefix(rows);
      assert forall r | r in prefix :: r in rows;
      GroupOf(prefix, k) + (if NameOf(last) == k then [last] else [])
  }

  /** Every row of agent `k` is in its group. */
  lemma {:induction false} GroupComplete(rows: seq<Row>, k: string)
    ensures forall i | 0 <= i < |rows| && NameOf(rows[i]) == k :: rows[i] in GroupOf(rows, k)
    decreases |rows|
  {
    if |rows| > 0 {
      var prefix := rows[..|rows| - 1];
      GroupComplete(prefix, k);
      assert forall i | 0 <= i < |prefix| :: prefix[i] == rows[i];
    }
  }

  /** Column `c` summed over `rows`; a null cell adds nothing. */
  function ColumnTotal(rows: seq<Row>, c: string): real
    decreases |rows|
  {
    if |rows| == 0 then 0.0
    else ColumnTotal(rows[..|rows| - 1], c) + NumOf(Get(rows[|rows| - 1], c))
  }

  /** pandas' groupby first: the earliest non-null cell of column `c`, or
      Null when the column is null in every row. */
  function FirstNonNull(rows: seq<Row>, c: string): (r: Cell)
    ensures r.Null? <==> forall i | 0 <= i < |rows| :: Get(rows[i], c).Null?
    ensures !r.Null? ==> exists i | 0 <= i < |rows| ::
              r == Get(rows[i], c) && forall j | 0 <= j < i :: Get(rows[j], c).Null?
    decreases |rows|
  {
    if |rows| == 0 then Null
    else
      var n := |rows| - 1;
      var prefix := rows[..n];
      var f := FirstNonNull(prefix, c);
      assert forall i | 0 <= i < n :: prefix[i] == rows[i];
      if f.Null? then Get(rows[n], c) else f
  }

  /** Output column order: the identity first (reset_index), then the keys of
      the aggregation dictionary: durations, then the other columns. */
  function Layout(timeCols: seq<string>, others: seq<string>): seq<string> {
    [Identity] + timeCols + others
  }

  /** Reference definition of agent `k`'s output row: each duration column
      summed over the agent's rows, each other column its first non-null. */
  function AgentRow(rows: seq<Row>, k: string, timeCols: seq<string>, others: seq<string>): Row {
    AgentRowOf(GroupOf(rows, k), k, timeCols, others)
  }

  /** The accumulated row of an agent seen for the first time. */
  function Start(k: string, r: Row, timeCols: seq<string>, others: seq<string>): Row {
    map c | c in Layout(timeCols, others) ::
      if c == Identity then Text(k)
      else if c in timeCols then Num(NumOf(Get(r, c)))
      else Get(r, c)
  }

  /** Folds one more row of the same agent into its accumulated row. */
  function Combine(a: Row, r: Row, timeCols: seq<string>): Row {
    map c | c in a ::
      if c == Identity then a[c]
      else if c in timeCols then Num(NumOf(a[c]) + NumOf(Get(r, c)))
      else if a[c].Null? then Get(r, c)
      else a[c]
  }

  function Step(groups: map<string, Row>, r: Row, timeCols: seq<string>, others: seq<string>): map<string, Row> {
    var k := NameOf(r);
    if k in groups then groups[k := Combine(groups[k], r, timeCols)]
    else groups[k := Start(k, r, timeCols, others)]
  }

  /** A row leaves the other agents' accumulated rows as they were. */
  lemma StepOther(groups: map<string, Row>, r: Row, k: string, timeCols: seq<string>, others: seq<string>)
    requires NameOf(r) != k && k in groups
    ensures k in Step(groups, r, timeCols, others) && Step(groups, r, timeCols, others)[k] == groups[k]
  {
  }

  /** One pass over the rows, keeping one accumulated row per agent. */
  function Accumulate(rows: seq<Row>, timeCols: seq<string>, others: seq<string>): map<string, Row>
    decreases |rows|
  {
    if |rows| == 0 then map[]
    else Step(Accumulate(rows[..|rows| - 1], timeCols, others), rows[|rows| - 1], timeCols, others)
  }

  lemma StartAgrees(r: Row, timeCols: seq<string>, others: seq<string>)
    ensures Start(NameOf(r), r, timeCols, others) == AgentRowOf([r], NameOf(r), timeCols, others)
  {
    var k := NameOf(r);
    var a := Start(k, r, timeCols, others);
    var b := AgentRowOf([r], k, timeCols, others);
    assert [r][..0] == [];
    forall c | c in a ensures a[c] == b[c] {
      if c != Identity && c in timeCols {
        assert ColumnTotal([r], c) == NumOf(Get(r, c));
      } else if c != Identity {
        assert FirstNonNull([r], c) == Get(r, c);
      }
    }
  }

  lemma CombineAgrees(g: seq<Row>, r: Row, k: string, timeCols: seq<string>, others: seq<string>)
    requires NameOf(r) == k
    requires forall x | x in g :: NameOf(x) == k
    ensures Combine(AgentRowOf(g, k, timeCols, others), r, timeCols) == AgentRowOf(g + [r], k, timeCols, others)
  {
    var g' := g + [r];
    assert g'[..|g|] == g;
    var a := AgentRowOf(g, k, timeCols, others);
    var b := AgentRowOf(g', k, timeCols, others);
    forall c | c in a ensures Combine(a, r, timeCols)[c] == b[c] {
      if c != Identity && c in timeCols {
        assert ColumnTotal(g', c) == ColumnTotal(g, c) + NumOf(Get(r, c));
      } else if c != Identity {
        assert FirstNonNull(g', c) == (if FirstNonNull(g, c).Null? then Get(r, c) else FirstNonNull(g, c));
      }
    }
  }

  /** AgentRow with the agent's rows given directly. */
  function AgentRowOf(g: seq<Row>, k: string, timeCols: seq<string>, others: seq<string>): Row {
    map c | c in Layout(timeCols, others) ::
      if c == Identity then Text(k)
      else if c in timeCols then Num(ColumnTotal(g, c))
      else FirstNonNull(g, c)
  }

  /** The last row joins the group of its own agent and no other. */
  lemma GroupAppend(rows: seq<Row>, k: string)
    requires |rows| > 0
    ensures GroupOf(rows, k) == GroupOf(rows[..|rows| - 1], k)
              + (if NameOf(rows[|rows| - 1]) == k then [rows[|rows| - 1]] else [])
  {
  }

  /** The fold holds a row for exactly the agents that occur. */
  lemma {:induction false} AccumulateKeys(rows: seq<Row>, timeCols: seq<string>, others: seq<string>)
    ensures forall k :: k in Accumulate(rows, timeCols, others) <==> k in Names(rows)
    decreases |rows|
  {
    if |rows| > 0 {
      AccumulateKeys(rows[..|rows| - 1], timeCols, others);
      NamesPrefix(rows);
    }
  }

  /** The fold meets the reference definition: the accumulated row of every
      agent that occurs is AgentRow. */
  lemma {:induction false} AccumulateAgrees(rows: seq<Row>, k: string, timeCols: seq<string>, others: seq<string>)
    requires k in Names(rows)
    ensures k in Accumulate(rows, timeCols, others)
    ensures Accumulate(rows, timeCols, others)[k] == AgentRow(rows, k, timeCols, others)
    decreases |rows|
  {
    AccumulateKeys(rows, timeCols, others);
    var prefix := rows[..|rows| - 1];
    var last := rows[|rows| - 1];
    AccumulateKeys(prefix, timeCols, others);
    NamesPrefix(rows);
    GroupAppend(rows, k);
    var before := Accumulate(prefix, timeCols, others);
    assert Accumulate(rows, timeCols, others) == Step(before, last, timeCols, others);
    if NameOf(last) != k {
      assert k in Names(prefix);
      AccumulateAgrees(prefix, k, timeCols, others);
      assert GroupOf(rows, k) == GroupOf(prefix, k);
      StepOther(before, last, k, timeCols, others);
    } else if k in before {
      AccumulateAgrees(prefix, k, timeCols, others);
      assert Step(before, last, timeCols, others)[k] == Combine(before[k], last, timeCols);
      assert GroupOf(rows, k) == GroupOf(prefix, k) + [last];
      CombineAgrees(GroupOf(prefix, k), last, k, timeCols, others);
    } else {
      assert Step(before, last, timeCols, others)[k] == Start(k, last, timeCols, others);
      assert GroupOf(rows, k) == [last];
      StartAgrees(last, timeCols, others);
    }
  }

  lemma AccumulateAll(rows: seq<Row>, timeCols: seq<string>, others: seq<string>)
    ensures forall k | k in Names(rows) ::
              k in Accumulate(rows, timeCols, others)
              && Accumulate(rows, timeCols, others)[k] == AgentRow(rows, k, timeCols, others)
  {
    forall k | k in Names(rows)
      ensures k in Accumulate(rows, timeCols, others)
      ensures Accumulate(rows, timeCols, others)[k] == AgentRow(rows, k, timeCols, others)
    {
      AccumulateAgrees(rows, k, timeCols, others);
    }
  }

  /** The agent names in the order groupby emits them. */
  function Keys(rows: seq<Row>): (ks: seq<string>)
    ensures StrictlySorted(ks)
    ensures forall k :: k in ks <==> k in Names(rows)
  {
    SortedDistinct(Names(rows))
  }

  /** The grouped table: one row per distinct agent in ascending name order,
      each equal to the reference AgentRow. */
  function Aggregate(rows: seq<Row>, timeCols: seq<string>, others: seq<string>): (t: Table)
    ensures t.columns == Layout(timeCols, others)
    ensures |t.rows| == |Keys(rows)|
    ensures forall i | 0 <= i < |t.rows| :: t.rows[i] == AgentRow(rows, Keys(rows)[i], timeCols, others)
  {
    var groups := Accumulate(rows, timeCols, others);
    var keys := Keys(rows);
    AccumulateAll(rows, timeCols, others);
    Table(Layout(timeCols, others), seq(|keys|, i requires 0 <= i < |keys| => groups[keys[i]]))
  }

  /** `n` copies of `x` added up, which is the product of `x` and `n`. */
  function Times(x: real, n: nat): real
    decreases n
  {
    if n == 0 then 0.0 else Times(x, n - 1) + x
  }

  lemma {:induction false} TimesIsProduct(x: real, n: nat)
    ensures Times(x, n) == x * (n as real)
    decreases n
  {
    if n > 0 {
      TimesIsProduct(x, n - 1);
      assert x * ((n - 1) as real) + x == x * (n as real);
    }
  }

  /** pandas' mean of `n` values adding up to `total`: the value whose `n`
      copies add up to the total. */
  function Mean(total: real, n: nat): (m: real)
    requires n > 0
    ensures Times(m, n) == total
  {
    TimesIsProduct(total / (n as real), n);
    total / (n as real)
  }

  /** The summary row: "Average" as identity, each duration column the mean of
      the agent rows (null when there are none, pandas' NaN), every other
      column null. */
  function AverageRow(agents: seq<Row>, timeCols: seq<string>, others: seq<string>): (r: Row)
    ensures r.Keys == set c | c in Layout(timeCols, others)
    ensures r[Identity] == Text(AverageLabel)
    ensures forall c | c in timeCols && c != Identity ::
              if |agents| == 0 then r[c] == Null
              else r[c].Num? && Times(r[c].x, |agents|) == ColumnTotal(agents, c)
    ensures forall c | c in others && c !in timeCols && c != Identity :: r[c] == Null
  {
    map c | c in Layout(timeCols, others) ::
      if c == Identity then Text(AverageLabel)
      else if c in timeCols then (if |agents| == 0 then Null else Num(Mean(ColumnTotal(agents, c), |agents|)))
      else Null
  }
}
