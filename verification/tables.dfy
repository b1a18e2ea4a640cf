/** The data model: spreadsheet cells, rows keyed by column header, tables,
    and the fixed column names the merger knows about. */
module Tables {

  /** One spreadsheet cell as the reader hands it over. `Num` carries any
      numeric value (whole or not); `Other` stands for every value that is
      neither a number nor text, such as a date or a time of day. */
  datatype Cell = Null | Num(x: real) | Text(s: string) | Other(tag: string)

  /** A row maps column headers to cells; a header it lacks reads as Null. */
  type Row = map<string, Cell>

  /** Column headers in display order and the rows below them. */
  datatype Table = Table(columns: seq<string>, rows: seq<Row>)

  function Get(r: Row, c: string): Cell {
    if c in r then r[c] else Null
  }

  /** The identity column: one output row per distinct value. */
  const Identity: string := "Collector Name"

  /** Label of the synthetic summary row. */
  const AverageLabel: string := "Average"

  /** Administrative columns removed right after concatenation. */
  const AdminColumns: seq<string> := ["SNo.", "Total Calls", "Pause Count"]

  /** The eight duration columns, in the order the output lists them. */
  const TimeColumns: seq<string> := [
    "Spent Time", "Talk Time", "AVG Talk Time", "Wait Time",
    "Average Wait Time", "Write Time", "AVG Write Time", "Pause Time"
  ]

  predicate Distinct<T(==)>(s: seq<T>) {
    forall i, j | 0 <= i < j < |s| :: s[i] != s[j]
  }

  /** Two repetition-free sequences with nothing in common concatenate to a
      repetition-free sequence. */
  lemma DistinctAppend(a: seq<string>, b: seq<string>)
    requires Distinct(a) && Distinct(b)
    requires forall x | x in a :: x !in b
    ensures Distinct(a + b)
  {
    var ab := a + b;
    forall i, j | 0 <= i < j < |ab| ensures ab[i] != ab[j] {
      if j >= |a| && i < |a| {
        assert ab[i] in a && ab[j] == b[j - |a|];
      } else if i >= |a| {
        assert ab[i] == b[i - |a|] && ab[j] == b[j - |a|];
      }
    }
  }

  /** Position of `x` in `s` (pandas' Index.get_loc). */
  function IndexOf(s: seq<string>, x: string): (i: nat)
    requires x in s
    ensures i < |s| && s[i] == x
    ensures forall j | 0 <= j < i :: s[j] != x
  {
    if s[0] == x then 0 else 1 + IndexOf(s[1..], x)
  }

  /** `r` lists elements of `s`, each once, in the order they have in `s`. */
  predicate Follows(r: seq<string>, s: seq<string>) {
    (forall x | x in r :: x in s)
    && forall i, j | 0 <= i < j < |r| :: IndexOf(s, r[i]) < IndexOf(s, r[j])
  }

  /** Past the head, positions in `s` are one more than in its tail. */
  lemma IndexOfTail(s: seq<string>, x: string)
    requires x in s && x != s[0]
    ensures x in s[1..] && IndexOf(s, x) == 1 + IndexOf(s[1..], x)
  {
  }

  /** Following a sequence that itself follows `t` is following `t`. */
  lemma FollowsTransitive(r: seq<string>, s: seq<string>, t: seq<string>)
    requires Follows(r, s) && Follows(s, t)
    ensures Follows(r, t)
  {
    forall i, j | 0 <= i < j < |r| ensures IndexOf(t, r[i]) < IndexOf(t, r[j]) {
      var p, q := IndexOf(s, r[i]), IndexOf(s, r[j]);
      assert s[p] == r[i] && s[q] == r[j] && p < q;
    }
  }

  /** When a repetition-free `s` is followed by a subsequence of its tail,
      that subsequence follows `s` too, with or without the head of `s` put
      in front of it. */
  lemma FollowsCons(s: seq<string>, rest: seq<string>)
    requires |s| > 0 && Distinct(s) && Follows(rest, s[1..])
    ensures Follows(rest, s) && Follows([s[0]] + rest, s)
  {
    forall x | x in rest ensures x != s[0] && IndexOf(s, x) == 1 + IndexOf(s[1..], x) {
      assert x in s[1..];
      var k :| 0 <= k < |s[1..]| && s[1..][k] == x;
      assert s[k + 1] == x;
      IndexOfTail(s, x);
    }
    var r := [s[0]] + rest;
    assert forall k | 0 < k < |r| :: r[k] == rest[k - 1];
    forall i, j | 0 <= i < j < |r| ensures IndexOf(s, r[i]) < IndexOf(s, r[j]) {
      assert r[j] == rest[j - 1] && r[j] in rest;
      if i > 0 {
        assert r[i] == rest[i - 1] && r[i] in rest;
      }
    }
  }

  /** The elements of `s` that are not in `xs`, in their order in `s`
      (Python's `[c for c in s if c not in xs]`). */
  function Without(s: seq<string>, xs: seq<string>): (r: seq<string>)
    ensures forall x :: x in r <==> x in s && x !in xs
    ensures Distinct(s) ==> Distinct(r)
    ensures |r| <= |s|
    ensures (forall x | x in s :: x !in xs) ==> r == s
  {
    if |s| == 0 then []
    else
      var rest := Without(s[1..], xs);
      assert forall x :: x in s[1..] ==> x in s;
      if s[0] in xs then rest
      else
        assert Distinct(s) ==> s[0] !in s[1..];
        [s[0]] + rest
  }

  /** The elements of `s` that are also in `xs`, in their order in `s`
      (Python's `[c for c in s if c in xs]`). */
  function Within(s: seq<string>, xs: seq<string>): (r: seq<string>)
    ensures forall x :: x in r <==> x in s && x in xs
    ensures Distinct(s) ==> Distinct(r)
    ensures |r| <= |s|
    ensures (forall x | x in s :: x !in xs) ==> r == []
  {
    if |s| == 0 then []
    else
      var rest := Within(s[1..], xs);
      assert forall x :: x in s[1..] ==> x in s;
      if s[0] !in xs then rest
      else
        assert Distinct(s) ==> s[0] !in s[1..];
        [s[0]] + rest
  }

  /** The identity is neither a duration nor an administrative column. */
  lemma IdentityApart()
    ensures Identity !in TimeColumns && Identity !in AdminColumns
  {
  }

  /** A position in a prefix is the position in the whole. */
  lemma IndexOfPrefix(s: seq<string>, t: seq<string>, x: string)
    requires x in s
    ensures IndexOf(s + t, x) == IndexOf(s, x)
  {
    var i, k := IndexOf(s, x), IndexOf(s + t, x);
    assert (s + t)[i] == x;
  }

  /** A later element of the reference list does not move the earlier ones. */
  lemma FollowsExtend(a: seq<string>, h: seq<string>, c: string)
    requires Follows(a, h)
    ensures Follows(a, h + [c])
  {
    forall x | x in h ensures IndexOf(h + [c], x) == IndexOf(h, x) {
      IndexOfPrefix(h, [c], x);
    }
  }

  /** An element new to both lists may be placed at the end of both. */
  lemma FollowsAppend(a: seq<string>, h: seq<string>, c: string)
    requires Follows(a, h) && c !in h
    ensures Follows(a + [c], h + [c])
  {
    FollowsExtend(a, h, c);
    var r := a + [c];
    assert (h + [c])[|h|] == c;
    assert IndexOf(h + [c], c) == |h|;
    forall i, j | 0 <= i < j < |r| ensures IndexOf(h + [c], r[i]) < IndexOf(h + [c], r[j]) {
      assert r[i] == a[i] && r[i] in a;
      if j < |a| {
        assert r[j] == a[j] && r[j] in a;
      }
    }
  }

  /** A list holding two different names has more than one element. */
  lemma TwoMembers(s: seq<string>, a: string, b: string)
    requires a != b && a in s && b in s
    ensures |s| > 1
  {
    var i :| 0 <= i < |s| && s[i] == a;
    var j :| 0 <= j < |s| && s[j] == b;
    assert i != j;
  }

  /** The kept elements keep their relative order. */
  lemma {:induction false} WithoutOrder(s: seq<string>, xs: seq<string>)
    requires Distinct(s)
    ensures Follows(Without(s, xs), s)
    decreases |s|
  {
    if |s| > 0 {
      assert forall i, j | 0 <= i < j < |s[1..]| :: s[1..][i] == s[i + 1] && s[1..][j] == s[j + 1];
      WithoutOrder(s[1..], xs);
      FollowsCons(s, Without(s[1..], xs));
    }
  }

  /** The selected elements keep their relative order. */
  lemma {:induction false} WithinOrder(s: seq<string>, xs: seq<string>)
    requires Distinct(s)
    ensures Follows(Within(s, xs), s)
    decreases |s|
  {
    if |s| > 0 {
      assert forall i, j | 0 <= i < j < |s[1..]| :: s[1..][i] == s[i + 1] && s[1..][j] == s[j + 1];
      WithinOrder(s[1..], xs);
      FollowsCons(s, Within(s[1..], xs));
    }
  }

  lemma TimeColumnsDistinct()
    ensures Distinct(TimeColumns)
    ensures Identity !in TimeColumns && Identity !in AdminColumns
    ensures forall c | c in TimeColumns :: c !in AdminColumns
  {
  }
}
