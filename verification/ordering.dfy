/** The order in which pandas' groupby emits its keys: Python's `<` on str,
    which compares code point by code point and puts a proper prefix first. */
module Ordering {

  /** Python's `a < b` on strings. */
  predicate Less(a: string, b: string)
    decreases |a|
  {
    if |a| == 0 then |b| > 0
    else if |b| == 0 then false
    else if a[0] != b[0] then a[0] < b[0]
    else Less(a[1..], b[1..])
  }

  lemma {:induction false} LessIrreflexive(a: string)
    ensures !Less(a, a)
    decreases |a|
  {
    if |a| > 0 {
      LessIrreflexive(a[1..]);
    }
  }

  lemma {:induction false} LessAsymmetric(a: string, b: string)
    requires Less(a, b)
    ensures !Less(b, a)
    decreases |a|
  {
    if |a| > 0 && |b| > 0 && a[0] == b[0] {
      LessAsymmetric(a[1..], b[1..]);
    }
  }

  lemma {:induction false} LessTransitive(a: string, b: string, c: string)
    requires Less(a, b) && Less(b, c)
    ensures Less(a, c)
    decreases |a|
  {
    if |a| > 0 && a[0] == b[0] && b[0] == c[0] {
      LessTransitive(a[1..], b[1..], c[1..]);
    }
  }

  /** Any two different strings are ordered one way or the other. */
  lemma {:induction false} LessTotal(a: string, b: string)
    requires a != b
    ensures Less(a, b) || Less(b, a)
    decreases |a|
  {
    if |a| > 0 && |b| > 0 && a[0] == b[0] {
      assert a == [a[0]] + a[1..] && b == [b[0]] + b[1..];
      LessTotal(a[1..], b[1..]);
    }
  }

  /** Ascending without repetition. */
  predicate StrictlySorted(s: seq<string>) {
    forall i, j | 0 <= i < j < |s| :: Less(s[i], s[j])
  }

  lemma SortedPrepend(x: string, s: seq<string>)
    requires StrictlySorted(s)
    requires forall j | 0 <= j < |s| :: Less(x, s[j])
    ensures StrictlySorted([x] + s)
  {
    var t := [x] + s;
    forall i, j | 0 <= i < j < |t| ensures Less(t[i], t[j]) {
      if i > 0 {
        assert t[i] == s[i - 1] && t[j] == s[j - 1];
      }
    }
  }

  /** Puts `k` into its place in a sorted sequence, unless it is already there. */
  function Insert(s: seq<string>, k: string): (r: seq<string>)
    requires StrictlySorted(s)
    ensures StrictlySorted(r)
    ensures forall x :: x in r <==> x in s || x == k
    decreases |s|
  {
    if |s| == 0 then [k]
    else if k == s[0] then s
    else if Less(k, s[0]) then
      assert forall j | 0 < j < |s| :: Less(k, s[j]) by {
        forall j | 0 < j < |s| ensures Less(k, s[j]) {
          LessTransitive(k, s[0], s[j]);
        }
      }
      SortedPrepend(k, s);
      [k] + s
    else
      LessTotal(k, s[0]);
      var rest := Insert(s[1..], k);
      assert forall j | 0 <= j < |rest| :: Less(s[0], rest[j]) by {
        forall j | 0 <= j < |rest| ensures Less(s[0], rest[j]) {
          if rest[j] != k {
            assert rest[j] in s[1..];
            var m :| 0 <= m < |s| - 1 && s[1..][m] == rest[j];
            assert Less(s[0], s[m + 1]);
          }
        }
      }
      SortedPrepend(s[0], rest);
      assert s == [s[0]] + s[1..];
      [s[0]] + rest
  }

  /** The distinct values of `names` in ascending order: the keys pandas'
      groupby produces with its default sort=True. */
  function SortedDistinct(names: seq<string>): (r: seq<string>)
    ensures StrictlySorted(r)
    ensures forall x :: x in r <==> x in names
    decreases |names|
  {
    if |names| == 0 then []
    else
      var prefix := names[..|names| - 1];
      assert names == prefix + [names[|names| - 1]];
      Insert(SortedDistinct(prefix), names[|names| - 1])
  }

  /** A strictly sorted sequence repeats nothing, so its length is the number
      of distinct values in it. */
  lemma {:induction false} SortedCount(s: seq<string>)
    requires StrictlySorted(s)
    ensures |set x | x in s| == |s|
    decreases |s|
  {
    if |s| > 0 {
      var t := s[1..];
      SortedCount(t);
      LessIrreflexive(s[0]);
      forall j | 0 <= j < |t| ensures t[j] != s[0] {
        assert Less(s[0], s[j + 1]);
      }
      assert (set x | x in s) == (set x | x in t) + {s[0]};
    }
  }

  /** Only one strictly sorted sequence holds a given set of strings. */
  lemma {:induction false} SortedUnique(s: seq<string>, t: seq<string>)
    requires StrictlySorted(s) && StrictlySorted(t)
    requires forall x :: x in s <==> x in t
    ensures s == t
    decreases |s|
  {
    if |s| == 0 {
      assert (set x | x in t) == {};
      SortedCount(t);
    } else {
      assert s[0] in s;
      assert |t| > 0;
      assert t[0] in t;
      var i :| 0 <= i < |s| && s[i] == t[0];
      var j :| 0 <= j < |t| && t[j] == s[0];
      if i > 0 && j > 0 {
        assert Less(s[0], t[0]);
        assert Less(t[0], s[0]);
        LessAsymmetric(s[0], t[0]);
      } else if i > 0 {
        LessIrreflexive(s[0]);
      } else if j > 0 {
        LessIrreflexive(t[0]);
      }
      assert s[0] == t[0];
      forall x ensures x in s[1..] <==> x in t[1..] {
        if x in s[1..] {
          var a :| 1 <= a < |s| && s[a] == x;
          assert Less(s[0], x);
          LessIrreflexive(x);
          assert x in t;
        }
        if x in t[1..] {
          var b :| 1 <= b < |t| && t[b] == x;
          assert Less(t[0], x);
          LessIrreflexive(x);
          assert x in s;
        }
      }
      SortedUnique(s[1..], t[1..]);
      assert s == [s[0]] + s[1..] && t == [t[0]] + t[1..];
    }
  }
}
