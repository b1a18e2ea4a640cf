/** The duration codec: time_to_seconds reads a spreadsheet cell as a number
    of seconds and never fails; seconds_to_time renders seconds as "H:MM:SS". */
module Codec {
  import opened Results
  import opened Strings
  import opened Tables

  const Colon: char := ':'

  /** Strips every part, as the list comprehension after split does. */
  function StripAll(parts: seq<string>): (r: seq<string>)
    ensures |r| == |parts|
    ensures forall i | 0 <= i < |parts| :: r[i] == Strip(parts[i])
  {
    seq(|parts|, i requires 0 <= i < |parts| => Strip(parts[i]))
  }

  /** The reading of the stripped parts: three integers as H:M:S, two as
      M:S; any other number of parts, or a part int() rejects, reads as 0.
      Fields are not range-checked. */
  function ReadClock(parts: seq<string>): (r: int)
    ensures |parts| != 2 && |parts| != 3 ==> r == 0
    ensures (exists i | 0 <= i < |parts| :: ParseInt(parts[i]).None?) ==> r == 0
    ensures |parts| == 3 && (forall i | 0 <= i < 3 :: ParseInt(parts[i]).Some?) ==>
              r == ParseInt(parts[0]).value * 3600 + ParseInt(parts[1]).value * 60 + ParseInt(parts[2]).value
    ensures |parts| == 2 && (forall i | 0 <= i < 2 :: ParseInt(parts[i]).Some?) ==>
              r == ParseInt(parts[0]).value * 60 + ParseInt(parts[1]).value
  {
    if |parts| == 3 then
      match (ParseInt(parts[0]), ParseInt(parts[1]), ParseInt(parts[2]))
      case (Some(h), Some(m), Some(sec)) => h * 3600 + m * 60 + sec
      case _ => 0
    else if |parts| == 2 then
      match (ParseInt(parts[0]), ParseInt(parts[1]))
      case (Some(m), Some(sec)) => m * 60 + sec
      case _ => 0
    else 0
  }

  /** time_to_seconds on a string: split on ':' and strip each part. A part
      that int() rejects makes the whole reading 0, whatever the number of
      parts. */
  function ClockToSeconds(s: string): (r: int)
    ensures |Split(s, Colon)| != 2 && |Split(s, Colon)| != 3 ==> r == 0
  {
    ReadClock(StripAll(Split(s, Colon)))
  }

  /** One colon-separated part that int() rejects after stripping makes the
      whole reading 0. */
  lemma RejectedPart(s: string, i: nat)
    requires i < |Split(s, Colon)| && ParseInt(Strip(Split(s, Colon)[i])).None?
    ensures ClockToSeconds(s) == 0
  {
    var parts := StripAll(Split(s, Colon));
    assert ParseInt(parts[i]).None?;
  }

  /** time_to_seconds: a total reading of any cell as seconds. Null and every
      non-numeric, non-text value read as 0; a number is already seconds. */
  function TimeToSeconds(c: Cell): (r: real)
    ensures c.Null? || c.Other? ==> r == 0.0
    ensures c.Num? ==> r == c.x
    ensures c.Text? ==> r == ClockToSeconds(c.s) as real
  {
    match c
    case Null => 0.0
    case Num(x) => x
    case Text(s) => ClockToSeconds(s) as real
    case Other(_) => 0.0
  }

  /** seconds_to_time on a whole number of seconds: floor-divided hours without
      padding, then minutes and seconds as two digits each below 60. */
  function SecondsToTime(n: int): (r: string)
    ensures |r| >= 7 && r[|r| - 6] == Colon && r[|r| - 3] == Colon
    ensures ParseInt(r[..|r| - 6]) == Some(n / 3600)
    ensures n >= 0 ==> IsDigits(r[..|r| - 6]) && (r[0] == '0' ==> |r| == 7)
    ensures IsDigits(r[|r| - 5..|r| - 3]) && IsDigits(r[|r| - 2..])
    ensures DigitsValue(r[|r| - 5..|r| - 3]) < 60 && DigitsValue(r[|r| - 2..]) < 60
    ensures DigitsValue(r[|r| - 5..|r| - 3]) * 60 + DigitsValue(r[|r| - 2..]) == n % 3600
  {
    var rest := n % 3600;
    var h := IntToString(n / 3600);
    var m := Pad2(rest / 60);
    var s := Pad2(rest % 60);
    var r := h + [Colon] + m + [Colon] + s;
    assert r[..|r| - 6] == h;
    assert r[|r| - 5..|r| - 3] == m;
    assert r[|r| - 2..] == s;
    IntRoundTrip(n / 3600);
    r
  }

  /** Python's int() on a float: truncation toward zero. */
  function Truncate(x: real): (n: int)
    ensures x >= 0.0 ==> n as real <= x < n as real + 1.0
    ensures x < 0.0 ==> n as real - 1.0 < x <= n as real
  {
    if x >= 0.0 then x.Floor else -((-x).Floor)
  }

  /** seconds_to_time on a cell of a duration column after aggregation: a
      null (NaN) shows as "0:00:00", a number is truncated to whole seconds. */
  function FormatCell(c: Cell): (r: string)
    requires c.Null? || c.Num?
    ensures c.Null? ==> r == "0:00:00"
    ensures c.Num? ==> r == SecondsToTime(Truncate(c.x)) && ClockToSeconds(r) == Truncate(c.x)
  {
    match c
    case Null => "0:00:00"
    case Num(x) =>
      ClockRoundTrip(Truncate(x));
      SecondsToTime(Truncate(x))
  }

  /** A string without exactly one or two colons never reads as a duration. */
  lemma PartCountRule(s: string)
    requires Occurrences(s, Colon) != 1 && Occurrences(s, Colon) != 2
    ensures ClockToSeconds(s) == 0
  {
    assert |Split(s, Colon)| == Occurrences(s, Colon) + 1;
  }

  lemma JoinThree(h: string, m: string, s: string)
    ensures Join([h, m, s], Colon) == h + [Colon] + m + [Colon] + s
  {
    assert [h, m, s][1..] == [m, s];
    assert [m, s][1..] == [s];
    assert Join([m, s], Colon) == m + [Colon] + s;
    assert h + [Colon] + (m + [Colon] + s) == h + [Colon] + m + [Colon] + s;
  }

  lemma IntIsPlain(n: int)
    ensures Colon !in IntToString(n)
    ensures Strip(IntToString(n)) == IntToString(n)
    ensures ParseInt(IntToString(n)) == Some(n)
  {
    var s := IntToString(n);
    IntRoundTrip(n);
    if n >= 0 {
      DigitsPlain(s, Colon);
    } else {
      DigitsPlain(s[1..], Colon);
      assert s == [s[0]] + s[1..];
      assert !IsSpace(s[0]) && !IsSpace(s[|s| - 1]);
    }
  }

  lemma PadIsPlain(n: nat)
    requires n < 100
    ensures Colon !in Pad2(n)
    ensures Strip(Pad2(n)) == Pad2(n)
    ensures ParseInt(Pad2(n)) == Some(n)
  {
    DigitsPlain(Pad2(n), Colon);
  }

  /** Three integers joined by colons read back as h*3600 + m*60 + s, for any
      signs and magnitudes (no field is range-checked). */
  lemma {:induction false} ClockThreeParts(h: string, m: string, s: string, hv: int, mv: int, sv: int)
    requires Colon !in h && Colon !in m && Colon !in s
    requires ParseInt(Strip(h)) == Some(hv) && ParseInt(Strip(m)) == Some(mv) && ParseInt(Strip(s)) == Some(sv)
    ensures ClockToSeconds(h + [Colon] + m + [Colon] + s) == hv * 3600 + mv * 60 + sv
  {
    JoinThree(h, m, s);
    SplitJoin([h, m, s], Colon);
    assert Split(h + [Colon] + m + [Colon] + s, Colon) == [h, m, s];
    var parts := StripAll([h, m, s]);
    assert |parts| == 3 && parts[0] == Strip(h) && parts[1] == Strip(m) && parts[2] == Strip(s);
    assert ReadClock(parts) == hv * 3600 + mv * 60 + sv;
  }

  /** Two integers joined by one colon read back as m*60 + s: minutes are not
      capped at 59, so "90:00" is 5400 seconds. */
  lemma {:induction false} ClockTwoParts(m: string, s: string, mv: int, sv: int)
    requires Colon !in m && Colon !in s
    requires ParseInt(Strip(m)) == Some(mv) && ParseInt(Strip(s)) == Some(sv)
    ensures ClockToSeconds(m + [Colon] + s) == mv * 60 + sv
  {
    assert Join([m, s], Colon) == m + [Colon] + s by {
      assert [m, s][1..] == [s];
    }
    SplitJoin([m, s], Colon);
    assert Split(m + [Colon] + s, Colon) == [m, s];
    var parts := StripAll([m, s]);
    assert |parts| == 2 && parts[0] == Strip(m) && parts[1] == Strip(s);
    assert ReadClock(parts) == mv * 60 + sv;
  }

  /** Reading back a rendered duration gives the original seconds, for every
      integer (Python's floor division keeps it exact for negatives too). */
  lemma {:induction false} ClockRoundTrip(n: int)
    ensures ClockToSeconds(SecondsToTime(n)) == n
  {
    var rest := n % 3600;
    IntIsPlain(n / 3600);
    PadIsPlain(rest / 60);
    PadIsPlain(rest % 60);
    ClockThreeParts(IntToString(n / 3600), Pad2(rest / 60), Pad2(rest % 60), n / 3600, rest / 60, rest % 60);
  }

  /** The codec round trip on cells: time_to_seconds(seconds_to_time(n)) == n. */
  lemma {:induction false} RoundTrip(n: int)
    ensures TimeToSeconds(Text(SecondsToTime(n))) == n as real
  {
    ClockRoundTrip(n);
  }

  /** Worked readings of the codec. */
  lemma ExampleUncappedMinutes()
    ensures ClockToSeconds("90:00") == 5400
  {
    assert "90:00" == "90" + [Colon] + "00";
    assert ParseInt(Strip("90")) == Some(90);
    assert ParseInt(Strip("00")) == Some(0);
    ClockTwoParts("90", "00", 90, 0);
  }

  lemma ExampleSigned()
    ensures ClockToSeconds("-1:30") == -30
  {
    assert "-1:30" == "-1" + [Colon] + "30";
    assert !IsSpace('-') && !IsSpace('1') && !IsSpace('3') && !IsSpace('0');
    assert Strip("-1") == "-1" && Strip("30") == "30";
    assert "-1"[1..] == "1" && "30"[..1] == "3";
    assert DigitsValue("1") == 1 && DigitsValue("30") == 30;
    ClockTwoParts("-1", "30", -1, 30);
  }

  lemma ExampleEmptyPart()
    ensures ClockToSeconds("1::2") == 0
  {
    assert "1::2" == "1" + [Colon] + "" + [Colon] + "2";
    JoinThree("1", "", "2");
    SplitJoin(["1", "", "2"], Colon);
    assert ParseInt(Strip("")) == None;
    RejectedPart("1::2", 1);
  }

  lemma ExampleLetters()
    ensures ClockToSeconds("a:30") == 0
  {
    assert Join(["a", "30"], Colon) == "a:30";
    SplitJoin(["a", "30"], Colon);
    assert ParseInt(Strip("a")) == None;
    RejectedPart("a:30", 0);
  }

  lemma ExampleRender()
    ensures SecondsToTime(5400) == "1:30:00"
    ensures SecondsToTime(0) == "0:00:00"
  {
    assert 5400 / 3600 == 1 && 5400 % 3600 == 1800 && 1800 / 60 == 30 && 1800 % 60 == 0;
    assert IntToString(1) == "1" && IntToString(0) == "0";
    assert Pad2(30) == "30" && Pad2(0) == "00";
  }
}
