/**
  The clock texts the timer shows: Python's `int(x)` truncation of a float, its
  `format(n, "02d")` zero padding, and the "MM:SS" and "HH:MM:SS" renderings built
  from them. `ParseClock` reads such a text back; the renderings are specified by
  what it recovers from them.
*/
module TimeFormat {
  import opened Wrappers

  /** Python's `int(x)` on a float: truncation toward zero. */
  function Trunc(x: real): (t: int)
    ensures 0.0 <= x ==> 0 <= t && t as real <= x < t as real + 1.0
    ensures x < 0.0 ==> t <= 0 && x <= t as real && (t as real) < x + 1.0
  {
    if 0.0 <= x then x.Floor else -((-x).Floor)
  }

  predicate IsDigit(c: char) {
    '0' <= c <= '9'
  }

  predicate AllDigits(s: string) {
    forall i :: 0 <= i < |s| ==> IsDigit(s[i])
  }

  function DigitChar(d: int): (c: char)
    requires 0 <= d < 10
    ensures IsDigit(c) && c as int - '0' as int == d
  {
    (d + '0' as int) as char
  }

  /** Decimal digits of `n`, most significant first, without leading zeros. */
  function Decimal(n: nat): (s: string)
    ensures 1 <= |s| && AllDigits(s)
    ensures |s| == 1 <==> n < 10
    ensures n < 100 ==> |s| <= 2
    ensures s[0] == '0' <==> n == 0
    decreases n
  {
    if n < 10 then [DigitChar(n)] else Decimal(n / 10) + [DigitChar(n % 10)]
  }

  /** The number a string of decimal digits denotes (leading zeros allowed). */
  function DigitsValue(s: string): nat
    requires AllDigits(s)
    decreases |s|
  {
    if s == [] then 0 else DigitsValue(s[..|s| - 1]) * 10 + (s[|s| - 1] as int - '0' as int)
  }

  lemma {:induction false} DecimalRoundTrip(n: nat)
    ensures DigitsValue(Decimal(n)) == n
    decreases n
  {
    if 10 <= n {
      var s := Decimal(n);
      assert s[..|s| - 1] == Decimal(n / 10);
      DecimalRoundTrip(n / 10);
    }
  }

  lemma {:induction false} LeadingZero(s: string)
    requires AllDigits(s)
    ensures AllDigits("0" + s) && DigitsValue("0" + s) == DigitsValue(s)
    decreases |s|
  {
    if s != [] {
      assert ("0" + s)[..|s|] == "0" + s[..|s| - 1];
      LeadingZero(s[..|s| - 1]);
    }
  }

  /** A decimal integer with an optional leading minus sign. */
  function ParseInt(s: string): Option<int> {
    if 2 <= |s| && s[0] == '-' && AllDigits(s[1..]) then Some(-(DigitsValue(s[1..]) as int))
    else if 1 <= |s| && AllDigits(s) then Some(DigitsValue(s))
    else None
  }

  /** Decimal digits zero-padded to two places: a leading zero only in a two-digit field. */
  predicate Padded2(f: string) {
    2 <= |f| && AllDigits(f) && (f[0] == '0' ==> |f| == 2)
  }

  /** Python's `format(n, "02d")`: at least two characters, zero-filled after any sign. */
  function Pad2(n: int): (s: string)
    ensures 2 <= |s|
    ensures 0 <= n < 100 ==> |s| == 2
    ensures 0 <= n ==> Padded2(s)
    ensures n < 0 ==> s[0] == '-' && AllDigits(s[1..]) && s[1] != '0'
    ensures ':' !in s
    ensures ParseInt(s) == Some(n)
  {
    if n < 0 then
      Pad2Negative(n);
      "-" + Decimal(-n)
    else if n < 10 then
      Pad2OneDigit(n);
      "0" + Decimal(n)
    else
      Pad2Wide(n);
      Decimal(n)
  }

  /** A digit string holds no colon. */
  lemma NoColon(s: string)
    requires AllDigits(s)
    ensures ':' !in s
  {
  }

  /** `Pad2` of a negative number: the sign, then the digits of its magnitude. */
  lemma Pad2Negative(n: int)
    requires n < 0
    ensures var s := "-" + Decimal(-n);
              2 <= |s| && s[0] == '-' && AllDigits(s[1..]) && s[1] != '0'
              && ':' !in s && ParseInt(s) == Some(n)
  {
    var d := Decimal(-n);
    var s := "-" + d;
    assert s[1..] == d && s[1] == d[0];
    DecimalRoundTrip(-n);
    NoColon(d);
    assert ':' !in s by {
      assert s[0] != ':';
      forall i | 1 <= i < |s| ensures s[i] != ':' {
        assert s[i] == d[i - 1];
      }
    }
  }

  /** `Pad2` of a single digit: a zero, then the digit. */
  lemma Pad2OneDigit(n: int)
    requires 0 <= n < 10
    ensures var s := "0" + Decimal(n);
              |s| == 2 && Padded2(s) && ':' !in s && ParseInt(s) == Some(n)
  {
    var d := Decimal(n);
    DecimalRoundTrip(n);
    LeadingZero(d);
    var s := "0" + d;
    assert |s| == 2 && s[0] != '-';
    NoColon(s);
  }

  /** `Pad2` of a number of two digits or more: its digits unchanged. */
  lemma Pad2Wide(n: int)
    requires 10 <= n
    ensures var s := Decimal(n);
              2 <= |s| && (n < 100 ==> |s| == 2) && Padded2(s)
              && ':' !in s && ParseInt(s) == Some(n)
  {
    var s := Decimal(n);
    DecimalRoundTrip(n);
    assert s[0] != '-';
    NoColon(s);
  }

  /** The pieces of `s` between colons, as Python's `s.split(":")` gives them. */
  function Fields(s: string): (r: seq<string>)
    ensures 1 <= |r|
    decreases |s|
  {
    if s == [] then [""]
    else
      var rest := Fields(s[1..]);
      if s[0] == ':' then [""] + rest else [[s[0]] + rest[0]] + rest[1..]
  }

  lemma {:induction false} FieldsOfPiece(a: string)
    requires ':' !in a
    ensures Fields(a) == [a]
    decreases |a|
  {
    if a != [] {
      FieldsOfPiece(a[1..]);
      assert [a[0]] + a[1..] == a;
    }
  }

  lemma {:induction false} FieldsOfJoin(a: string, b: string)
    requires ':' !in a
    ensures Fields(a + ":" + b) == [a] + Fields(b)
    decreases |a|
  {
    var s := a + ":" + b;
    if a == [] {
      assert s[1..] == b;
    } else {
      assert s[1..] == a[1..] + ":" + b;
      FieldsOfJoin(a[1..], b);
      assert [a[0]] + a[1..] == a;
    }
  }

  function ParseFields(fs: seq<string>): (r: Option<seq<int>>)
    ensures r.Some? ==> |r.value| == |fs|
    decreases |fs|
  {
    if fs == [] then Some([])
    else
      match (ParseInt(fs[0]), ParseFields(fs[1..]))
      case (Some(x), Some(xs)) => Some([x] + xs)
      case _ => None
  }

  lemma ParseCons(f: string, fs: seq<string>, x: int, xs: seq<int>)
    requires ParseInt(f) == Some(x) && ParseFields(fs) == Some(xs)
    ensures ParseFields([f] + fs) == Some([x] + xs)
  {
    assert ([f] + fs)[1..] == fs;
  }

  /** The integer fields of a colon-separated clock text, if every field is an integer. */
  function ParseClock(s: string): Option<seq<int>> {
    ParseFields(Fields(s))
  }

  /** "MM:SS" for `t` whole seconds; the minute field grows past two digits instead of rolling into hours. */
  function MinutesSeconds(t: int): (s: string)
    ensures ParseClock(s).Some? && |ParseClock(s).value| == 2
    ensures var f := ParseClock(s).value; f[0] * 60 + f[1] == t && 0 <= f[1] < 60
    ensures 0 <= t ==> 0 <= ParseClock(s).value[0]
    ensures |Fields(s)| == 2 && Padded2(Fields(s)[1]) && (0 <= t ==> Padded2(Fields(s)[0]))
    ensures 0 <= t < 6000 ==> |s| == 5
  {
    var mm, ss := Pad2(t / 60), Pad2(t % 60);
    FieldsOfJoin(mm, ss);
    FieldsOfPiece(ss);
    assert Fields(mm + ":" + ss) == [mm] + [ss];
    ParseCons(ss, [], t % 60, []);
    assert [ss] + [] == [ss] && [t % 60] + [] == [t % 60];
    ParseCons(mm, [ss], t / 60, [t % 60]);
    mm + ":" + ss
  }

  /** "HH:MM:SS" for `t` whole seconds. */
  function HoursMinutesSeconds(t: int): (s: string)
    ensures ParseClock(s).Some? && |ParseClock(s).value| == 3
    ensures var f := ParseClock(s).value;
      f[0] * 3600 + f[1] * 60 + f[2] == t && 0 <= f[1] < 60 && 0 <= f[2] < 60
    ensures 0 <= t ==> 0 <= ParseClock(s).value[0]
    ensures |Fields(s)| == 3 && Padded2(Fields(s)[1]) && Padded2(Fields(s)[2])
    ensures 0 <= t ==> Padded2(Fields(s)[0])
    ensures 0 <= t < 360000 ==> |s| == 8
  {
    var hh, mm, ss := Pad2(t / 3600), Pad2((t % 3600) / 60), Pad2(t % 60);
    SplitSeconds(t);
    FieldsOfJoin(hh, mm + ":" + ss);
    FieldsOfJoin(mm, ss);
    FieldsOfPiece(ss);
    assert hh + ":" + mm + ":" + ss == hh + ":" + (mm + ":" + ss);
    assert Fields(hh + ":" + mm + ":" + ss) == [hh] + ([mm] + [ss]);
    ParseCons(ss, [], t % 60, []);
    assert [ss] + [] == [ss] && [t % 60] + [] == [t % 60];
    ParseCons(mm, [ss], (t % 3600) / 60, [t % 60]);
    assert [(t % 3600) / 60] + [t % 60] == [(t % 3600) / 60, t % 60];
    ParseCons(hh, [mm] + [ss], t / 3600, [(t % 3600) / 60, t % 60]);
    hh + ":" + mm + ":" + ss
  }

  /** Seconds within the minute are the same whether taken from `t` or from its remainder within the hour. */
  lemma SplitSeconds(t: int)
    ensures (t % 3600) % 60 == t % 60
    ensures (t / 3600) * 3600 + ((t % 3600) / 60) * 60 + t % 60 == t
  {
    var q, r := t / 3600, t % 3600;
    var a, b := r / 60, r % 60;
    assert t == (q * 60 + a) * 60 + b;
  }
}
