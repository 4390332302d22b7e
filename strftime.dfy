/** The two `strftime` formats the interpreter speaks, in the "C" locale
    (section 7.27.3.5 of ISO C11): `%I:%M %p` for the time and `%B %d, %Y`
    for the date. Each formatter has a parser beside it, and the round-trip
    lemmas show that the spoken text determines the clock reading it came from. */
module Strftime {
  import opened Wrappers
  import Text

  predicate IsDigit(c: char) {
    '0' <= c <= '9'
  }

  function DigitChar(d: int): (c: char)
    requires 0 <= d < 10
    ensures IsDigit(c)
  {
    ('0' as int + d) as char
  }

  function DigitValue(c: char): (d: int)
    requires IsDigit(c)
    ensures 0 <= d < 10
    ensures DigitChar(d) == c
  {
    c as int - '0' as int
  }

  /** A number below 100 as exactly two decimal digits, zero-padded
      (`%I`, `%M`, `%d`). */
  function TwoDigits(n: int): (r: string)
    requires 0 <= n < 100
    ensures |r| == 2 && IsDigit(r[0]) && IsDigit(r[1])
    ensures 10 * DigitValue(r[0]) + DigitValue(r[1]) == n
  {
    [DigitChar(n / 10), DigitChar(n % 10)]
  }

  /** The hour on the 12-hour clock: 0 and 12 both read as 12 (`%I`). */
  function Hour12(hour: int): (h: int)
    requires 0 <= hour < 24
    ensures 1 <= h <= 12
    ensures h % 12 == hour % 12
  {
    if hour % 12 == 0 then 12 else hour % 12
  }

  /** `%p`: "AM" before noon, "PM" from noon on. */
  function Meridiem(hour: int): (p: string)
    requires 0 <= hour < 24
    ensures p == "AM" || p == "PM"
    ensures p == "AM" <==> hour < 12
  {
    if hour < 12 then "AM" else "PM"
  }

  /** `%I:%M %p`, e.g. "07:05 PM". */
  function FormatTime(hour: int, minute: int): (r: string)
    requires 0 <= hour < 24 && 0 <= minute < 60
    ensures |r| == 8 && r[2] == ':' && r[5] == ' '
    ensures IsDigit(r[0]) && IsDigit(r[1]) && IsDigit(r[3]) && IsDigit(r[4])
    ensures 1 <= 10 * DigitValue(r[0]) + DigitValue(r[1]) <= 12
    ensures (10 * DigitValue(r[0]) + DigitValue(r[1])) % 12 == hour % 12
    ensures 10 * DigitValue(r[3]) + DigitValue(r[4]) == minute
    ensures r[6..] == "AM" <==> hour < 12
    ensures r[6..] == "AM" || r[6..] == "PM"
  {
    TwoDigits(Hour12(hour)) + ":" + TwoDigits(minute) + " " + Meridiem(hour)
  }

  /** Reads a time written as `%I:%M %p` back as a 24-hour hour and a minute. */
  function ParseTime(s: string): Option<(int, int)> {
    if |s| == 8 && IsDigit(s[0]) && IsDigit(s[1]) && s[2] == ':' && IsDigit(s[3]) && IsDigit(s[4])
       && s[5] == ' ' && (s[6..] == "AM" || s[6..] == "PM")
    then
      var h := 10 * DigitValue(s[0]) + DigitValue(s[1]);
      var m := 10 * DigitValue(s[3]) + DigitValue(s[4]);
      if 1 <= h <= 12 && m < 60 then Some((h % 12 + (if s[6..] == "PM" then 12 else 0), m))
      else None
    else None
  }

  /** The spoken time loses nothing: the hour and the minute can be read back. */
  lemma ParseFormatTime(hour: int, minute: int)
    requires 0 <= hour < 24 && 0 <= minute < 60
    ensures ParseTime(FormatTime(hour, minute)) == Some((hour, minute))
  {
    var s := FormatTime(hour, minute);
    assert s[..2] == TwoDigits(Hour12(hour));
    assert s[3..5] == TwoDigits(minute);
  }

  /** `%B` in the "C" locale. */
  function MonthName(month: int): (name: string)
    requires 1 <= month <= 12
    ensures |name| >= 3
    ensures forall i :: 0 <= i < |name| ==> name[i] != ' ' && !IsDigit(name[i])
  {
    match month
    case 1 => "January"
    case 2 => "February"
    case 3 => "March"
    case 4 => "April"
    case 5 => "May"
    case 6 => "June"
    case 7 => "July"
    case 8 => "August"
    case 9 => "September"
    case 10 => "October"
    case 11 => "November"
    case _ => "December"
  }

  function MonthNumber(name: string): Option<int> {
    if name == "January" then Some(1)
    else if name == "February" then Some(2)
    else if name == "March" then Some(3)
    else if name == "April" then Some(4)
    else if name == "May" then Some(5)
    else if name == "June" then Some(6)
    else if name == "July" then Some(7)
    else if name == "August" then Some(8)
    else if name == "September" then Some(9)
    else if name == "October" then Some(10)
    else if name == "November" then Some(11)
    else if name == "December" then Some(12)
    else None
  }

  lemma MonthNumberOfName(month: int)
    requires 1 <= month <= 12
    ensures MonthNumber(MonthName(month)) == Some(month)
  {
  }

  /** `%Y`: the year in decimal, without padding, so a positive number never
      starts with '0' and a number takes as many characters as it has digits. */
  function Decimal(n: nat): (r: string)
    ensures 1 <= |r|
    ensures forall i :: 0 <= i < |r| ==> IsDigit(r[i])
    ensures n < 10 <==> |r| == 1
    ensures n >= 1 ==> r[0] != '0'
    ensures 10 <= n < 100 ==> |r| == 2
    ensures 100 <= n < 1000 ==> |r| == 3
    ensures 1000 <= n < 10000 ==> |r| == 4
  {
    if n < 10 then [DigitChar(n)] else Decimal(n / 10) + [DigitChar(n % 10)]
  }

  function ParseDecimal(s: string): nat
    requires forall i :: 0 <= i < |s| ==> IsDigit(s[i])
  {
    if s == [] then 0 else 10 * ParseDecimal(s[..|s| - 1]) + DigitValue(s[|s| - 1])
  }

  lemma {:induction false} ParseDecimalOfDecimal(n: nat)
    ensures ParseDecimal(Decimal(n)) == n
  {
    if n >= 10 {
      var s := Decimal(n);
      assert s[..|s| - 1] == Decimal(n / 10);
      ParseDecimalOfDecimal(n / 10);
    }
  }

  /** Reads the `%d, %Y` part of a date back as (day, year). */
  function ParseDayYear(rest: string): Option<(int, int)> {
    if |rest| >= 5 && IsDigit(rest[0]) && IsDigit(rest[1]) && rest[2..4] == ", "
       && forall k :: 4 <= k < |rest| ==> IsDigit(rest[k])
    then Some((10 * DigitValue(rest[0]) + DigitValue(rest[1]), ParseDecimal(rest[4..])))
    else None
  }

  /** Reads a date written as `%B %d, %Y` back as (year, month, day). */
  function ParseDate(s: string): Option<(int, int, int)> {
    match Text.Find(s, " ")
    case None => None
    case Some(i) =>
      match (MonthNumber(s[..i]), ParseDayYear(s[i + 1..]))
      case (Some(month), Some((day, year))) => Some((year, month, day))
      case _ => None
  }

  lemma ParseDayYearParts(dd: string, ys: string)
    requires |dd| == 2 && IsDigit(dd[0]) && IsDigit(dd[1])
    requires |ys| >= 1 && forall i :: 0 <= i < |ys| ==> IsDigit(ys[i])
    ensures ParseDayYear(dd + ", " + ys) == Some((10 * DigitValue(dd[0]) + DigitValue(dd[1]), ParseDecimal(ys)))
  {
    var rest := dd + ", " + ys;
    assert rest[2..4] == ", ";
    assert rest[4..] == ys;
  }

  /** The first space of `name + " " + rest` is the one after `name` when
      `name` has none, and it splits the text back into its two parts. */
  lemma {:induction false} SplitAtSpace(name: string, rest: string)
    requires forall i :: 0 <= i < |name| ==> name[i] != ' '
    ensures Text.Find(name + " " + rest, " ") == Some(|name|)
    ensures (name + " " + rest)[..|name|] == name
    ensures (name + " " + rest)[|name| + 1..] == rest
  {
    var s := name + " " + rest;
    assert s[|name|..|name| + 1] == " ";
    assert Text.OccursAt(s, " ", |name|);
    forall j: nat | j < |name|
      ensures !Text.OccursAt(s, " ", j)
    {
      assert s[j..j + 1][0] == s[j] == name[j];
    }
  }

  lemma ParseDateParts(name: string, rest: string)
    requires forall i :: 0 <= i < |name| ==> name[i] != ' '
    requires MonthNumber(name).Some? && ParseDayYear(rest).Some?
    ensures ParseDate(name + " " + rest)
      == Some((ParseDayYear(rest).value.1, MonthNumber(name).value, ParseDayYear(rest).value.0))
  {
    SplitAtSpace(name, rest);
  }

  lemma ParseDayYearOfFormat(year: int, day: int)
    requires 1 <= year <= 9999 && 1 <= day <= 31
    ensures ParseDayYear(TwoDigits(day) + ", " + Decimal(year)) == Some((day, year))
  {
    ParseDayYearParts(TwoDigits(day), Decimal(year));
    ParseDecimalOfDecimal(year);
  }

  /** `%B %d, %Y`, e.g. "March 05, 2024". */
  function FormatDate(year: int, month: int, day: int): string
    requires 1 <= year <= 9999 && 1 <= month <= 12 && 1 <= day <= 31
  {
    MonthName(month) + " " + (TwoDigits(day) + ", " + Decimal(year))
  }

  /** The spoken date loses nothing: year, month and day can be read back. */
  lemma ParseFormatDate(year: int, month: int, day: int)
    requires 1 <= year <= 9999 && 1 <= month <= 12 && 1 <= day <= 31
    ensures ParseDate(FormatDate(year, month, day)) == Some((year, month, day))
  {
    MonthNumberOfName(month);
    ParseDayYearOfFormat(year, day);
    ParseDateParts(MonthName(month), TwoDigits(day) + ", " + Decimal(year));
  }
}
