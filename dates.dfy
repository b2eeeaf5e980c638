/**
 * The calendar arithmetic behind `host_is_deprecate`: parsing `connect_date`
 * with `strptime(.., "%y/%m/%d")` and measuring time as Python's `datetime`
 * does, in whole microseconds on the proleptic Gregorian calendar.
 */
module Dates {
  import opened Wrappers

  datatype Date = Date(year: int, month: int, day: int)

  const MicrosPerDay: int := 86_400_000_000

  /** The years a two-digit `%y` can name (`00`..`68` are 2000..2068). */
  const MinYear: int := 1969
  const MaxYear: int := 2068

  predicate IsLeap(y: int) {
    y % 4 == 0 && (y % 100 != 0 || y % 400 == 0)
  }

  function DaysInMonth(y: int, m: int): (n: int)
    requires 1 <= m <= 12
    ensures 28 <= n <= 31
    ensures n == 29 <==> m == 2 && IsLeap(y)
  {
    if m == 2 then (if IsLeap(y) then 29 else 28)
    else if m == 4 || m == 6 || m == 9 || m == 11 then 30
    else 31
  }

  predicate Valid(d: Date) {
    1 <= d.year && 1 <= d.month <= 12 && 1 <= d.day <= DaysInMonth(d.year, d.month)
  }

  /** Days in the years before `y`, counted from 1 January of year 1. */
  function DaysBeforeYear(y: int): int
    requires 1 <= y
  {
    var p := y - 1;
    p * 365 + p / 4 - p / 100 + p / 400
  }

  /** Days in the months of year `y` before month `m`. */
  function DaysBeforeMonth(y: int, m: int): int
    requires 1 <= m <= 12
  {
    [0, 31, 59, 90, 120, 151, 181, 212, 243, 273, 304, 334][m - 1]
    + (if m > 2 && IsLeap(y) then 1 else 0)
  }

  /** `date.toordinal()`: 1 January of year 1 is day 1. */
  function Ordinal(d: Date): int
    requires Valid(d)
  {
    DaysBeforeYear(d.year) + DaysBeforeMonth(d.year, d.month) + d.day
  }

  /** The instant `datetime(year, month, day)`, midnight of `d`, in microseconds. */
  function Midnight(d: Date): int
    requires Valid(d)
  {
    Ordinal(d) * MicrosPerDay
  }

  /** The calendar day after `d`. */
  function Next(d: Date): (n: Date)
    requires Valid(d)
    ensures Valid(n)
  {
    if d.day < DaysInMonth(d.year, d.month) then Date(d.year, d.month, d.day + 1)
    else if d.month < 12 then Date(d.year, d.month + 1, 1)
    else Date(d.year + 1, 1, 1)
  }

  /** Going from `p` to `p + 1` passes a multiple of 4, 100 or 400 exactly
      when `p + 1` is one. */
  lemma DivStep4(p: int)
    requires 0 <= p
    ensures (p + 1) / 4 - p / 4 == if (p + 1) % 4 == 0 then 1 else 0
  {
    var q, r := p / 4, p % 4;
    assert p == 4 * q + r;
    if r == 3 { assert p + 1 == 4 * (q + 1); } else { assert p + 1 == 4 * q + (r + 1); }
  }

  lemma DivStep100(p: int)
    requires 0 <= p
    ensures (p + 1) / 100 - p / 100 == if (p + 1) % 100 == 0 then 1 else 0
  {
    var q, r := p / 100, p % 100;
    assert p == 100 * q + r;
    if r == 99 { assert p + 1 == 100 * (q + 1); } else { assert p + 1 == 100 * q + (r + 1); }
  }

  lemma DivStep400(p: int)
    requires 0 <= p
    ensures (p + 1) / 400 - p / 400 == if (p + 1) % 400 == 0 then 1 else 0
  {
    var q, r := p / 400, p % 400;
    assert p == 400 * q + r;
    if r == 399 { assert p + 1 == 400 * (q + 1); } else { assert p + 1 == 400 * q + (r + 1); }
  }

  lemma YearLength(y: int)
    requires 1 <= y
    ensures DaysBeforeYear(y + 1) == DaysBeforeYear(y) + (if IsLeap(y) then 366 else 365)
  {
    DivStep4(y - 1);
    DivStep100(y - 1);
    DivStep400(y - 1);
    if y % 100 == 0 {
      CenturyIsQuad(y);
    }
    if y % 400 == 0 {
      QuadCenturyIsCentury(y);
    }
  }

  lemma CenturyIsQuad(y: int)
    requires y % 100 == 0
    ensures y % 4 == 0
  {
    assert y == 4 * (25 * (y / 100));
  }

  lemma QuadCenturyIsCentury(y: int)
    requires y % 400 == 0
    ensures y % 100 == 0
  {
    assert y == 100 * (4 * (y / 400));
  }

  /** Consecutive calendar days have consecutive ordinals, so the difference
      of two `Midnight`s is the number of days between them. */
  lemma OrdinalNext(d: Date)
    requires Valid(d)
    ensures Ordinal(Next(d)) == Ordinal(d) + 1
  {
    if d.day == DaysInMonth(d.year, d.month) && d.month == 12 {
      YearLength(d.year);
    }
  }

  /** The date `n` days after `d`. */
  function AddDays(d: Date, n: nat): (e: Date)
    requires Valid(d)
    ensures Valid(e)
  {
    if n == 0 then d else Next(AddDays(d, n - 1))
  }

  lemma {:induction false} OrdinalAddDays(d: Date, n: nat)
    requires Valid(d)
    ensures Ordinal(AddDays(d, n)) == Ordinal(d) + n
  {
    if n > 0 {
      var e := AddDays(d, n - 1);
      OrdinalAddDays(d, n - 1);
      OrdinalNext(e);
      assert AddDays(d, n) == Next(e);
    }
  }

  predicate IsDigit(c: char) {
    '0' <= c <= '9'
  }

  function DigitValue(c: char): (v: int)
    requires IsDigit(c)
    ensures 0 <= v <= 9
  {
    c as int - '0' as int
  }

  /** `%y`: `00`..`68` are 2000..2068, `69`..`99` are 1969..1999. */
  function PivotYear(yy: int): (y: int)
    requires 0 <= yy <= 99
    ensures MinYear <= y <= MaxYear && y % 100 == yy
  {
    if yy <= 68 then 2000 + yy else 1900 + yy
  }

  /**
   * `%m` followed by the `/` separator: one of `1[0-2]`, `0[1-9]` or `[1-9]`,
   * then `/`. Gives the month and the number of characters read.
   */
  function ParseMonth(t: string): (r: Option<(int, nat)>)
    ensures r.Some? ==> 1 <= r.value.0 <= 12 && 2 <= r.value.1 <= 3 && r.value.1 <= |t|
    ensures r.Some? ==> t[r.value.1 - 1] == '/'
  {
    if 3 <= |t| && t[0] == '1' && '0' <= t[1] <= '2' && t[2] == '/' then
      Some((10 + DigitValue(t[1]), 3))
    else if 3 <= |t| && t[0] == '0' && '1' <= t[1] <= '9' && t[2] == '/' then
      Some((DigitValue(t[1]), 3))
    else if 2 <= |t| && '1' <= t[0] <= '9' && t[1] == '/' then
      Some((DigitValue(t[0]), 2))
    else None
  }

  /**
   * `%d` at the end of the string: the whole of `t` must be one of `3[01]`,
   * `[12]\d`, `0[1-9]`, `[1-9]` or ` [1-9]` (anything left over is the
   * "unconverted data remains" error).
   */
  function ParseDay(t: string): (r: Option<int>)
    ensures r.Some? ==> 1 <= r.value <= 31
  {
    if |t| == 2 && t[0] == '3' && '0' <= t[1] <= '1' then Some(30 + DigitValue(t[1]))
    else if |t| == 2 && '1' <= t[0] <= '2' && IsDigit(t[1]) then Some(10 * DigitValue(t[0]) + DigitValue(t[1]))
    else if |t| == 2 && t[0] == '0' && '1' <= t[1] <= '9' then Some(DigitValue(t[1]))
    else if |t| == 1 && '1' <= t[0] <= '9' then Some(DigitValue(t[0]))
    else if |t| == 2 && t[0] == ' ' && '1' <= t[1] <= '9' then Some(DigitValue(t[1]))
    else None
  }

  /**
   * `datetime.strptime(s, "%y/%m/%d")`: `None` where Python raises
   * `ValueError` (no match, text left over, or a day the month lacks).
   */
  function ParseDate(s: string): (r: Option<Date>)
    ensures r.Some? ==> Valid(r.value) && MinYear <= r.value.year <= MaxYear
    ensures r.Some? ==> |s| >= 6 && s[2] == '/'
  {
    if |s| < 3 || !IsDigit(s[0]) || !IsDigit(s[1]) || s[2] != '/' then None
    else
      var year := PivotYear(10 * DigitValue(s[0]) + DigitValue(s[1]));
      match ParseMonth(s[3..])
      case None => None
      case Some((month, used)) =>
        match ParseDay(s[3 + used..])
        case None => None
        case Some(day) =>
          if day <= DaysInMonth(year, month) then Some(Date(year, month, day)) else None
  }

  /** The decimal digit for `n`. */
  function Digit(n: int): (c: char)
    requires 0 <= n <= 9
    ensures IsDigit(c) && DigitValue(c) == n
  {
    ('0' as int + n) as char
  }

  /** `n` as two decimal digits, zero-padded. */
  function TwoDigits(n: int): (r: string)
    requires 0 <= n <= 99
    ensures |r| == 2 && IsDigit(r[0]) && IsDigit(r[1])
    ensures 10 * DigitValue(r[0]) + DigitValue(r[1]) == n
  {
    [Digit(n / 10), Digit(n % 10)]
  }

  /** Two digits spelling `n` are `TwoDigits(n)`. */
  lemma TwoDigitsUnique(t: string, n: int)
    requires |t| == 2 && IsDigit(t[0]) && IsDigit(t[1]) && 0 <= n <= 99
    requires 10 * DigitValue(t[0]) + DigitValue(t[1]) == n
    ensures t == TwoDigits(n)
  {
    assert DigitValue(t[0]) == n / 10 && DigitValue(t[1]) == n % 10;
  }

  /** The ways `%m` can spell month `m`: `MM`, or `M` below 10. */
  function MonthSpellings(m: int): set<string>
    requires 1 <= m <= 12
  {
    {TwoDigits(m)} + (if m <= 9 then {[Digit(m)]} else {})
  }

  /** The ways `%d` can spell day `x`: `DD`, or `D` or space-`D` below 10. */
  function DaySpellings(x: int): set<string>
    requires 1 <= x <= 31
  {
    {TwoDigits(x)} + (if x <= 9 then {[Digit(x)], [' ', Digit(x)]} else {})
  }

  /** Every string `"%y/%m/%d"` reads as the date `d`. */
  function Spellings(d: Date): set<string>
    requires Valid(d)
  {
    set ms, ds | ms in MonthSpellings(d.month) && ds in DaySpellings(d.day) ::
      TwoDigits(d.year % 100) + "/" + ms + "/" + ds
  }

  /** `d.strftime("%y/%m/%d")`, the form the router reports dates in. */
  function FormatDate(d: Date): (s: string)
    requires Valid(d)
  {
    TwoDigits(d.year % 100) + "/" + TwoDigits(d.month) + "/" + TwoDigits(d.day)
  }

  /** Parsing reads back every date a two-digit year can name. */
  lemma ParseFormat(d: Date)
    requires Valid(d) && MinYear <= d.year <= MaxYear
    ensures ParseDate(FormatDate(d)) == Some(d)
  {
    var s := FormatDate(d);
    var ys, ms, ds := TwoDigits(d.year % 100), TwoDigits(d.month), TwoDigits(d.day);
    assert s[0] == ys[0] && s[1] == ys[1] && s[2] == '/';
    PivotReadBack(d.year);
    assert s[3..] == ms + "/" + ds;
    MonthReadBack(d.month, ds);
    assert s[6..] == ds;
    DayReadBack(d.day);
  }

  lemma PivotReadBack(y: int)
    requires MinYear <= y <= MaxYear
    ensures PivotYear(y % 100) == y
  {
  }

  lemma MonthReadBack(m: int, rest: string)
    requires 1 <= m <= 12
    ensures ParseMonth(TwoDigits(m) + "/" + rest) == Some((m, 3))
  {
    var t := TwoDigits(m) + "/" + rest;
    assert t[0] == TwoDigits(m)[0] && t[1] == TwoDigits(m)[1] && t[2] == '/';
  }

  lemma DayReadBack(d: int)
    requires 1 <= d <= 31
    ensures ParseDay(TwoDigits(d)) == Some(d)
  {
  }

  /** `strptime` reads `s` as `d` exactly when `d` is a real date a two-digit
      year can name and `s` is one of its spellings; every other string
      raises. */
  lemma ParseDateSpellings(s: string, d: Date)
    ensures ParseDate(s) == Some(d) <==>
      Valid(d) && MinYear <= d.year <= MaxYear && s in Spellings(d)
  {
    if ParseDate(s) == Some(d) {
      ParsedIsSpelling(s);
    }
    if Valid(d) && MinYear <= d.year <= MaxYear && s in Spellings(d) {
      SpellingParses(s, d);
    }
  }

  lemma ParsedIsSpelling(s: string)
    requires ParseDate(s).Some?
    ensures s in Spellings(ParseDate(s).value)
  {
    var d := ParseDate(s).value;
    var yy := 10 * DigitValue(s[0]) + DigitValue(s[1]);
    var t := s[3..];
    var used := ParseMonth(t).value.1;
    MonthSpelled(t);
    DaySpelled(s[3 + used..]);
    var ms, ds := t[..used - 1], s[3 + used..];
    assert s == s[..2] + "/" + ms + "/" + ds;
    TwoDigitsUnique(s[..2], yy);
    assert s[..2] == TwoDigits(d.year % 100);
  }

  lemma SpellingParses(s: string, d: Date)
    requires Valid(d) && MinYear <= d.year <= MaxYear && s in Spellings(d)
    ensures ParseDate(s) == Some(d)
  {
    var ms, ds :| ms in MonthSpellings(d.month) && ds in DaySpellings(d.day) &&
                  s == TwoDigits(d.year % 100) + "/" + ms + "/" + ds;
    PartsParse(d, ms, ds);
  }

  lemma PartsParse(d: Date, ms: string, ds: string)
    requires Valid(d) && MinYear <= d.year <= MaxYear
    requires ms in MonthSpellings(d.month) && ds in DaySpellings(d.day)
    ensures ParseDate(TwoDigits(d.year % 100) + "/" + ms + "/" + ds) == Some(d)
  {
    var ys := TwoDigits(d.year % 100);
    var s := ys + "/" + ms + "/" + ds;
    assert s[0] == ys[0] && s[1] == ys[1] && s[2] == '/';
    PivotReadBack(d.year);
    assert PivotYear(10 * DigitValue(s[0]) + DigitValue(s[1])) == d.year;
    assert s[3..] == ms + "/" + ds;
    MonthReads(d.month, ms, ds);
    assert s[3 + |ms| + 1..] == ds;
    DayReads(d.day, ds);
  }

  /** What `ParseMonth` accepts, before its `/`, is a spelling of the month. */
  lemma MonthSpelled(t: string)
    requires ParseMonth(t).Some?
    ensures t[..ParseMonth(t).value.1 - 1] in MonthSpellings(ParseMonth(t).value.0)
  {
    var (m, used) := ParseMonth(t).value;
    if used == 3 {
      TwoDigitsUnique(t[..2], m);
    } else {
      assert t[..1] == [Digit(m)];
    }
  }

  lemma MonthReads(m: int, ms: string, rest: string)
    requires 1 <= m <= 12 && ms in MonthSpellings(m)
    ensures ParseMonth(ms + "/" + rest) == Some((m, |ms| + 1))
  {
    var t := ms + "/" + rest;
    if |ms| == 2 {
      assert t[0] == ms[0] && t[1] == ms[1] && t[2] == '/';
    } else {
      assert t[0] == ms[0] && t[1] == '/';
    }
  }

  /** What `ParseDay` accepts is a spelling of the day. */
  lemma DaySpelled(t: string)
    requires ParseDay(t).Some?
    ensures t in DaySpellings(ParseDay(t).value)
  {
    var x := ParseDay(t).value;
    if |t| == 2 && t[0] != ' ' {
      TwoDigitsUnique(t, x);
    } else if |t| == 1 {
      assert t == [Digit(x)];
    } else {
      assert t == [' ', Digit(x)];
    }
  }

  lemma DayReads(x: int, ds: string)
    requires 1 <= x <= 31 && ds in DaySpellings(x)
    ensures ParseDay(ds) == Some(x)
  {
  }

  /** A day the month lacks is rejected, not rolled over. */
  lemma RejectsMissingDay(yy: string)
    requires |yy| == 2 && IsDigit(yy[0]) && IsDigit(yy[1])
    requires !IsLeap(PivotYear(10 * DigitValue(yy[0]) + DigitValue(yy[1])))
    ensures ParseDate(yy + "/02/29") == None
  {
    var s := yy + "/02/29";
    assert s[3..] == "02/29";
    assert s[6..] == "29";
  }
}
