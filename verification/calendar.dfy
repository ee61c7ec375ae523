/** Calendar dates of the hourly time index, and the 'y%Yd%j' period label
    (year, then day of the year) the source writes for shoulder periods. */
module Calendar {
  import opened Text

  datatype Date = Date(year: int, month: int, day: int)

  predicate IsLeap(y: int)
  {
    (y % 4 == 0 && y % 100 != 0) || y % 400 == 0
  }

  function MonthLength(y: int, m: int): (r: nat)
    requires 1 <= m <= 12
    ensures 28 <= r <= 31
    ensures r == 29 <==> m == 2 && IsLeap(y)
  {
    if m == 2 then (if IsLeap(y) then 29 else 28)
    else if m == 4 || m == 6 || m == 9 || m == 11 then 30
    else 31
  }

  /** A calendar date a pandas Timestamp can hold (years 1677 to 2262). */
  predicate ValidDate(d: Date)
  {
    1677 <= d.year <= 2262 && 1 <= d.month <= 12 && 1 <= d.day <= MonthLength(d.year, d.month)
  }

  /** The number of days of year `y` before month `m`. */
  function DaysBefore(y: int, m: int): (r: nat)
    requires 1 <= m <= 12
  {
    var cumulative := [0, 31, 59, 90, 120, 151, 181, 212, 243, 273, 304, 334];
    cumulative[m - 1] + (if IsLeap(y) && m > 2 then 1 else 0)
  }

  /** The table agrees with the month lengths. */
  lemma DaysBeforeStep(y: int, m: int)
    requires 1 <= m < 12
    ensures DaysBefore(y, m + 1) == DaysBefore(y, m) + MonthLength(y, m)
  {
  }

  lemma {:induction false} DaysBeforeMonotone(y: int, a: int, b: int)
    requires 1 <= a < b <= 12
    ensures DaysBefore(y, a) + MonthLength(y, a) <= DaysBefore(y, b)
    decreases b - a
  {
    DaysBeforeStep(y, a);
    if a + 1 < b {
      DaysBeforeMonotone(y, a + 1, b);
    }
  }

  /** `%j`: the day of the year, 1 on January 1. */
  function DayOfYear(d: Date): (r: nat)
    requires ValidDate(d)
    ensures 1 <= r <= (if IsLeap(d.year) then 366 else 365)
  {
    DaysBefore(d.year, d.month) + d.day
  }

  /** Within a year, the day of the year identifies the date. */
  lemma DayOfYearInjective(a: Date, b: Date)
    requires ValidDate(a) && ValidDate(b) && a.year == b.year
    requires DayOfYear(a) == DayOfYear(b)
    ensures a == b
  {
    if a.month < b.month {
      DaysBeforeMonotone(a.year, a.month, b.month);
    } else if b.month < a.month {
      DaysBeforeMonotone(a.year, b.month, a.month);
    }
  }

  /** `s` left-padded with zeros to `width` characters. */
  function Pad(s: string, width: nat): (r: string)
    requires forall i :: 0 <= i < |s| ==> IsDigit(s[i])
    ensures |r| == if |s| >= width then |s| else width
    ensures forall i :: 0 <= i < |r| ==> IsDigit(r[i])
    ensures DigitsValue(r) == DigitsValue(s)
    decreases width - |s|
  {
    if |s| >= width then s
    else
      LeadingZero(s);
      Pad("0" + s, width)
  }

  lemma {:induction false} LeadingZero(s: string)
    requires forall i :: 0 <= i < |s| ==> IsDigit(s[i])
    ensures forall i :: 0 <= i < |"0" + s| ==> IsDigit(("0" + s)[i])
    ensures DigitsValue("0" + s) == DigitsValue(s)
    decreases |s|
  {
    if |s| > 0 {
      var n := |s| - 1;
      LeadingZero(s[..n]);
      assert ("0" + s)[..|"0" + s| - 1] == "0" + s[..n];
    }
  }

  /** `strftime('y%Yd%j')`: 'y', the four-digit year, 'd', the day of the
      year on three digits. */
  function Label(d: Date): (r: string)
    requires ValidDate(d)
  {
    "y" + NatToString(d.year as nat) + "d" + Pad(NatToString(DayOfYear(d)), 3)
  }

  /** `strftime('%Y-%m-%d')`, the text the source looks a day up by. */
  function IsoDate(d: Date): (r: string)
    requires ValidDate(d)
  {
    NatToString(d.year as nat) + "-" + Pad(NatToString(d.month as nat), 2) + "-" + Pad(NatToString(d.day as nat), 2)
  }
}
