/** Proleptic Gregorian calendar over day numbers counted from 1970-01-01,
    and the extended calendar date representation YYYY-MM-DD of section
    4.1.2.2 of ISO 8601:2004 that Qt::ISODate produces for a QDate. */
module Calendar {
  import opened Strings

  const MsPerDay: nat := 86400000

  datatype Date = Date(year: nat, month: nat, day: nat)

  predicate IsLeap(y: nat) { y % 4 == 0 && (y % 100 != 0 || y % 400 == 0) }

  function DaysInMonth(y: nat, m: nat): (n: nat)
    requires 1 <= m <= 12
    ensures 28 <= n <= 31
  {
    if m == 2 then (if IsLeap(y) then 29 else 28)
    else if m == 4 || m == 6 || m == 9 || m == 11 then 30
    else 31
  }

  /** Days of year y from the first day of month m to the end of the year. */
  function DaysFromMonth(y: nat, m: nat): nat
    requires 1 <= m
    decreases 13 - m
  {
    if m > 12 then 0 else DaysInMonth(y, m) + DaysFromMonth(y, m + 1)
  }

  function DaysInYear(y: nat): nat { DaysFromMonth(y, 1) }

  lemma DaysInYearValue(y: nat)
    ensures DaysInYear(y) == if IsLeap(y) then 366 else 365
  {
    assert DaysFromMonth(y, 13) == 0;
    assert DaysFromMonth(y, 12) == 31;
    assert DaysFromMonth(y, 11) == 61;
    assert DaysFromMonth(y, 10) == 92;
    assert DaysFromMonth(y, 9) == 122;
    assert DaysFromMonth(y, 8) == 153;
    assert DaysFromMonth(y, 7) == 184;
    assert DaysFromMonth(y, 6) == 214;
    assert DaysFromMonth(y, 5) == 245;
    assert DaysFromMonth(y, 4) == 275;
    assert DaysFromMonth(y, 3) == 306;
  }

  predicate ValidDate(d: Date)
  {
    1 <= d.month <= 12 && 1 <= d.day <= DaysInMonth(d.year, d.month)
  }

  /** Date of the n-th day of year y counted from the first day of month m. */
  function MonthWalk(n: nat, y: nat, m: nat): (d: Date)
    requires 1 <= m <= 12 && n < DaysFromMonth(y, m)
    ensures ValidDate(d) && d.year == y && m <= d.month
    decreases 13 - m
  {
    if n < DaysInMonth(y, m) then Date(y, m, n + 1)
    else MonthWalk(n - DaysInMonth(y, m), y, m + 1)
  }

  function YearWalk(n: nat, y: nat): (d: Date)
    ensures ValidDate(d) && y <= d.year
    decreases n
  {
    DaysInYearValue(y);
    if n < DaysInYear(y) then MonthWalk(n, y, 1)
    else YearWalk(n - DaysInYear(y), y + 1)
  }

  /** The calendar date of day number n (0 is 1970-01-01). */
  function FromDays(n: nat): (d: Date)
    ensures ValidDate(d) && d.year >= 1970
  {
    YearWalk(n, 1970)
  }

  function DaysBeforeYear(y: nat): nat
    requires y >= 1970
    decreases y
  {
    if y == 1970 then 0 else DaysBeforeYear(y - 1) + DaysInYear(y - 1)
  }

  function DaysBeforeMonth(y: nat, m: nat): nat
    requires 1 <= m <= 13
  {
    if m == 1 then 0 else DaysBeforeMonth(y, m - 1) + DaysInMonth(y, m - 1)
  }

  /** Day number of a calendar date on or after 1970-01-01: the reference for FromDays. */
  function ToDays(d: Date): nat
    requires ValidDate(d) && d.year >= 1970
  {
    DaysBeforeYear(d.year) + DaysBeforeMonth(d.year, d.month) + d.day - 1
  }

  lemma {:induction false} MonthsPartition(y: nat, m: nat)
    requires 1 <= m <= 13
    ensures DaysBeforeMonth(y, m) + DaysFromMonth(y, m) == DaysInYear(y)
    decreases m
  {
    if m > 1 { MonthsPartition(y, m - 1); }
  }

  lemma {:induction false} MonthWalkDays(n: nat, y: nat, m: nat)
    requires 1 <= m <= 12 && n < DaysFromMonth(y, m)
    ensures DaysBeforeMonth(y, MonthWalk(n, y, m).month) + MonthWalk(n, y, m).day - 1
            == DaysBeforeMonth(y, m) + n
    decreases 13 - m
  {
    if n >= DaysInMonth(y, m) {
      MonthWalkDays(n - DaysInMonth(y, m), y, m + 1);
    }
  }

  lemma InFirstYear(n: nat, y: nat)
    requires y >= 1970 && n < DaysInYear(y)
    ensures ToDays(YearWalk(n, y)) == DaysBeforeYear(y) + n
  {
    var d := MonthWalk(n, y, 1);
    assert YearWalk(n, y) == d;
    MonthWalkDays(n, y, 1);
    assert DaysBeforeMonth(y, 1) == 0;
  }

  lemma {:induction false} YearWalkDays(n: nat, y: nat)
    requires y >= 1970
    ensures ToDays(YearWalk(n, y)) == DaysBeforeYear(y) + n
    decreases n
  {
    if n < DaysInYear(y) {
      InFirstYear(n, y);
    } else {
      var rest := n - DaysInYear(y);
      assert YearWalk(n, y) == YearWalk(rest, y + 1);
      YearWalkDays(rest, y + 1);
      assert DaysBeforeYear(y + 1) == DaysBeforeYear(y) + DaysInYear(y);
    }
  }

  /** Converting a day number to a date and back is the identity. */
  lemma FromDaysToDays(n: nat)
    ensures ToDays(FromDays(n)) == n
  {
    YearWalkDays(n, 1970);
  }

  lemma FromDaysInjective(a: nat, b: nat)
    requires FromDays(a) == FromDays(b)
    ensures a == b
  {
    FromDaysToDays(a);
    FromDaysToDays(b);
  }

  /** Zero-padded decimal field of w digits. */
  function Pad(v: nat, w: nat): (s: string)
    ensures |s| == w && AllDigits(s)
    decreases w
  {
    if w == 0 then [] else Pad(v / 10, w - 1) + [DigitChar(v % 10)]
  }

  function Pow10(w: nat): (p: nat)
    ensures p >= 1
  {
    if w == 0 then 1 else 10 * Pow10(w - 1)
  }

  lemma {:induction false} PadValue(v: nat, w: nat)
    requires v < Pow10(w)
    ensures DigitsValue(Pad(v, w)) == v
    decreases w
  {
    if w > 0 {
      var s := Pad(v, w);
      assert s[..|s| - 1] == Pad(v / 10, w - 1);
      PadValue(v / 10, w - 1);
    }
  }

  /** Qt::ISODate text of a calendar date: empty outside the years 0..9999. */
  function IsoDateText(d: Date): (s: string)
  {
    if d.year > 9999 then ""
    else Pad(d.year, 4) + "-" + Pad(d.month, 2) + "-" + Pad(d.day, 2)
  }

  function IsoDate(n: nat): string { IsoDateText(FromDays(n)) }

  /** Reads a YYYY-MM-DD text back into a date. */
  function ParseIsoDate(s: string): (r: Option<Date>)
  {
    if |s| == 10 && s[4] == '-' && s[7] == '-'
       && AllDigits(s[..4]) && AllDigits(s[5..7]) && AllDigits(s[8..])
    then Some(Date(DigitsValue(s[..4]), DigitsValue(s[5..7]), DigitsValue(s[8..])))
    else None
  }

  /** Every representable date renders as exactly ten characters YYYY-MM-DD. */
  lemma IsoDateShape(d: Date)
    requires d.year <= 9999
    ensures var s := IsoDateText(d);
      |s| == 10 && s[4] == '-' && s[7] == '-'
      && AllDigits(s[..4]) && AllDigits(s[5..7]) && AllDigits(s[8..])
  {
    var s := IsoDateText(d);
    assert s[..4] == Pad(d.year, 4);
    assert s[5..7] == Pad(d.month, 2);
    assert s[8..] == Pad(d.day, 2);
  }

  /** A date text never contains '.', so it cannot be confused with the
      extension part of a file name. */
  lemma IsoDateNoDot(n: nat)
    ensures '.' !in IsoDate(n)
  {
    var d := FromDays(n);
    if d.year <= 9999 {
      var s := IsoDate(n);
      IsoDateShape(d);
      forall i | 0 <= i < |s| ensures s[i] != '.' {
        if i < 4 { assert s[i] == s[..4][i]; }
        else if 4 < i < 7 { assert s[i] == s[5..7][i - 5]; }
        else if 7 < i { assert s[i] == s[8..][i - 8]; }
      }
    }
  }

  lemma IsoDateRoundTrip(d: Date)
    requires ValidDate(d) && d.year <= 9999
    ensures ParseIsoDate(IsoDateText(d)) == Some(d)
  {
    var s := IsoDateText(d);
    IsoDateShape(d);
    assert s[..4] == Pad(d.year, 4);
    assert s[5..7] == Pad(d.month, 2);
    assert s[8..] == Pad(d.day, 2);
    assert Pow10(4) == 10000 && Pow10(2) == 100;
    PadValue(d.year, 4);
    PadValue(d.month, 2);
    PadValue(d.day, 2);
  }

  /** Two different days of the years up to 9999 never share a date text,
      so the dated names of day rotation are distinct per day. */
  lemma IsoDateInjective(a: nat, b: nat)
    requires FromDays(a).year <= 9999 && FromDays(b).year <= 9999
    requires IsoDate(a) == IsoDate(b)
    ensures a == b
  {
    IsoDateRoundTrip(FromDays(a));
    IsoDateRoundTrip(FromDays(b));
    FromDaysInjective(a, b);
  }
}
