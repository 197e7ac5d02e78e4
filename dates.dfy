/** Calendar dates as the program reads them: `iso_date_to_datetime` parses
    a `YYYY-MM-DD` string with the `%Y-%m-%d` format and places it at
    00:00:00 UTC, panicking on a malformed date. Here the parse is a strict
    validator (four-digit year, two-digit month and day, a real day of the
    proleptic Gregorian calendar) and the panic is a `None`. */
module Dates {
  import opened Wrappers
  import opened Text

  datatype Date = Date(year: nat, month: nat, day: nat)

  /** A UTC timestamp, `chrono::DateTime<Utc>` to the second. */
  datatype DateTime = DateTime(date: Date, hour: nat, minute: nat, second: nat)

  predicate IsLeapYear(y: nat) {
    y % 4 == 0 && (y % 100 != 0 || y % 400 == 0)
  }

  function DaysInMonth(y: nat, m: nat): (days: nat)
    requires 1 <= m <= 12
  {
    if m == 2 then (if IsLeapYear(y) then 29 else 28)
    else if m == 4 || m == 6 || m == 9 || m == 11 then 30
    else 31
  }

  predicate ValidDate(d: Date) {
    d.year <= 9999 && 1 <= d.month <= 12 && 1 <= d.day <= DaysInMonth(d.year, d.month)
  }

  function Pow10(w: nat): (p: nat)
    ensures p >= 1
  {
    if w == 0 then 1 else 10 * Pow10(w - 1)
  }

  /** `n` in exactly `width` decimal digits, zero-padded on the left. */
  function Padded(n: nat, width: nat): (s: string)
    requires n < Pow10(width)
    ensures |s| == width && AllDigits(s)
  {
    if width == 0 then [] else Padded(n / 10, width - 1) + [DigitChar(n % 10)]
  }

  lemma {:induction false} PaddedValue(n: nat, width: nat)
    requires n < Pow10(width)
    ensures DecimalValue(Padded(n, width)) == n
  {
    if width > 0 {
      var s := Padded(n, width);
      assert s[..|s| - 1] == Padded(n / 10, width - 1);
      PaddedValue(n / 10, width - 1);
    }
  }

  lemma {:induction false} ValueThenPadded(s: string)
    requires AllDigits(s)
    ensures DecimalValue(s) < Pow10(|s|)
    ensures Padded(DecimalValue(s), |s|) == s
  {
    if s != [] {
      var init := s[..|s| - 1];
      ValueThenPadded(init);
      var n := DecimalValue(s);
      assert n / 10 == DecimalValue(init) && n % 10 == DigitValue(s[|s| - 1]);
      assert DigitChar(n % 10) == s[|s| - 1];
      assert s == init + [s[|s| - 1]];
    }
  }

  /** The `%Y-%m-%d` rendering of a date with a year below 10000. */
  function FormatDate(d: Date): (s: string)
    requires ValidDate(d)
    ensures |s| == 10
  {
    Padded(d.year, 4) + "-" + Padded(d.month, 2) + "-" + Padded(d.day, 2)
  }

  predicate IsDateShape(s: string) {
    |s| == 10 && s[4] == '-' && s[7] == '-'
    && AllDigits(s[0..4]) && AllDigits(s[5..7]) && AllDigits(s[8..10])
  }

  /** `NaiveDate::parse_from_str(s, "%Y-%m-%d")`, strict: the whole string
      is `YYYY-MM-DD` and names a day of the calendar. */
  function ParseDate(s: string): (r: Option<Date>)
    ensures r.Some? ==> ValidDate(r.value)
  {
    if !IsDateShape(s) then None
    else
      var d := Date(DecimalValue(s[0..4]), DecimalValue(s[5..7]), DecimalValue(s[8..10]));
      if ValidDate(d) then Some(d) else None
  }

  /** Every valid date is read back from its rendering. */
  lemma ParseFormatDate(d: Date)
    requires ValidDate(d)
    ensures ParseDate(FormatDate(d)) == Some(d)
  {
    var s := FormatDate(d);
    assert s[0..4] == Padded(d.year, 4);
    assert s[5..7] == Padded(d.month, 2);
    assert s[8..10] == Padded(d.day, 2);
    PaddedValue(d.year, 4);
    PaddedValue(d.month, 2);
    PaddedValue(d.day, 2);
  }

  /** The parse is canonical: a string it accepts is the rendering of the
      date it returns, so no other spelling of a date is accepted. */
  lemma ParsedDateIsCanonical(s: string)
    requires ParseDate(s).Some?
    ensures FormatDate(ParseDate(s).value) == s
  {
    var d := ParseDate(s).value;
    ValueThenPadded(s[0..4]);
    ValueThenPadded(s[5..7]);
    ValueThenPadded(s[8..10]);
    assert s == s[0..4] + "-" + s[5..7] + "-" + s[8..10];
  }

  /** `iso_date_to_datetime`: the date the string spells, at midnight UTC;
      `None` (the program's panic) exactly when no valid date is spelled
      that way. */
  function IsoDateToDateTime(s: string): (r: Option<DateTime>)
    ensures r.Some? ==> ValidDate(r.value.date) && FormatDate(r.value.date) == s
    ensures r.Some? ==> r.value.hour == 0 && r.value.minute == 0 && r.value.second == 0
    ensures r.None? ==> forall d: Date | ValidDate(d) :: FormatDate(d) != s
  {
    match ParseDate(s)
    case Some(d) =>
      ParsedDateIsCanonical(s);
      Some(DateTime(d, 0, 0, 0))
    case None =>
      assert forall d: Date | ValidDate(d) :: FormatDate(d) != s by {
        forall d: Date | ValidDate(d) ensures FormatDate(d) != s {
          ParseFormatDate(d);
        }
      }
      None
  }

  /** A timestamp with a time part, such as `2024-01-01T00:00:00Z`, is not a
      `%Y-%m-%d` date, and neither is a day the calendar does not have. */
  lemma TimePartRejected()
    ensures IsoDateToDateTime("2024-01-01T00:00:00Z") == None
    ensures IsoDateToDateTime("2024-02-30") == None
  {
    var s := "2024-02-30";
    assert s[5..7] == "02" && s[8..10] == "30";
    assert DecimalValue("02") == 2 by {
      assert "02"[..1] == "0" && "0"[..0] == "";
    }
    assert DecimalValue("30") == 30 by {
      assert "30"[..1] == "3" && "3"[..0] == "";
    }
  }
}
