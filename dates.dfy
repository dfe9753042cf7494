/**
 * Calendar dates as the back end reads and writes them with Python's
 * `datetime.strptime(s, "%Y-%m-%d")` and `date.strftime("%Y-%m-%d")`, and the
 * `^\d{4}-\d{2}-\d{2}$` shape test the front end applies to date inputs.
 */
module Dates {
  import opened Wrappers
  import opened Text

  datatype Date = Date(year: int, month: int, day: int)

  predicate IsLeap(y: int) {
    y % 4 == 0 && (y % 100 != 0 || y % 400 == 0)
  }

  function DaysInMonth(y: int, m: int): (n: int)
    requires 1 <= m <= 12
    ensures 28 <= n <= 31
  {
    if m == 2 then (if IsLeap(y) then 29 else 28)
    else if m == 4 || m == 6 || m == 9 || m == 11 then 30
    else 31
  }

  /** The dates Python's `datetime.date` can represent. */
  predicate ValidDate(d: Date) {
    1 <= d.year <= 9999 && 1 <= d.month <= 12 && 1 <= d.day <= DaysInMonth(d.year, d.month)
  }

  /** A date value as Python holds it in a `date` object or a DATE column. */
  type CalendarDate = d: Date | ValidDate(d) witness Date(1, 1, 1)

  /** Chronological order (Python's `date < date`, SQL comparison of DATE columns). */
  predicate Before(a: Date, b: Date) {
    a.year < b.year
    || (a.year == b.year && a.month < b.month)
    || (a.year == b.year && a.month == b.month && a.day < b.day)
  }

  predicate NotAfter(a: Date, b: Date) { a == b || Before(a, b) }

  lemma BeforeTotal(a: Date, b: Date)
    ensures Before(a, b) || a == b || Before(b, a)
    ensures !(Before(a, b) && Before(b, a))
  {
  }

  /** `%m`, which CPython matches with `1[0-2]|0[1-9]|[1-9]` and must be followed by `-`:
    * the month value and the number of characters it took, or None. */
  function MatchMonth(s: string): (r: Option<(int, nat)>)
    ensures r.Some? ==> 1 <= r.value.0 <= 12 && 1 <= r.value.1 <= 2
    ensures r.Some? ==> r.value.1 < |s| && s[r.value.1] == '-' && AllDigits(s[..r.value.1])
    ensures r.Some? ==> DecimalValue(s[..r.value.1]) == r.value.0
  {
    if |s| >= 3 && s[0] == '1' && '0' <= s[1] <= '2' && s[2] == '-' then
      TwoDigitValue(s);
      Some((10 + DigitValue(s[1]), 2))
    else if |s| >= 3 && s[0] == '0' && '1' <= s[1] <= '9' && s[2] == '-' then
      TwoDigitValue(s);
      Some((DigitValue(s[1]), 2))
    else if |s| >= 2 && '1' <= s[0] <= '9' && s[1] == '-' then
      OneDigitValue(s);
      Some((DigitValue(s[0]), 1))
    else None
  }

  /** `%d`, which CPython matches with `3[01]|[12]\d|0[1-9]|[1-9]| [1-9]`, taking the
    * first alternative that matches: the day value and the characters it took. */
  function MatchDay(s: string): (r: Option<(int, nat)>)
    ensures r.Some? ==> 1 <= r.value.0 <= 31 && 1 <= r.value.1 <= 2 && r.value.1 <= |s|
    ensures r.None? <==> (s == [] || !(('1' <= s[0] <= '9') || (|s| >= 2 && (s[0] == '0' || s[0] == ' ') && '1' <= s[1] <= '9')))
    ensures r.Some? && r.value.1 == 2 && IsDigit(s[0]) ==> IsDigit(s[1]) && r.value.0 == 10 * DigitValue(s[0]) + DigitValue(s[1])
  {
    if |s| >= 2 && s[0] == '3' && '0' <= s[1] <= '1' then Some((30 + DigitValue(s[1]), 2))
    else if |s| >= 2 && '1' <= s[0] <= '2' && IsDigit(s[1]) then Some((10 * DigitValue(s[0]) + DigitValue(s[1]), 2))
    else if |s| >= 2 && s[0] == '0' && '1' <= s[1] <= '9' then Some((DigitValue(s[1]), 2))
    else if |s| >= 1 && '1' <= s[0] <= '9' then Some((DigitValue(s[0]), 1))
    else if |s| >= 2 && s[0] == ' ' && '1' <= s[1] <= '9' then Some((DigitValue(s[1]), 2))
    else None
  }

  /**
   * `datetime.strptime(s, "%Y-%m-%d")`: None where Python raises ValueError
   * (no match, unconverted data left over, or a day or year out of range).
   */
  function ParseYmd(s: string): (r: Option<Date>)
    ensures r.Some? ==> ValidDate(r.value)
    ensures r.Some? ==> 8 <= |s| <= 10 && AllDigits(s[..4]) && r.value.year == DecimalValue(s[..4])
  {
    if |s| < 5 || !AllDigits(s[..4]) || s[4] != '-' then None
    else
      var year := DecimalValue(s[..4]);
      FourDigitsBelow(s[..4]);
      match MatchMonth(s[5..])
      case None => None
      case Some((month, ml)) =>
        var rest := s[5 + ml + 1..];
        match MatchDay(rest)
        case None => None
        case Some((day, dl)) =>
          if dl != |rest| then None   // "unconverted data remains"
          else if year < 1 || day > DaysInMonth(year, month) then None
          else Some(Date(year, month, day))
  }

  lemma FourDigitsBelow(s: string)
    requires |s| == 4 && AllDigits(s)
    ensures DecimalValue(s) < 10000
  {
    DecimalBound(s);
    assert Pow10(4) == 10000;
  }

  /** Two-digit zero-padded field. */
  function Pad2(n: int): (r: string)
    requires 0 <= n < 100
    ensures |r| == 2 && AllDigits(r) && DecimalValue(r) == n
  {
    var r := [DigitChar(n / 10), DigitChar(n % 10)];
    DecimalAppend([], DigitChar(n / 10));
    DecimalAppend([DigitChar(n / 10)], DigitChar(n % 10));
    assert [] + [DigitChar(n / 10)] == [DigitChar(n / 10)];
    assert [DigitChar(n / 10)] + [DigitChar(n % 10)] == r;
    r
  }

  /** Four-digit zero-padded field. */
  function Pad4(n: int): (r: string)
    requires 0 <= n < 10000
    ensures |r| == 4 && AllDigits(r) && DecimalValue(r) == n
  {
    var hi, lo := Pad2(n / 100), Pad2(n % 100);
    var r := hi + lo;
    DecimalAppend(hi, lo[0]);
    DecimalAppend(hi + [lo[0]], lo[1]);
    assert hi + [lo[0]] + [lo[1]] == r;
    assert DecimalValue(lo) == DigitValue(lo[0]) * 10 + DigitValue(lo[1]) by {
      DecimalAppend([], lo[0]);
      DecimalAppend([lo[0]], lo[1]);
      assert [] + [lo[0]] == [lo[0]];
      assert [lo[0]] + [lo[1]] == lo;
    }
    r
  }

  /** `date.strftime("%Y-%m-%d")`. */
  function FormatYmd(d: Date): (r: string)
    requires ValidDate(d)
    ensures |r| == 10
  {
    Pad4(d.year) + "-" + Pad2(d.month) + "-" + Pad2(d.day)
  }

  /** The front end's `/^\d{4}-\d{2}-\d{2}$/.test(s)`. */
  predicate IsIsoShape(s: string) {
    |s| == 10 && s[4] == '-' && s[7] == '-'
    && (forall i | 0 <= i < 10 && i != 4 && i != 7 :: IsDigit(s[i]))
  }

  /** Every formatted date has the shape the front end checks for. */
  lemma FormatIsIsoShape(d: Date)
    requires ValidDate(d)
    ensures IsIsoShape(FormatYmd(d))
  {
    var r := FormatYmd(d);
    forall i | 0 <= i < 10 && i != 4 && i != 7 ensures IsDigit(r[i]) {
      if i < 4 { assert r[i] == Pad4(d.year)[i]; }
      else if i < 7 { assert r[i] == Pad2(d.month)[i - 5]; }
      else { assert r[i] == Pad2(d.day)[i - 8]; }
    }
  }

  /** Parsing what `strftime` produced gives the same date back. */
  lemma {:induction false} ParseFormat(d: Date)
    requires ValidDate(d)
    ensures ParseYmd(FormatYmd(d)) == Some(d)
  {
    var s := FormatYmd(d);
    assert s[..4] == Pad4(d.year);
    assert s[5..] == Pad2(d.month) + "-" + Pad2(d.day);
    var mm := MatchMonth(s[5..]);
    assert mm == Some((d.month, 2));
    assert s[5 + 2 + 1..] == Pad2(d.day);
    assert MatchDay(Pad2(d.day)) == Some((d.day, 2));
  }

  /** On strings of the strict ten-character shape, parsing is injective: the
    * parsed date prints back as the very same string. */
  lemma {:induction false} ParseCanonical(s: string)
    requires IsIsoShape(s) && ParseYmd(s).Some?
    ensures FormatYmd(ParseYmd(s).value) == s
  {
    var d := ParseYmd(s).value;
    var mm := MatchMonth(s[5..]);
    assert mm.value.1 == 2;
    assert s[5..][..2] == s[5..7];
    assert d.month == DecimalValue(s[5..7]);
    assert s[5 + 2 + 1..] == s[8..];
    var md := MatchDay(s[8..]);
    assert md.value.1 == 2;
    TwoDigitValue(s[8..]);
    assert s[8..][..2] == s[8..10];
    assert d.day == DecimalValue(s[8..10]);
    DecimalSameLength(s[5..7], Pad2(d.month));
    DecimalSameLength(s[8..10], Pad2(d.day));
    DecimalSameLength(s[..4], Pad4(d.year));
    assert s == s[..4] + "-" + s[5..7] + "-" + s[8..10];
  }

  /** Python accepts unpadded fields that the front-end shape test refuses. */
  lemma ParseAcceptsUnpadded()
    ensures ParseYmd("2024-2-5") == Some(Date(2024, 2, 5))
    ensures !IsIsoShape("2024-2-5")
  {
    assert "2024-2-5"[..4] == "2024";
    assert "2024-2-5"[5..] == "2-5";
    assert "2024-2-5"[5 + 1 + 1..] == "5";
    assert DecimalValue("2024") == 2024 by {
      assert "2024"[..3] == "202";
      assert "202"[..2] == "20";
      assert "20"[..1] == "2";
    }
  }

  /** The shape test has no calendar check: February 30th has the shape but does not parse. */
  lemma ShapeWithoutCalendar()
    ensures IsIsoShape("2023-02-30")
    ensures ParseYmd("2023-02-30") == None
  {
    assert "2023-02-30"[5..] == "02-30";
    assert "2023-02-30"[5 + 2 + 1..] == "30";
    assert "2023-02-30"[..4] == "2023";
  }
}
