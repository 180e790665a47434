/**
 * Date helpers of the applications list: the DD/MM/YYYY display of an ISO
 * date, today's ISO date, and the defensive truncation of a date coming from
 * the server. The current date is a parameter instead of a clock read.
 */
module DateFormat {
  import opened Wrappers
  import opened Text

  /** A calendar day as the browser's Date reports it: getFullYear(), getMonth() + 1, getDate(). */
  datatype CalendarDate = CalendarDate(year: int, month: nat, day: nat)

  /** A value of unknown JavaScript type: a string, or anything else. */
  datatype JsValue = JsString(s: string) | NotString

  /** A parsed number that JavaScript treats as true: neither NaN, undefined nor zero. */
  predicate Truthy(v: Option<int>) {
    v.Some? && v.value != 0
  }

  /** parseInt of the i-th part of a split; None stands for NaN and for a missing part (undefined). */
  function PartValue(parts: seq<string>, i: nat): Option<int> {
    if i < |parts| then ParseInt(parts[i]) else None
  }

  /**
   * formatDateBR: reads year, month and day from the first three '-'-separated
   * parts and prints them as DD/MM/Y; the input comes back unchanged when any
   * of the three is missing, not a number, or zero.
   */
  function FormatDateBR(iso: string): (r: string)
    ensures r != iso ==> |Split(iso, '-')| >= 3
  {
    var parts := Split(iso, '-');
    var y, m, d := PartValue(parts, 0), PartValue(parts, 1), PartValue(parts, 2);
    if !Truthy(y) || !Truthy(m) || !Truthy(d) then iso
    else PadStart2(ShowInt(d.value)) + "/" + PadStart2(ShowInt(m.value)) + "/" + ShowInt(y.value)
  }

  /** Three digit strings joined by '-' split back into exactly those three parts. */
  lemma SplitDashed(ys: string, ms: string, ds: string)
    requires AllDigits(ys) && AllDigits(ms) && AllDigits(ds)
    ensures Split(ys + "-" + ms + "-" + ds, '-') == [ys, ms, ds]
  {
    assert ys + "-" + ms + "-" + ds == ys + ['-'] + (ms + ['-'] + ds);
    SplitAtSep(ys, ms + ['-'] + ds, '-', []);
    SplitAtSep(ms, ds, '-', []);
    SplitNoSep(ds, '-', []);
    assert [] + ys == ys && [] + ms == ms && [] + ds == ds;
  }

  /** Padding the decimal digits of n to two places gives Pad2(n). */
  lemma PadDigits(n: nat)
    ensures PadStart2(ShowNat(n)) == Pad2(n)
  {
  }

  /** formatDateBR once the three parts have been read as positive numbers. */
  lemma FormatPositiveParts(iso: string, y: nat, m: nat, d: nat)
    requires y > 0 && m > 0 && d > 0
    requires PartValue(Split(iso, '-'), 0) == Some(y as int)
    requires PartValue(Split(iso, '-'), 1) == Some(m as int)
    requires PartValue(Split(iso, '-'), 2) == Some(d as int)
    ensures FormatDateBR(iso) == Pad2(d) + "/" + Pad2(m) + "/" + ShowNat(y)
  {
    assert PadStart2(ShowInt(d)) == Pad2(d) by { PadDigits(d); }
    assert PadStart2(ShowInt(m)) == Pad2(m) by { PadDigits(m); }
  }

  /** The three parts of a dashed digit string read back as the values of its digit groups. */
  lemma PartsOfDashed(ys: string, ms: string, ds: string)
    requires ys != [] && ms != [] && ds != []
    requires AllDigits(ys) && AllDigits(ms) && AllDigits(ds)
    ensures var parts := Split(ys + "-" + ms + "-" + ds, '-');
      && PartValue(parts, 0) == Some(DigitsValue(ys) as int)
      && PartValue(parts, 1) == Some(DigitsValue(ms) as int)
      && PartValue(parts, 2) == Some(DigitsValue(ds) as int)
  {
    var parts := Split(ys + "-" + ms + "-" + ds, '-');
    SplitDashed(ys, ms, ds);
    DigitPart(parts, 0, ys);
    DigitPart(parts, 1, ms);
    DigitPart(parts, 2, ds);
  }

  /** A part made only of decimal digits reads as their value. */
  lemma DigitPart(parts: seq<string>, i: nat, d: string)
    requires i < |parts| && parts[i] == d
    requires d != [] && AllDigits(d)
    ensures PartValue(parts, i) == Some(DigitsValue(d) as int)
  {
    ParseDigits(d);
  }

  /**
   * A Y-M-D date whose three parts are non-zero decimal numbers is shown as
   * DD/MM/Y: day and month padded to two digits, the year printed as a number.
   */
  lemma FormatsNonZeroDate(ys: string, ms: string, ds: string)
    requires ys != [] && ms != [] && ds != []
    requires AllDigits(ys) && AllDigits(ms) && AllDigits(ds)
    requires DigitsValue(ys) > 0 && DigitsValue(ms) > 0 && DigitsValue(ds) > 0
    ensures FormatDateBR(ys + "-" + ms + "-" + ds)
         == Pad2(DigitsValue(ds)) + "/" + Pad2(DigitsValue(ms)) + "/" + ShowNat(DigitsValue(ys))
  {
    PartsOfDashed(ys, ms, ds);
    FormatPositiveParts(ys + "-" + ms + "-" + ds, DigitsValue(ys), DigitsValue(ms), DigitsValue(ds));
  }

  /** formatDateBR leaves a date alone once one of its three parts reads as zero. */
  lemma KeepsZeroPart(iso: string, y: int, m: int, d: int)
    requires PartValue(Split(iso, '-'), 0) == Some(y)
    requires PartValue(Split(iso, '-'), 1) == Some(m)
    requires PartValue(Split(iso, '-'), 2) == Some(d)
    requires y == 0 || m == 0 || d == 0
    ensures FormatDateBR(iso) == iso
  {
  }

  /**
   * formatDateBR leaves a date alone once one of its three parts is missing
   * or does not start with a number (parseInt gives NaN).
   */
  lemma KeepsUnreadablePart(iso: string)
    requires var parts := Split(iso, '-');
      PartValue(parts, 0).None? || PartValue(parts, 1).None? || PartValue(parts, 2).None?
    ensures FormatDateBR(iso) == iso
  {
    var parts := Split(iso, '-');
    KeepsMissingPart(iso, PartValue(parts, 0), PartValue(parts, 1), PartValue(parts, 2));
  }

  lemma KeepsMissingPart(iso: string, y: Option<int>, m: Option<int>, d: Option<int>)
    requires PartValue(Split(iso, '-'), 0) == y
    requires PartValue(Split(iso, '-'), 1) == m
    requires PartValue(Split(iso, '-'), 2) == d
    requires y.None? || m.None? || d.None?
    ensures FormatDateBR(iso) == iso
  {
  }

  /** A part that parseInt cannot read, such as "ab", leaves the date as it is. */
  lemma KeepsDateWithUnreadablePart(ys: string, ms: string, ds: string)
    requires AllDigits(ys) && ms != []
    requires !IsJsWhitespace(ms[0]) && !IsDigit(ms[0]) && ms[0] != '+' && ms[0] != '-'
    requires forall i :: 0 <= i < |ms| ==> ms[i] != '-'
    ensures FormatDateBR(ys + "-" + ms + "-" + ds) == ys + "-" + ms + "-" + ds
  {
    var iso := ys + "-" + ms + "-" + ds;
    assert Split(iso, '-')[1] == ms by {
      assert iso == ys + ['-'] + (ms + ['-'] + ds);
      SplitAtSep(ys, ms + ['-'] + ds, '-', []);
      SplitAtSep(ms, ds, '-', []);
      assert [] + ys == ys && [] + ms == ms;
    }
    assert ParseInt(ms) == None by {
      assert [] + [] + [] + ms == ms;
      ParseIntOfLayout([], [], [], ms);
    }
    KeepsUnreadablePart(iso);
  }

  /** A Y-M-D date with a zero part is left as it is. */
  lemma KeepsDateWithZeroPart(ys: string, ms: string, ds: string)
    requires ys != [] && ms != [] && ds != []
    requires AllDigits(ys) && AllDigits(ms) && AllDigits(ds)
    requires DigitsValue(ys) == 0 || DigitsValue(ms) == 0 || DigitsValue(ds) == 0
    ensures FormatDateBR(ys + "-" + ms + "-" + ds) == ys + "-" + ms + "-" + ds
  {
    PartsOfDashed(ys, ms, ds);
    KeepsZeroPart(ys + "-" + ms + "-" + ds, DigitsValue(ys), DigitsValue(ms), DigitsValue(ds));
  }

  /** todayISO: the given day as YYYY-MM-DD, month and day padded to two digits. */
  function TodayISO(today: CalendarDate): string {
    ShowInt(today.year) + "-" + PadStart2(ShowInt(today.month)) + "-" + PadStart2(ShowInt(today.day))
  }

  /** A real calendar day of a four-digit year. */
  predicate IsFourDigitYearDay(today: CalendarDate) {
    1000 <= today.year <= 9999 && 1 <= today.month <= 12 && 1 <= today.day <= 31
  }

  /** A number from 1000 to 9999 is written with four decimal digits. */
  lemma FourDigits(n: nat)
    requires 1000 <= n <= 9999
    ensures |ShowNat(n)| == 4
  {
    assert |ShowNat(n / 1000)| == 1;
    assert |ShowNat(n / 100)| == 2 by { assert (n / 100) / 10 == n / 1000; }
    assert |ShowNat(n / 10)| == 3 by { assert (n / 10) / 10 == n / 100; }
  }

  /** For a real day of a four-digit year, today's ISO date is ten characters, dashes at 4 and 7. */
  lemma TodayISOShape(today: CalendarDate)
    requires IsFourDigitYearDay(today)
    ensures var r := TodayISO(today);
      && |r| == 10 && r[4] == '-' && r[7] == '-'
      && r == ShowNat(today.year) + "-" + Pad2(today.month) + "-" + Pad2(today.day)
  {
    var ys, ms, ds := ShowNat(today.year), Pad2(today.month), Pad2(today.day);
    assert |ys| == 4 by { FourDigits(today.year); }
    var r := ys + "-" + ms + "-" + ds;
    assert |r| == 10 && r[4] == '-' && r[7] == '-' by {
      assert |ms| == 2 && |ds| == 2;
      assert r[4] == (ys + "-")[4];
      assert r[7] == (ys + "-" + ms + "-")[7];
    }
    assert TodayISO(today) == r by {
      assert ShowInt(today.year) == ys;
      assert PadStart2(ShowInt(today.month)) == ms by { PadDigits(today.month); }
      assert PadStart2(ShowInt(today.day)) == ds by { PadDigits(today.day); }
    }
  }

  /** formatDateBR shows today's ISO date as DD/MM/YYYY. */
  lemma FormatsToday(today: CalendarDate)
    requires IsFourDigitYearDay(today)
    ensures FormatDateBR(TodayISO(today))
         == Pad2(today.day) + "/" + Pad2(today.month) + "/" + ShowNat(today.year)
  {
    TodayISOShape(today);
    var ys, ms, ds := ShowNat(today.year), Pad2(today.month), Pad2(today.day);
    ShowNatValue(today.year);
    FormatsNonZeroDate(ys, ms, ds);
  }

  /**
   * safeISODate: a string whose trimmed length is at least 10 is cut to its
   * first 10 characters (untrimmed); anything else becomes today's ISO date.
   */
  function SafeISODate(value: JsValue, today: CalendarDate): (r: string)
    ensures value.JsString? && |JsTrim(value.s)| >= 10 ==> |r| == 10 && r <= value.s
    ensures !(value.JsString? && |JsTrim(value.s)| >= 10) ==> r == TodayISO(today)
  {
    if value.JsString? && |JsTrim(value.s)| >= 10 then value.s[..10] else TodayISO(today)
  }

  /** Today's ISO date survives safeISODate unchanged, whatever day the fallback would use. */
  lemma SafeISODateKeepsTodayISO(today: CalendarDate, other: CalendarDate)
    requires IsFourDigitYearDay(today)
    ensures SafeISODate(JsString(TodayISO(today)), other) == TodayISO(today)
  {
    var r := TodayISO(today);
    assert |r| == 10 && IsDigit(r[0]) && IsDigit(r[9]) by {
      TodayISOShape(today);
      var ys, ms, ds := ShowNat(today.year), Pad2(today.month), Pad2(today.day);
      assert r[0] == ys[0] && r[9] == ds[1];
    }
    KeepsTrimmedTen(r, other);
  }

  /** A ten-character string that starts and ends with a digit passes safeISODate unchanged. */
  lemma KeepsTrimmedTen(s: string, other: CalendarDate)
    requires |s| == 10 && IsDigit(s[0]) && IsDigit(s[9])
    ensures SafeISODate(JsString(s), other) == s
  {
    JsTrimOfTrimmed(s);
    assert s[..10] == s;
  }
}
