/**
 * A lesson date: the string the user typed (upper-cased) together with the
 * calendar date it denotes under the strict, case-insensitive pattern
 * `d MMM uuuu` in English.
 */
module Dates {
  import opened Wrappers
  import opened Text
  import Civil

  const MessageConstraints: string :=
    "Dates should be of the format dd MMM yyyy and adhere to the following constraints:\n"
    + "1. dd and yyyy are numerical characters.\n"
    + "2. MMM are alphabetical characters. e.g. Jan, Feb, ..., Dec\n"
    + "3. Must be a valid date for the year."

  /** `value` is the stored text; `ymd` the calendar date it was parsed to. */
  datatype Date = Date(value: string, ymd: Civil.YMD)

  function MonthAbbrev(m: int): (t: string)
    ensures |t| == 3
  {
    match m
    case 1 => "Jan" case 2 => "Feb" case 3 => "Mar" case 4 => "Apr"
    case 5 => "May" case 6 => "Jun" case 7 => "Jul" case 8 => "Aug"
    case 9 => "Sep" case 10 => "Oct" case 11 => "Nov" case _ => "Dec"
  }

  function UpperMonthAbbrev(m: int): (t: string)
    ensures |t| == 3
  {
    match m
    case 1 => "JAN" case 2 => "FEB" case 3 => "MAR" case 4 => "APR"
    case 5 => "MAY" case 6 => "JUN" case 7 => "JUL" case 8 => "AUG"
    case 9 => "SEP" case 10 => "OCT" case 11 => "NOV" case _ => "DEC"
  }

  /** The table the case-insensitive parse compares against is the abbreviations upper-cased. */
  lemma UpperMonthAbbrevIsUpper(m: int)
    ensures UpperMonthAbbrev(m) == ToUpper(MonthAbbrev(m))
  {
    UpperOfThree(MonthAbbrev(m));
  }

  lemma UpperOfThree(a: string)
    requires |a| == 3
    ensures ToUpper(a) == [UpperChar(a[0]), UpperChar(a[1]), UpperChar(a[2])]
  {
    var u := ToUpper(a);
    assert u[0] == UpperChar(a[0]) && u[1] == UpperChar(a[1]) && u[2] == UpperChar(a[2]);
  }

  /** The month (1..12) whose English abbreviation matches t ignoring case, or 0. */
  function MonthOf(t: string): (m: int)
    ensures 0 <= m <= 12
    ensures m != 0 ==> |t| == 3 && [UpperChar(t[0]), UpperChar(t[1]), UpperChar(t[2])] == UpperMonthAbbrev(m)
  {
    if |t| != 3 then 0
    else
      var u := [UpperChar(t[0]), UpperChar(t[1]), UpperChar(t[2])];
      if u == "JAN" then 1 else if u == "FEB" then 2 else if u == "MAR" then 3
      else if u == "APR" then 4 else if u == "MAY" then 5 else if u == "JUN" then 6
      else if u == "JUL" then 7 else if u == "AUG" then 8 else if u == "SEP" then 9
      else if u == "OCT" then 10 else if u == "NOV" then 11 else if u == "DEC" then 12
      else 0
  }

  /** Day digits, month text and year digits to a date, rejecting nonexistent days. */
  function Assemble(dayDigits: string, monthText: string, yearDigits: string): Option<Civil.YMD>
    requires AllDigits(dayDigits) && AllDigits(yearDigits)
  {
    var m := MonthOf(monthText);
    var y := DigitsValue(yearDigits);
    var d := DigitsValue(dayDigits);
    if m == 0 || d < 1 || d > Civil.DaysInMonth(y, m) then None
    else Some(Civil.YMD(y, m, d))
  }

  /**
   * LocalDate.parse(s, FORMATTER): one to nineteen day digits, a space, a
   * month abbreviation in any case, a space and a four-digit year, with the
   * day required to exist in that month (ResolverStyle.STRICT).
   */
  function ParseDate(s: string): Option<Civil.YMD> {
    if |s| < 10 || |s| > 28 then None
    else
      var i := |s| - 9;
      if !AllDigits(s[..i]) || s[i] != ' ' || s[i + 4] != ' ' || !AllDigits(s[i + 5..]) then None
      else Assemble(s[..i], s[i + 1..i + 4], s[i + 5..])
  }

  /** Date.isValidDate: the text parses strictly, so it names a real day of a four-digit year. */
  function IsValidDate(s: string): (r: bool)
    ensures r ==> ParseDate(s).Some? && Civil.Valid(ParseDate(s).value) && ParseDate(s).value.year <= 9999
  {
    if ParseDate(s).None? then false
    else
      ParsedIsValid(s);
      true
  }

  /** The invariant every constructed Date keeps. */
  predicate Wf(d: Date) {
    ParseDate(d.value) == Some(d.ymd)
  }

  /** The Date constructor: rejects invalid text, stores it upper-cased. */
  function Make(s: string): (r: Result<Date, string>)
    ensures r.Err? <==> !IsValidDate(s)
    ensures r.Err? ==> r.error == MessageConstraints
    ensures r.Ok? ==> r.value.value == ToUpper(s) && Some(r.value.ymd) == ParseDate(s) && Wf(r.value)
  {
    match ParseDate(s)
    case None => Err(MessageConstraints)
    case Some(x) =>
      ParseIgnoresCase(s);
      Ok(Date(ToUpper(s), x))
  }

  /**
   * Date.equals and hashCode use only the stored text; between constructed
   * dates that is equality of the whole date.
   */
  function Equals(a: Date, b: Date): (r: bool)
    ensures Wf(a) && Wf(b) ==> (r <==> a == b)
  {
    a.value == b.value
  }

  /** Date.compareTo orders by calendar date (see CompareToIsCalendarOrder). */
  function CompareTo(a: Date, b: Date): int {
    Civil.Compare(a.ymd, b.ymd)
  }

  function EpochDay(d: Date): int {
    Civil.EpochDay(d.ymd)
  }

  function GetDayOfWeek(d: Date): int {
    Civil.DayOfWeek(EpochDay(d))
  }

  /** FORMATTER.format: unpadded day, English month abbreviation, year to four digits. */
  function Format(x: Civil.YMD): (s: string)
    requires Civil.Valid(x)
    ensures x.year <= 9999 ==> ParseDate(s) == Some(x)
  {
    var dd := NatToString(x.day);
    var yy := PadNat(x.year, 4);
    var t := dd + " " + MonthAbbrev(x.month) + " " + yy;
    if x.year <= 9999 then
      NatToStringLength(x.day, 2);
      PadNatLength(x.year, 4);
      NatToStringValue(x.day);
      PadNatValue(x.year, 4);
      MonthOfAbbrev(x.month);
      FieldsDate(t, dd, MonthAbbrev(x.month), yy, x.day, x.month, x.year);
      t
    else t
  }

  /**
   * StringUtil.stripLeadingZeroes, taken as dropping the leading '0'
   * characters: the result is the longest suffix not starting with '0'.
   */
  function StripLeadingZeroes(s: string): (r: string)
    ensures |r| <= |s| && r == s[|s| - |r|..]
    ensures r == [] || r[0] != '0'
    ensures forall i :: 0 <= i < |s| - |r| ==> s[i] == '0'
  {
    var r := DropLeadingZeros(s);
    assert forall i :: 0 <= i < |s| - |r| ==> s[i] == s[..|s| - |r|][i];
    r
  }

  // ---------------------------------------------------------------------
  // Lemmas
  // ---------------------------------------------------------------------

  lemma MonthOfIgnoresCase(t: string)
    ensures MonthOf(ToUpper(t)) == MonthOf(t)
  {
    if |t| == 3 {
      var u := ToUpper(t);
      assert UpperChar(u[0]) == UpperChar(t[0]);
      assert UpperChar(u[1]) == UpperChar(t[1]);
      assert UpperChar(u[2]) == UpperChar(t[2]);
    }
  }

  /** The parse is case-insensitive, so the upper-cased text denotes the same date. */
  lemma ParseIgnoresCase(s: string)
    ensures ParseDate(ToUpper(s)) == ParseDate(s)
  {
    var u := ToUpper(s);
    if 10 <= |s| <= 28 {
      var i := |s| - 9;
      ToUpperSlice(s, 0, i);
      ToUpperSlice(s, i + 1, i + 4);
      ToUpperSlice(s, i + 5, |s|);
      UpperDigitsField(s[..i]);
      UpperDigitsField(s[i + 5..]);
      MonthOfIgnoresCase(s[i + 1..i + 4]);
      assert u[i] == ' ' <==> s[i] == ' ';
      assert u[i + 4] == ' ' <==> s[i + 4] == ' ';
      ParseSameFields(s, u);
    }
  }

  /** Upper-casing keeps a digit field and turns nothing else into one. */
  lemma UpperDigitsField(t: string)
    ensures AllDigits(ToUpper(t)) <==> AllDigits(t)
    ensures AllDigits(t) ==> ToUpper(t) == t
  {
    if AllDigits(t) {
      ToUpperKeepsDigits(t);
    } else {
      var k :| 0 <= k < |t| && !IsDigit(t[k]);
      assert !IsDigit(ToUpper(t)[k]);
    }
  }

  /** Two texts of the same length with the same fields parse alike. */
  lemma ParseSameFields(s: string, u: string)
    requires |s| == |u| && 10 <= |s| <= 28
    requires var i := |s| - 9;
      (AllDigits(u[..i]) <==> AllDigits(s[..i])) && (AllDigits(s[..i]) ==> u[..i] == s[..i])
      && (AllDigits(u[i + 5..]) <==> AllDigits(s[i + 5..])) && (AllDigits(s[i + 5..]) ==> u[i + 5..] == s[i + 5..])
      && (u[i] == ' ' <==> s[i] == ' ') && (u[i + 4] == ' ' <==> s[i + 4] == ' ')
      && MonthOf(u[i + 1..i + 4]) == MonthOf(s[i + 1..i + 4])
    ensures ParseDate(u) == ParseDate(s)
  {
  }

  lemma MonthOfAbbrev(m: int)
    requires 1 <= m <= 12
    ensures MonthOf(MonthAbbrev(m)) == m
  {
    var t := MonthAbbrev(m);
    var u := [UpperChar(t[0]), UpperChar(t[1]), UpperChar(t[2])];
    assert u == UpperMonthAbbrev(m);
  }

  /** Formatting a real date (years 0..9999) and parsing it back yields the same date. */
  lemma FormatRoundTrip(x: Civil.YMD)
    requires Civil.Valid(x) && x.year <= 9999
    ensures ParseDate(Format(x)) == Some(x)
    ensures ParseDate(ToUpper(Format(x))) == Some(x)
  {
    ParseIgnoresCase(Format(x));
  }

  lemma DropLeadingZero(s: string)
    requires IsValidDate(s) && s[0] == '0'
    ensures ParseDate(s[1..]) == ParseDate(s)
  {
    var i := |s| - 9;
    var t := s[1..];
    assert t[..i - 1] == s[1..i];
    assert t[i - 1..] == s[i..];
    assert t[i..i + 3] == s[i + 1..i + 4];
    assert t[i + 4..] == s[i + 5..];
    assert s[..i] == seq(1, _ => '0') + s[1..i];
    LeadingZerosValue(1, s[1..i]);
  }

  /** Stripping leading zeros from a valid date text leaves the same date. */
  lemma {:induction false} StripKeepsDate(s: string)
    requires IsValidDate(s)
    ensures ParseDate(StripLeadingZeroes(s)) == ParseDate(s)
    decreases |s|
  {
    if s != [] && s[0] == '0' {
      DropLeadingZero(s);
      StripKeepsDate(s[1..]);
    }
  }

  /** Parsing a text assembled from its three fields. */
  lemma ParseFields(dd: string, mon: string, yyyy: string)
    requires 1 <= |dd| <= 19 && AllDigits(dd) && |mon| == 3 && |yyyy| == 4 && AllDigits(yyyy)
    ensures ParseDate(dd + " " + mon + " " + yyyy) == Assemble(dd, mon, yyyy)
  {
    var s := dd + " " + mon + " " + yyyy;
    var i := |s| - 9;
    assert s[..i] == dd;
    assert s[i + 1..i + 4] == mon;
    assert s[i + 5..] == yyyy;
  }

  /** A parsed date exists in the calendar and has a four-digit year. */
  lemma ParsedIsValid(s: string)
    requires ParseDate(s).Some?
    ensures Civil.Valid(ParseDate(s).value) && ParseDate(s).value.year <= 9999
  {
    var i := |s| - 9;
    DigitsValueBelowPow10(s[i + 5..]);
    assert Pow10(4) == 10000;
  }

  /** Formatting a calendar date and constructing a Date from the text gives that date back. */
  lemma MakeFormatted(x: Civil.YMD)
    requires Civil.Valid(x) && x.year <= 9999
    ensures Make(Format(x)) == Ok(Date(ToUpper(Format(x)), x))
    ensures Wf(Date(ToUpper(Format(x)), x))
  {
    FormatRoundTrip(x);
    MakeParsed(Format(x), x);
  }

  /** A date seven days after d falls on the weekday of d. */
  lemma WeekLaterWeekday(date: Date, d: Civil.YMD)
    requires EpochDay(date) == Civil.EpochDay(d) + 7
    ensures GetDayOfWeek(date) == Civil.DayOfWeek(Civil.EpochDay(d))
  {
    Civil.DayOfWeekPeriodic(Civil.EpochDay(d), 1);
  }

  lemma WfIsValid(d: Date)
    requires Wf(d)
    ensures Civil.Valid(d.ymd) && d.ymd.year <= 9999
  {
    ParsedIsValid(d.value);
  }

  /** Equal dates (same text) denote the same calendar day. */
  lemma EqualsImpliesSameDay(a: Date, b: Date)
    requires Wf(a) && Wf(b) && Equals(a, b)
    ensures CompareTo(a, b) == 0 && a == b
  {
  }

  /**
   * Between constructed dates, compareTo is the calendar order: its sign is
   * the order of the epoch days, it is 0 exactly on the same day, and
   * swapping the dates negates it.
   */
  lemma CompareToIsCalendarOrder(a: Date, b: Date)
    requires Wf(a) && Wf(b)
    ensures CompareTo(a, b) < 0 <==> EpochDay(a) < EpochDay(b)
    ensures CompareTo(a, b) == 0 <==> a.ymd == b.ymd
    ensures CompareTo(a, b) == -CompareTo(b, a)
  {
    WfIsValid(a);
    WfIsValid(b);
    Civil.CompareIsEpochOrder(a.ymd, b.ymd);
    Civil.CompareAntisymmetric(a.ymd, b.ymd);
  }

  /** Dates on the same calendar day fall on the same day of the week. */
  lemma DayOfWeekFromCalendarDate(a: Date, b: Date)
    requires Wf(a) && Wf(b)
    requires CompareTo(a, b) == 0
    ensures GetDayOfWeek(a) == GetDayOfWeek(b)
  {
    assert Civil.Valid(a.ymd) && Civil.Valid(b.ymd);
    Civil.CompareIsEpochOrder(a.ymd, b.ymd);
  }

  /** compareTo and equals disagree: zero padding changes the text but not the day. */
  lemma PaddingSplitsEqualityFromOrder()
    ensures var a, b := Make("05 Oct 2021"), Make("5 Oct 2021");
      a.Ok? && b.Ok? && !Equals(a.value, b.value) && CompareTo(a.value, b.value) == 0
  {
    Oct5Parses("05 Oct 2021", "05");
    Oct5Parses("5 Oct 2021", "5");
    SameDayOtherText("05 Oct 2021", "5 Oct 2021", Civil.YMD(2021, 10, 5));
  }

  /** Two texts of different lengths for the same day: different dates by equals, equal by compareTo. */
  lemma SameDayOtherText(s: string, t: string, x: Civil.YMD)
    requires ParseDate(s) == Some(x) && ParseDate(t) == Some(x) && |s| != |t|
    ensures var a, b := Make(s), Make(t);
      a.Ok? && b.Ok? && !Equals(a.value, b.value) && CompareTo(a.value, b.value) == 0
  {
    MakeParsed(s, x);
    MakeParsed(t, x);
  }

  lemma Oct5Parses(s: string, dd: string)
    requires dd == "05" || dd == "5"
    requires s == dd + " Oct 2021"
    ensures ParseDate(s) == Some(Civil.YMD(2021, 10, 5))
  {
    Year2021();
    OctIsTenth();
    if dd == "05" { TwoDigits('0', '5'); } else { OneDigit('5'); }
    assert s == dd + " " + "Oct" + " " + "2021";
    FieldsDate(s, dd, "Oct", "2021", 5, 10, 2021);
  }

  /** The date a text of day, month and year fields parses to. */
  lemma FieldsDate(s: string, dd: string, mon: string, yyyy: string, d: nat, m: int, y: nat)
    requires s == dd + " " + mon + " " + yyyy
    requires 1 <= |dd| <= 19 && AllDigits(dd) && |mon| == 3 && |yyyy| == 4 && AllDigits(yyyy)
    requires DigitsValue(dd) == d && MonthOf(mon) == m && DigitsValue(yyyy) == y
    ensures ParseDate(s)
      == if m == 0 || d < 1 || d > Civil.DaysInMonth(y, m) then None else Some(Civil.YMD(y, m, d))
  {
    ParseFields(dd, mon, yyyy);
  }

  lemma OctIsTenth()
    ensures MonthOf("Oct") == 10
  {
    MonthOfAbbrev(10);
  }

  /** A text that parses constructs the date it parses to. */
  lemma MakeParsed(s: string, x: Civil.YMD)
    requires ParseDate(s) == Some(x)
    ensures Make(s) == Ok(Date(ToUpper(s), x))
  {
  }

  lemma OneDigit(a: char)
    requires IsDigit(a)
    ensures AllDigits([a]) && DigitsValue([a]) == DigitValue(a)
  {
    assert [a][..0] == [];
  }

  lemma TwoDigits(a: char, b: char)
    requires IsDigit(a) && IsDigit(b)
    ensures AllDigits([a, b]) && DigitsValue([a, b]) == 10 * DigitValue(a) + DigitValue(b)
  {
    assert [a, b][..1] == [a];
    OneDigit(a);
  }

  lemma Year2021()
    ensures AllDigits("2021") && DigitsValue("2021") == 2021
  {
    FourDigits('2', '0', '2', '1');
  }

  lemma FourDigits(a: char, b: char, c: char, d: char)
    requires IsDigit(a) && IsDigit(b) && IsDigit(c) && IsDigit(d)
    ensures AllDigits([a, b, c, d])
    ensures DigitsValue([a, b, c, d])
      == 1000 * DigitValue(a) + 100 * DigitValue(b) + 10 * DigitValue(c) + DigitValue(d)
  {
    assert [a, b, c, d][..3] == [a, b, c];
    assert [a, b, c][..2] == [a, b];
    TwoDigits(a, b);
  }

  /** February 29th exists only in leap years. */
  lemma LeapDayExamples()
    ensures !IsValidDate("29 Feb 2021") && IsValidDate("29 feb 2024")
  {
    LeapDay2021();
    LeapDay2024();
  }

  lemma LeapDay2021()
    ensures !IsValidDate("29 Feb 2021")
  {
    var s := "29 Feb 2021";
    Year2021();
    TwoDigits('2', '9');
    assert MonthOf("Feb") == 2;
    assert s == "29" + " " + "Feb" + " " + "2021";
    FieldsDate(s, "29", "Feb", "2021", 29, 2, 2021);
  }

  lemma LeapDay2024()
    ensures IsValidDate("29 feb 2024")
  {
    var s := "29 feb 2024";
    FourDigits('2', '0', '2', '4');
    TwoDigits('2', '9');
    assert MonthOf("feb") == 2;
    assert s == "29" + " " + "feb" + " " + "2024";
    FieldsDate(s, "29", "feb", "2024", 29, 2, 2024);
  }

  /** April has thirty days, whatever the case of the month text. */
  lemma ShortMonthExamples()
    ensures !IsValidDate("31 Apr 2021") && IsValidDate("30 APR 2021")
  {
    April31();
    April30();
  }

  lemma April31()
    ensures !IsValidDate("31 Apr 2021")
  {
    var s := "31 Apr 2021";
    Year2021();
    TwoDigits('3', '1');
    assert MonthOf("Apr") == 4;
    assert s == "31" + " " + "Apr" + " " + "2021";
    FieldsDate(s, "31", "Apr", "2021", 31, 4, 2021);
  }

  lemma April30()
    ensures IsValidDate("30 APR 2021")
  {
    var s := "30 APR 2021";
    Year2021();
    TwoDigits('3', '0');
    assert MonthOf("APR") == 4;
    assert s == "30" + " " + "APR" + " " + "2021";
    FieldsDate(s, "30", "APR", "2021", 30, 4, 2021);
  }

  /** Other layouts and full month names are rejected. */
  lemma LayoutExamples()
    ensures !IsValidDate("2021-10-05") && !IsValidDate("5 October 2021")
  {
    assert "2021-10-05"[1] == '0';
    assert "5 October 2021"[..5][1] == ' ';
  }
}
