/**
 * A lesson's time of day, written `HHmm-HHmm`, with times held as minutes
 * since midnight. Lessons must lie between 08:00 and 22:00 inclusive.
 */
module TimeRanges {
  import opened Wrappers
  import opened Text

  const MessageConstraints: string :=
    "Lesson time range should adhere to the following constraints:\n"
    + "1. End time cannot be earlier than start time.\n"
    + "2. Lesson should be conducted between 8am and 10pm, inclusive"

  const DayStart: int := 8 * 60
  const DayEnd: int := 22 * 60

  /** `value` is the text; `start` and `end` are minutes since midnight. */
  datatype TimeRange = TimeRange(value: string, start: int, end: int)

  // ---------------------------------------------------------------------
  // Validation: the regular expression, then LocalTime.parse with HHmm
  // ---------------------------------------------------------------------

  predicate InRange(c: char, lo: char, hi: char) { lo <= c <= hi }

  /** One side of VALIDATION_REGEX: ([01]?[0-9]|2[0-3])[0-5][0-9]. */
  predicate IsTimeToken(t: string) {
    if |t| == 3 then
      IsDigit(t[0]) && InRange(t[1], '0', '5') && IsDigit(t[2])
    else if |t| == 4 then
      ((InRange(t[0], '0', '1') && IsDigit(t[1])) || (t[0] == '2' && InRange(t[1], '0', '3')))
      && InRange(t[2], '0', '5') && IsDigit(t[3])
    else false
  }

  function FirstDash(s: string): nat {
    IndexOf(s, '-')
  }

  /** String.matches(VALIDATION_REGEX): two time tokens around one '-'. */
  predicate MatchesPattern(s: string) {
    var i := FirstDash(s);
    i < |s| && IsTimeToken(s[..i]) && IsTimeToken(s[i + 1..])
  }

  /** LocalTime.parse(t, "HHmm"): exactly two hour and two minute digits. */
  function ParseHHmm(t: string): Option<int> {
    if |t| != 4 || !AllDigits(t) then None
    else
      var h := 10 * DigitValue(t[0]) + DigitValue(t[1]);
      var m := 10 * DigitValue(t[2]) + DigitValue(t[3]);
      if h > 23 || m > 59 then None else Some(60 * h + m)
  }

  /**
   * TimeRange.isValidTimeRange. The pattern also admits three-digit times,
   * but the HHmm parse refuses them, so a valid range is always HHmm-HHmm.
   */
  function IsValidTimeRange(s: string): (r: bool)
    ensures r ==> |s| == 9 && s[4] == '-'
  {
    MatchesPattern(s) &&
    var i := FirstDash(s);
    var st := ParseHHmm(s[..i]);
    var en := ParseHHmm(s[i + 1..]);
    st.Some? && en.Some? && en.value >= st.value && st.value >= DayStart && en.value <= DayEnd
  }

  /** The TimeRange constructor. */
  function Make(s: string): (r: Result<TimeRange, string>)
    ensures r.Err? <==> !IsValidTimeRange(s)
    ensures r.Err? ==> r.error == MessageConstraints
    ensures r.Ok? ==> (r.value.value == s
      && Some(r.value.start) == ParseHHmm(s[..FirstDash(s)])
      && Some(r.value.end) == ParseHHmm(s[FirstDash(s) + 1..]))
    ensures r.Ok? ==> Wf(r.value)
  {
    if !IsValidTimeRange(s) then Err(MessageConstraints)
    else
      var i := FirstDash(s);
      Ok(TimeRange(s, ParseHHmm(s[..i]).value, ParseHHmm(s[i + 1..]).value))
  }

  /** The invariant of a constructed range. */
  predicate Wf(r: TimeRange) {
    DayStart <= r.start <= r.end <= DayEnd
  }

  // ---------------------------------------------------------------------
  // Operations
  // ---------------------------------------------------------------------

  /**
   * TimeRange.isClashing as written: true when THIS range's start or end
   * lies in the other's closed interval. It misses the case where this
   * range strictly contains the other (see IsClashingAsymmetric).
   */
  function IsClashing(a: TimeRange, b: TimeRange): (r: bool)
    ensures r && a.start <= a.end ==> Overlaps(a, b)
    ensures a.start <= a.end && b.start <= b.end ==>
      (Overlaps(a, b) <==> r || (a.start < b.start && b.end < a.end))
  {
    (a.start >= b.start && a.start <= b.end) || (a.end >= b.start && a.end <= b.end)
  }

  /** The intended clash test: the two closed intervals intersect. */
  predicate Overlaps(a: TimeRange, b: TimeRange) {
    a.start <= b.end && b.start <= a.end
  }

  function Sign(x: int): int {
    if x < 0 then -1 else if x > 0 then 1 else 0
  }

  /** TimeRange.compareTo as written: 0 when clashing, else by start time. */
  function CompareToAsWritten(a: TimeRange, b: TimeRange): (c: int)
    ensures -1 <= c <= 1
    ensures c == 0 <==> IsClashing(a, b) || a.start == b.start
    ensures c < 0 ==> a.start < b.start
  {
    if IsClashing(a, b) then 0 else Sign(a.start - b.start)
  }

  /** compareTo over the intended, symmetric clash test. */
  function CompareTo(a: TimeRange, b: TimeRange): (c: int)
    ensures Overlaps(a, b) ==> c == 0
    ensures c < 0 <==> !Overlaps(a, b) && a.start < b.start
    ensures c > 0 <==> !Overlaps(a, b) && a.start > b.start
  {
    if Overlaps(a, b) then 0 else Sign(a.start - b.start)
  }

  /** TimeRange.equals: same start and same end, so equal ranges compare as 0 and last as long. */
  function Equals(a: TimeRange, b: TimeRange): (r: bool)
    ensures r && Wf(a) ==> Wf(b) && CompareTo(a, b) == 0 && Duration(a) == Duration(b)
  {
    a.start == b.start && a.end == b.end
  }

  /** getDuration in minutes. */
  function Duration(r: TimeRange): (d: int)
    requires Wf(r)
    ensures 0 <= d <= DayEnd - DayStart
    ensures r.start + d == r.end
  {
    r.end - r.start
  }

  // ---------------------------------------------------------------------
  // Lemmas
  // ---------------------------------------------------------------------

  /**
   * A reference description of validity: nine characters, two HHmm times
   * around a '-' at index 4, ordered, and inside 08:00..22:00.
   */
  lemma ValidIsCanonical(s: string)
    ensures IsValidTimeRange(s) <==>
      |s| == 9 && s[4] == '-' && ParseHHmm(s[..4]).Some? && ParseHHmm(s[5..]).Some?
      && DayStart <= ParseHHmm(s[..4]).value <= ParseHHmm(s[5..]).value <= DayEnd
  {
    if |s| == 9 && s[4] == '-' && ParseHHmm(s[..4]).Some? && ParseHHmm(s[5..]).Some? {
      assert FirstDash(s) == 4 by {
        assert forall j :: 0 <= j < 4 ==> s[..4][j] == s[j];
      }
    }
  }

  /** A constructed range lies in the teaching window and does not run backwards. */
  lemma MadeRangeWf(s: string)
    requires Make(s).Ok?
    ensures DayStart <= Make(s).value.start <= Make(s).value.end <= DayEnd
  {
  }

  lemma TestExamplesRejected()
    ensures !IsValidTimeRange("1200-1000")
    ensures !IsValidTimeRange("1099-1200")
    ensures !IsValidTimeRange("2000:2359")
    ensures !IsValidTimeRange("") && !IsValidTimeRange(" ")
  {
    MisshapenRejected("");
    MisshapenRejected(" ");
    MisshapenRejected("2000:2359");
    ReversedRejected();
    BadMinutesRejected();
  }

  /** Text that is not nine characters with a dash in the middle is never a range. */
  lemma MisshapenRejected(s: string)
    requires |s| != 9 || s[4] != '-'
    ensures !IsValidTimeRange(s)
  {
  }

  lemma ReversedRejected()
    ensures !IsValidTimeRange("1200-1000")
  {
    ValidIsCanonical("1200-1000");
  }

  lemma BadMinutesRejected()
    ensures !IsValidTimeRange("1099-1200")
  {
    ValidIsCanonical("1099-1200");
  }

  /** "1300-1400" is valid but "0000-1400" is not: lessons cannot start before 08:00. */
  lemma AfternoonRangeAccepted()
    ensures IsValidTimeRange("1300-1400")
  {
    var s := "1300-1400";
    assert s[..4] == "1300" && s[5..] == "1400";
    assert ParseHHmm("1300") == Some(780);
    assert ParseHHmm("1400") == Some(840);
    ValidIsCanonical(s);
  }

  lemma MidnightStartRejected()
    ensures !IsValidTimeRange("0000-1400")
  {
    var s := "0000-1400";
    assert s[..4] == "0000";
    assert ParseHHmm("0000") == Some(0);
    ValidIsCanonical(s);
  }

  /** Both ends inside the other range or touching it count as clashing. */
  lemma ClashIncludesEndpoints(a: TimeRange, b: TimeRange)
    requires Wf(a) && Wf(b)
    ensures a.end == b.start ==> IsClashing(a, b) && IsClashing(b, a)
    ensures Equals(a, b) ==> IsClashing(a, b)
  {
  }

  /**
   * The clash test as written is not symmetric: it disagrees with its
   * converse exactly when one range strictly contains the other.
   */
  lemma IsClashingAsymmetric(a: TimeRange, b: TimeRange)
    requires Wf(a) && Wf(b)
    ensures IsClashing(a, b) && !IsClashing(b, a) <==> b.start < a.start && a.end < b.end
    ensures !IsClashing(a, b) && IsClashing(b, a) <==> a.start < b.start && b.end < a.end
  {
  }

  /** 0900-1200 does not "clash" with 1000-1100, though the reverse does. */
  lemma ContainedRangeMissed()
    ensures var a := TimeRange("0900-1200", 540, 720);
            var b := TimeRange("1000-1100", 600, 660);
            Make("0900-1200") == Ok(a) && Make("1000-1100") == Ok(b)
            && !IsClashing(a, b) && IsClashing(b, a) && Overlaps(a, b)
  {
    assert ClockMinutes('0', '9', '0', '0') == 540 && ClockMinutes('1', '2', '0', '0') == 720;
    assert ClockMinutes('1', '0', '0', '0') == 600 && ClockMinutes('1', '1', '0', '0') == 660;
    MakeOfDigits("0900-1200", '0', '9', '0', '0', '1', '2', '0', '0');
    MakeOfDigits("1000-1100", '1', '0', '0', '0', '1', '1', '0', '0');
  }

  /** Make on a text spelt out digit by digit. */
  lemma MakeOfDigits(s: string, h1: char, h2: char, m1: char, m2: char, k1: char, k2: char, n1: char, n2: char)
    requires s == [h1, h2, m1, m2, '-', k1, k2, n1, n2]
    requires IsDigit(h1) && IsDigit(h2) && IsDigit(m1) && IsDigit(m2)
    requires IsDigit(k1) && IsDigit(k2) && IsDigit(n1) && IsDigit(n2)
    requires 10 * DigitValue(h1) + DigitValue(h2) <= 23 && 10 * DigitValue(m1) + DigitValue(m2) <= 59
    requires 10 * DigitValue(k1) + DigitValue(k2) <= 23 && 10 * DigitValue(n1) + DigitValue(n2) <= 59
    requires DayStart <= ClockMinutes(h1, h2, m1, m2) <= ClockMinutes(k1, k2, n1, n2) <= DayEnd
    ensures Make(s) == Ok(TimeRange(s, ClockMinutes(h1, h2, m1, m2), ClockMinutes(k1, k2, n1, n2)))
  {
    assert s[..4] == [h1, h2, m1, m2] && s[5..] == [k1, k2, n1, n2];
    MakeCanonical(s, ClockMinutes(h1, h2, m1, m2), ClockMinutes(k1, k2, n1, n2));
  }

  /** The minute of the day written as the digits hhmm. */
  function ClockMinutes(h1: char, h2: char, m1: char, m2: char): int
    requires IsDigit(h1) && IsDigit(h2) && IsDigit(m1) && IsDigit(m2)
  {
    60 * (10 * DigitValue(h1) + DigitValue(h2)) + 10 * DigitValue(m1) + DigitValue(m2)
  }

  /** Make on a nine-character text whose halves parse inside the window. */
  lemma MakeCanonical(s: string, st: int, en: int)
    requires |s| == 9 && s[4] == '-'
    requires ParseHHmm(s[..4]) == Some(st) && ParseHHmm(s[5..]) == Some(en)
    requires DayStart <= st <= en <= DayEnd
    ensures Make(s) == Ok(TimeRange(s, st, en))
  {
    ValidIsCanonical(s);
    assert FirstDash(s) == 4 by {
      assert forall j :: 0 <= j < 4 ==> s[..4][j] == s[j];
    }
  }

  /** The intended test is the as-written test taken in either direction. */
  lemma OverlapsIsEitherClash(a: TimeRange, b: TimeRange)
    requires Wf(a) && Wf(b)
    ensures Overlaps(a, b) <==> IsClashing(a, b) || IsClashing(b, a)
    ensures Overlaps(a, b) <==> Overlaps(b, a)
  {
  }

  predicate Covers(r: TimeRange, t: int) { r.start <= t <= r.end }

  /** The intended test holds iff some minute lies in both closed intervals. */
  lemma OverlapsIffCommonMinute(a: TimeRange, b: TimeRange)
    requires Wf(a) && Wf(b)
    ensures Overlaps(a, b) <==> exists t :: Covers(a, t) && Covers(b, t)
  {
    if Overlaps(a, b) {
      var t := if a.start < b.start then b.start else a.start;
      assert Covers(a, t) && Covers(b, t);
    }
  }

  /** compareTo as written is not antisymmetric: -1 one way and 0 the other. */
  lemma CompareToAsWrittenNotAntisymmetric()
    ensures var a := TimeRange("0900-1200", 540, 720);
            var b := TimeRange("1000-1100", 600, 660);
            CompareToAsWritten(a, b) == -1 && CompareToAsWritten(b, a) == 0
  {
  }

  /** The intended compareTo is antisymmetric, as Comparable requires. */
  lemma CompareToAntisymmetric(a: TimeRange, b: TimeRange)
    ensures CompareTo(a, b) == -CompareTo(b, a)
  {
  }

  /** compareTo returns 0 only for clashing ranges; otherwise start times differ. */
  lemma CompareToZeroIffClash(a: TimeRange, b: TimeRange)
    requires Wf(a) && Wf(b)
    ensures CompareTo(a, b) == 0 <==> Overlaps(a, b)
    ensures !Overlaps(a, b) ==> a.start != b.start
  {
  }

  /** The test's expectations for compareTo. */
  lemma CompareToExamples()
    ensures var r := TimeRange("0900-1200", 540, 720);
            CompareTo(r, TimeRange("0900-1000", 540, 600)) == 0
            && CompareTo(r, TimeRange("1030-1300", 630, 780)) == 0
            && CompareTo(r, TimeRange("1300-1500", 780, 900)) == -1
            && CompareTo(TimeRange("1300-1500", 780, 900), r) == 1
  {
  }

  /** For constructed ranges, equality of times is equality of the text. */
  lemma EqualsIffSameText(s1: string, s2: string)
    requires Make(s1).Ok? && Make(s2).Ok?
    ensures Equals(Make(s1).value, Make(s2).value) <==> s1 == s2
  {
    ValidIsCanonical(s1);
    ValidIsCanonical(s2);
    if Equals(Make(s1).value, Make(s2).value) {
      assert FirstDash(s1) == 4 && FirstDash(s2) == 4;
      HHmmInjective(s1[..4], s2[..4]);
      HHmmInjective(s1[5..], s2[5..]);
      assert s1 == s1[..4] + "-" + s1[5..];
      assert s2 == s2[..4] + "-" + s2[5..];
    }
  }

  lemma HHmmInjective(t1: string, t2: string)
    requires ParseHHmm(t1).Some? && ParseHHmm(t2).Some?
    requires ParseHHmm(t1) == ParseHHmm(t2)
    ensures t1 == t2
  {
    var h1 := 10 * DigitValue(t1[0]) + DigitValue(t1[1]);
    var h2 := 10 * DigitValue(t2[0]) + DigitValue(t2[1]);
    var m1 := 10 * DigitValue(t1[2]) + DigitValue(t1[3]);
    var m2 := 10 * DigitValue(t2[2]) + DigitValue(t2[3]);
    assert h1 == h2 && m1 == m2;
    assert t1[0] == t2[0] && t1[1] == t2[1] && t1[2] == t2[2] && t1[3] == t2[3];
  }
}
