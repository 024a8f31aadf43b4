/**
 * Lessons: a weekly recurring lesson or a one-off make-up lesson, with its
 * dates, time range, subject, homework, rate, outstanding fees and
 * cancelled dates.
 */
module Lessons {
  import opened Wrappers
  import Civil
  import Dates
  import TimeRanges

  datatype Kind = Recurring | MakeUp

  /**
   * `rates` is the rate text; `outstanding` is the outstanding fee in
   * cents; `cancelled` lists the cancelled dates without repetition, in the
   * iteration order of the lesson's set of dates.
   */
  datatype Lesson = Lesson(
    kind: Kind,
    startDate: Dates.Date,
    endDate: Dates.Date,
    timeRange: TimeRanges.TimeRange,
    subject: string,
    homework: set<string>,
    rates: string,
    outstanding: nat,
    cancelled: seq<Dates.Date>)

  /** The invariant of a constructed lesson: its value objects are constructed ones. */
  predicate Wf(l: Lesson) {
    Dates.Wf(l.startDate) && Dates.Wf(l.endDate) && TimeRanges.Wf(l.timeRange)
    && forall i :: 0 <= i < |l.cancelled| ==> Dates.Wf(l.cancelled[i])
  }

  /**
   * What a four-argument lesson constructor (date, time range, subject,
   * homework) puts in the fields it is not given: end date, rate,
   * outstanding fee and cancelled dates. Those constructors are not part of
   * this model, so their values are a parameter of every operation that
   * calls one.
   */
  datatype Unsupplied = Unsupplied(endDate: Dates.Date, rates: string, outstanding: nat,
                                   cancelled: seq<Dates.Date>)

  /** The unsupplied dates are constructed ones. */
  predicate UnsuppliedWf(u: Unsupplied) {
    Dates.Wf(u.endDate) && forall i :: 0 <= i < |u.cancelled| ==> Dates.Wf(u.cancelled[i])
  }

  /** `new RecurringLesson(date, timeRange, subject, homework)`, or the make-up one. */
  function Construct(kind: Kind, date: Dates.Date, timeRange: TimeRanges.TimeRange, subject: string,
                     homework: set<string>, u: Unsupplied): Lesson {
    Lesson(kind, date, u.endDate, timeRange, subject, homework, u.rates, u.outstanding, u.cancelled)
  }

  predicate IsRecurring(l: Lesson) {
    l.kind == Recurring
  }

  /** The epoch day of the lesson's (first) date. */
  function Day(l: Lesson): int {
    Dates.EpochDay(l.startDate)
  }

  function DayOfWeek(l: Lesson): int {
    Dates.GetDayOfWeek(l.startDate)
  }

  function StartMinute(l: Lesson): int {
    l.timeRange.start
  }

  /**
   * Lesson.equals: date text, start, end, subject, homework and kind.
   * Rates, fees, end date and cancelled dates are not compared.
   */
  function Equals(a: Lesson, b: Lesson): (r: bool)
    ensures r ==> a.kind == b.kind && StartMinute(a) == StartMinute(b) && a.subject == b.subject
  {
    Dates.Equals(a.startDate, b.startDate)
    && a.timeRange.start == b.timeRange.start
    && a.timeRange.end == b.timeRange.end
    && a.subject == b.subject
    && a.homework == b.homework
    && IsRecurring(a) == IsRecurring(b)
  }

  /**
   * Lesson.compareTo: by calendar date, then by start time. On different
   * dates the result is the date comparison's field difference; on the same
   * date it is -1, 0 or 1 by start time.
   */
  function CompareTo(a: Lesson, b: Lesson): (r: int)
    ensures a.startDate.ymd != b.startDate.ymd ==> r == Dates.CompareTo(a.startDate, b.startDate)
    ensures a.startDate.ymd == b.startDate.ymd ==>
      -1 <= r <= 1 && (r < 0 <==> StartMinute(a) < StartMinute(b))
    ensures r == 0 <==> a.startDate.ymd == b.startDate.ymd && StartMinute(a) == StartMinute(b)
  {
    var byDate := Dates.CompareTo(a.startDate, b.startDate);
    var byTime := TimeRanges.Sign(StartMinute(a) - StartMinute(b));
    if byDate == 0 then byTime else byDate
  }

  /**
   * Lesson.updateDateWithWeek: the date seven days later, formatted and
   * parsed again. A date past year 9999 has no four-digit text, so the
   * parse fails there.
   */
  function UpdateDateWithWeek(l: Lesson): (r: Result<Dates.Date, string>)
    requires Wf(l)
    ensures r.Ok? <==> Civil.PlusWeek(l.startDate.ymd).year <= 9999
    ensures r.Ok? ==> (Dates.Wf(r.value)
      && Dates.EpochDay(r.value) == Day(l) + 7
      && Dates.GetDayOfWeek(r.value) == DayOfWeek(l))
  {
    Dates.WfIsValid(l.startDate);
    var x := Civil.PlusWeek(l.startDate.ymd);
    Civil.PlusWeekEpoch(l.startDate.ymd);
    if x.year > 9999 then Err(Dates.MessageConstraints)
    else
      Dates.MakeFormatted(x);
      Dates.WeekLaterWeekday(Dates.Make(Dates.Format(x)).value, l.startDate.ymd);
      Dates.Make(Dates.Format(x))
  }

  /** MakeUpLesson.getDisplayDate: a make-up lesson has one date, its start date. */
  function DisplayDate(l: Lesson): (d: Dates.Date)
    requires !IsRecurring(l)
    ensures Dates.Equals(d, l.startDate)
  {
    l.startDate
  }

  /**
   * MakeUpLesson.isClashing, over the intended, symmetric time-range clash.
   * Against a recurring lesson: on or after its first date, on the same
   * weekday, at overlapping times (its end date and cancellations are not
   * consulted). Against a one-off lesson: same day, overlapping times.
   */
  function MakeUpIsClashing(a: Lesson, other: Lesson): (r: bool)
    requires !IsRecurring(a)
    ensures r ==> TimeRanges.Overlaps(a.timeRange, other.timeRange) && Day(a) >= Day(other)
    ensures r && !IsRecurring(other) ==> Day(a) == Day(other)
  {
    if IsRecurring(other) then
      Day(a) >= Day(other) && DayOfWeek(a) == DayOfWeek(other)
      && TimeRanges.Overlaps(a.timeRange, other.timeRange)
    else
      Day(a) == Day(other) && TimeRanges.Overlaps(a.timeRange, other.timeRange)
  }

  /**
   * RecurringLesson.updateDate: when the new date is strictly later, a new
   * recurring lesson built from that date and the lesson's time range,
   * subject and homework (its other fields are what the constructor puts
   * there, `u`); otherwise the lesson itself. Invalid text is rejected by
   * the Date constructor.
   */
  function UpdateDate(l: Lesson, newDate: string, u: Unsupplied): (r: Result<Lesson, string>)
    requires IsRecurring(l)
    ensures r.Err? <==> !Dates.IsValidDate(newDate)
    ensures r.Ok? ==> (r.value.timeRange == l.timeRange && r.value.subject == l.subject
      && r.value.homework == l.homework && IsRecurring(r.value))
    ensures r.Ok? ==> Dates.CompareTo(r.value.startDate, l.startDate) >= 0
    ensures r.Ok? && Dates.CompareTo(Dates.Make(newDate).value, l.startDate) > 0 ==>
      r.value.startDate == Dates.Make(newDate).value
      && r.value.endDate == u.endDate && r.value.rates == u.rates
      && r.value.outstanding == u.outstanding && r.value.cancelled == u.cancelled
    ensures r.Ok? && Dates.CompareTo(Dates.Make(newDate).value, l.startDate) <= 0 ==> r.value == l
  {
    match Dates.Make(newDate)
    case Err(e) => Err(e)
    case Ok(d) =>
      if Dates.CompareTo(d, l.startDate) > 0 then Ok(Construct(Recurring, d, l.timeRange, l.subject, l.homework, u))
      else Ok(l)
  }

  // ---------------------------------------------------------------------
  // Lemmas
  // ---------------------------------------------------------------------

  /** compareTo is the lexicographic order on (epoch day, start minute). */
  lemma CompareToIsSlotOrder(a: Lesson, b: Lesson)
    requires Wf(a) && Wf(b)
    ensures CompareTo(a, b) < 0 <==>
      Day(a) < Day(b) || (Day(a) == Day(b) && StartMinute(a) < StartMinute(b))
    ensures CompareTo(a, b) == 0 <==> Day(a) == Day(b) && StartMinute(a) == StartMinute(b)
  {
    Dates.WfIsValid(a.startDate);
    Dates.WfIsValid(b.startDate);
    Civil.CompareIsEpochOrder(a.startDate.ymd, b.startDate.ymd);
  }

  /** compareTo is antisymmetric ... */
  lemma CompareToAntisymmetric(a: Lesson, b: Lesson)
    ensures CompareTo(a, b) == -CompareTo(b, a)
  {
  }

  /** ... and transitive, so it sorts lessons. */
  lemma CompareToTransitive(a: Lesson, b: Lesson, c: Lesson)
    requires CompareTo(a, b) < 0 && CompareTo(b, c) < 0
    ensures CompareTo(a, c) < 0
  {
  }

  /** Equal lessons occupy the same slot, whatever their fees or cancellations. */
  lemma EqualsImpliesSameSlot(a: Lesson, b: Lesson)
    requires Wf(a) && Wf(b) && Equals(a, b)
    ensures CompareTo(a, b) == 0
    ensures Equals(a, b.(outstanding := a.outstanding, rates := a.rates, cancelled := a.cancelled))
  {
    Dates.EqualsImpliesSameDay(a.startDate, b.startDate);
  }

  /** Lesson equality is an equivalence relation. */
  lemma EqualsIsEquivalence(a: Lesson, b: Lesson, c: Lesson)
    ensures Equals(a, a)
    ensures Equals(a, b) ==> Equals(b, a)
    ensures Equals(a, b) && Equals(b, c) ==> Equals(a, c)
  {
  }

  /** One weekly step moves the date 7 days on and keeps the weekday. */
  lemma UpdateDateWithWeekKeepsWeekday(l: Lesson)
    requires Wf(l) && UpdateDateWithWeek(l).Ok?
    ensures var d := UpdateDateWithWeek(l).value;
      Wf(l.(startDate := d)) && DayOfWeek(l.(startDate := d)) == DayOfWeek(l)
      && Day(l.(startDate := d)) == Day(l) + 7
  {
  }

  /** Two one-off lessons clash symmetrically. */
  lemma MakeUpClashSymmetric(a: Lesson, b: Lesson)
    requires !IsRecurring(a) && !IsRecurring(b)
    ensures MakeUpIsClashing(a, b) <==> MakeUpIsClashing(b, a)
  {
  }

  /**
   * A one-off lesson and a recurring one clash exactly when the one-off
   * lesson falls on a weekly occurrence (ignoring the end date and
   * cancellations) and the times overlap.
   */
  lemma MakeUpVersusRecurring(a: Lesson, r: Lesson)
    requires !IsRecurring(a) && IsRecurring(r)
    ensures MakeUpIsClashing(a, r) <==>
      (exists k: nat :: Day(a) == Day(r) + 7 * k) && TimeRanges.Overlaps(a.timeRange, r.timeRange)
  {
    Civil.SameWeekdayIffWeeksApart(Day(a), Day(r));
    if MakeUpIsClashing(a, r) {
      var k := (Day(a) - Day(r)) / 7;
      assert Day(a) == Day(r) + 7 * k;
    }
    if exists k: nat :: Day(a) == Day(r) + 7 * k {
      var k: nat :| Day(a) == Day(r) + 7 * k;
      Civil.DayOfWeekPeriodic(Day(r), k);
    }
  }

  /** The recurring branch does not look at the other lesson's end date or cancellations. */
  lemma MakeUpIgnoresEndAndCancellations(a: Lesson, r: Lesson, e: Dates.Date, c: seq<Dates.Date>)
    requires !IsRecurring(a) && IsRecurring(r)
    ensures MakeUpIsClashing(a, r) == MakeUpIsClashing(a, r.(endDate := e, cancelled := c))
  {
  }

  /** updateDate never moves a lesson's date backward, and keeps it when the date is not later. */
  lemma UpdateDateMonotone(l: Lesson, s: string, u: Unsupplied)
    requires IsRecurring(l) && Wf(l) && UpdateDate(l, s, u).Ok?
    ensures Day(UpdateDate(l, s, u).value) >= Day(l)
    ensures Day(UpdateDate(l, s, u).value) > Day(l) <==> UpdateDate(l, s, u).value != l
  {
    var d := Dates.Make(s).value;
    Dates.WfIsValid(l.startDate);
    Dates.WfIsValid(d);
    Civil.CompareIsEpochOrder(d.ymd, l.startDate.ymd);
  }

  /**
   * A lesson moved to a later date does not carry over the original's end
   * date, rate, outstanding fee or cancelled dates: two lessons that differ
   * only there move to the same lesson.
   */
  lemma UpdateDateForgetsFees(l: Lesson, s: string, u: Unsupplied, endDate: Dates.Date, rates: string,
                              outstanding: nat, cancelled: seq<Dates.Date>)
    requires IsRecurring(l) && Dates.IsValidDate(s)
    requires Dates.CompareTo(Dates.Make(s).value, l.startDate) > 0
    ensures var other := l.(endDate := endDate, rates := rates, outstanding := outstanding, cancelled := cancelled);
      UpdateDate(l, s, u) == UpdateDate(other, s, u)
  {
  }
}
