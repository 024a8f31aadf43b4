/**
 * Updating a lesson's outstanding fee when the application starts, and
 * paying fees off. Amounts are whole cents; the cost of one lesson is a
 * parameter (FeesCalculator derives it in floating point from the duration and
 * the hourly rate).
 */
module FeeUpdates {
  import opened Wrappers
  import Dates
  import Lessons
  import Fees

  const MessagePayTooMuch := "Payment amount exceeds current outstanding fees. Invalid transaction."

  /** The epoch days of a list of dates, in listing order. */
  function EpochDays(c: seq<Dates.Date>): (r: seq<int>)
    ensures |r| == |c|
    ensures forall i :: 0 <= i < |r| ==> r[i] == Dates.EpochDay(c[i])
  {
    if |c| == 0 then [] else EpochDays(c[..|c| - 1]) + [Dates.EpochDay(c[|c| - 1])]
  }

  /** The arguments FeesCalculator passes to the count: the lesson's weekday, dates, end time and cancellations. */
  function ScheduleOf(l: Lessons.Lesson): (s: Fees.Schedule)
    ensures Fees.ScheduleWf(s)
    ensures s.weekday == Lessons.DayOfWeek(l) && s.startDay == Lessons.Day(l)
    ensures s.endDay == Dates.EpochDay(l.endDate) && s.endTime == l.timeRange.end
  {
    Fees.Schedule(Lessons.DayOfWeek(l), Lessons.Day(l), Dates.EpochDay(l.endDate), l.timeRange.end,
      EpochDays(l.cancelled))
  }

  /** The instant a one-off lesson ends. */
  function EndInstant(l: Lessons.Lesson): Fees.Instant {
    Fees.Instant(Lessons.Day(l), l.timeRange.end)
  }

  /** getUpdatedOutstandingFeesMakeup as written: the end lies strictly between the two updates. */
  function MakeUpBilledAsWritten(l: Lessons.Lesson, lastUpdated: Fees.Instant, now: Fees.Instant): (b: bool)
    ensures b ==> MakeUpBilled(l, lastUpdated, now)
  {
    Fees.Before(lastUpdated, EndInstant(l)) && Fees.Before(EndInstant(l), now)
  }

  /** The corrected rule, matching the recurring count: the end lies in (lastUpdated, now]. */
  function MakeUpBilled(l: Lessons.Lesson, lastUpdated: Fees.Instant, now: Fees.Instant): (b: bool)
    ensures b ==> Fees.Before(lastUpdated, now)
  {
    Fees.Before(lastUpdated, EndInstant(l)) && !Fees.Before(now, EndInstant(l))
  }

  /** The fee for n lessons at the given cost each. */
  function Accrued(cost: nat, n: nat): nat {
    cost * n
  }

  /**
   * FeesCalculator.updateLessonOutstandingFeesField: a recurring lesson
   * that has started is billed one cost per occurrence that ended since
   * the last update; one that has not started keeps its fee; a make-up
   * lesson is billed once if it ended since the last update. Whether the
   * lesson has started is a parameter.
   */
  function UpdateFees(l: Lessons.Lesson, cost: nat, lastUpdated: Fees.Instant, now: Fees.Instant,
                      hasStarted: bool): (r: Lessons.Lesson)
    ensures r == l.(outstanding := r.outstanding)
    ensures Lessons.IsRecurring(l) && hasStarted ==>
      r.outstanding == l.outstanding + Accrued(cost, Fees.Occurrences(ScheduleOf(l), lastUpdated, now))
    ensures Lessons.IsRecurring(l) && !hasStarted ==> r == l
    ensures !Lessons.IsRecurring(l) ==>
      r.outstanding == l.outstanding + (if MakeUpBilled(l, lastUpdated, now) then cost else 0)
  {
    if Lessons.IsRecurring(l) then
      if hasStarted then
        var n := Fees.NumLessons(ScheduleOf(l), lastUpdated, now);
        l.(outstanding := l.outstanding + Accrued(cost, n))
      else l
    else
      l.(outstanding := l.outstanding + (if MakeUpBilled(l, lastUpdated, now) then cost else 0))
  }

  /**
   * The outstanding fee updateLessonOutstandingFeesField computes as
   * written: the recurring count as written (it subtracts cancelled
   * listings that were never billed, so it can drop below zero; the
   * assertion against that is not enforced) and the make-up rule that is
   * strict at both ends, so a make-up lesson ending at the update instant
   * is not billed.
   */
  function UpdatedFeeAsWritten(l: Lessons.Lesson, cost: nat, lastUpdated: Fees.Instant, now: Fees.Instant,
                               hasStarted: bool): (fee: int)
    ensures Lessons.IsRecurring(l) && !hasStarted ==> fee == l.outstanding
    ensures !Lessons.IsRecurring(l) ==> fee == l.outstanding || fee == l.outstanding + cost
    ensures !Lessons.IsRecurring(l) && now == EndInstant(l) ==> fee == l.outstanding
  {
    if Lessons.IsRecurring(l) then
      if hasStarted then l.outstanding + cost * Fees.NumLessonsAsWritten(ScheduleOf(l), lastUpdated, now)
      else l.outstanding
    else
      l.outstanding + (if MakeUpBilledAsWritten(l, lastUpdated, now) then cost else 0)
  }

  /**
   * FeesCalculator.pay: an overpayment is an error; otherwise the balance
   * drops by the payment.
   */
  function Pay(outstanding: nat, payment: nat): (r: Result<nat, string>)
    ensures r.Err? <==> payment > outstanding
    ensures r.Err? ==> r.error == MessagePayTooMuch
    ensures r.Ok? ==> r.value + payment == outstanding
  {
    if payment > outstanding then Err(MessagePayTooMuch) else Ok(outstanding - payment)
  }

  // ---------------------------------------------------------------------
  // Lemmas
  // ---------------------------------------------------------------------

  /**
   * Updating at an intermediate instant and again now bills exactly what a
   * single update would: no occurrence is billed twice or skipped.
   */
  lemma UpdateTwiceIsUpdateOnce(l: Lessons.Lesson, cost: nat, a: Fees.Instant, b: Fees.Instant,
                                c: Fees.Instant, hasStarted: bool)
    requires !Fees.Before(b, a) && !Fees.Before(c, b)
    ensures UpdateFees(UpdateFees(l, cost, a, b, hasStarted), cost, b, c, hasStarted)
      == UpdateFees(l, cost, a, c, hasStarted)
  {
    if Lessons.IsRecurring(l) && hasStarted {
      RecurringTwice(l, cost, a, b, c);
    } else if !Lessons.IsRecurring(l) {
      MakeUpTwice(l, cost, a, b, c, hasStarted);
    }
  }

  lemma RecurringTwice(l: Lessons.Lesson, cost: nat, a: Fees.Instant, b: Fees.Instant, c: Fees.Instant)
    requires Lessons.IsRecurring(l)
    requires !Fees.Before(b, a) && !Fees.Before(c, b)
    ensures UpdateFees(UpdateFees(l, cost, a, b, true), cost, b, c, true) == UpdateFees(l, cost, a, c, true)
  {
    var m := UpdateFees(l, cost, a, b, true);
    var s := ScheduleOf(l);
    assert ScheduleOf(m) == s;
    var x, y := Fees.Occurrences(s, a, b), Fees.Occurrences(s, b, c);
    Fees.OccurrencesAdditive(s, a, b, c);
    AccruedAdds(cost, x, y);
    var twice, once := UpdateFees(m, cost, b, c, true), UpdateFees(l, cost, a, c, true);
    assert twice.outstanding == once.outstanding;
    assert twice == m.(outstanding := twice.outstanding) == l.(outstanding := twice.outstanding);
  }

  lemma MakeUpTwice(l: Lessons.Lesson, cost: nat, a: Fees.Instant, b: Fees.Instant, c: Fees.Instant,
                    hasStarted: bool)
    requires !Lessons.IsRecurring(l)
    requires !Fees.Before(b, a) && !Fees.Before(c, b)
    ensures UpdateFees(UpdateFees(l, cost, a, b, hasStarted), cost, b, c, hasStarted)
      == UpdateFees(l, cost, a, c, hasStarted)
  {
    var m := UpdateFees(l, cost, a, b, hasStarted);
    assert EndInstant(m) == EndInstant(l);
    assert !Lessons.IsRecurring(m);
  }

  lemma AccruedAdds(cost: nat, x: nat, y: nat)
    ensures Accrued(cost, x + y) == Accrued(cost, x) + Accrued(cost, y)
  {
    assert cost * (x + y) == cost * x + cost * y;
  }

  /** Updating with no time passed changes nothing. */
  lemma UpdateAtSameInstant(l: Lessons.Lesson, cost: nat, now: Fees.Instant, hasStarted: bool)
    ensures UpdateFees(l, cost, now, now, hasStarted) == l
  {
    Fees.NoTimeNoLessons(ScheduleOf(l), now, now);
  }

  /** The update keeps the lesson's kind. */
  lemma UpdateKeepsKind(l: Lessons.Lesson, cost: nat, a: Fees.Instant, b: Fees.Instant, hasStarted: bool)
    ensures Lessons.IsRecurring(UpdateFees(l, cost, a, b, hasStarted)) == Lessons.IsRecurring(l)
    ensures Lessons.Equals(UpdateFees(l, cost, a, b, hasStarted), l)
  {
  }

  /**
   * As written, a make-up lesson that ends exactly at the minute of an
   * update is billed by neither the update ending there nor the one
   * starting there; the corrected rule bills it once.
   */
  lemma MakeUpAtUpdateMinuteNeverBilled(l: Lessons.Lesson, a: Fees.Instant, c: Fees.Instant)
    requires Fees.Before(a, EndInstant(l))
    ensures !MakeUpBilledAsWritten(l, a, EndInstant(l)) && !MakeUpBilledAsWritten(l, EndInstant(l), c)
    ensures MakeUpBilled(l, a, EndInstant(l)) && !MakeUpBilled(l, EndInstant(l), c)
  {
  }

  /** The two make-up rules differ only when an update falls on the lesson's end minute. */
  lemma MakeUpRulesAgreeOffEndMinute(l: Lessons.Lesson, a: Fees.Instant, b: Fees.Instant)
    requires b != EndInstant(l)
    ensures MakeUpBilledAsWritten(l, a, b) == MakeUpBilled(l, a, b)
  {
  }

  /**
   * Away from the edges where they differ, the fee as written is the fee
   * the model bills: for a recurring lesson, no update at its end minute,
   * no cancelled listing between the two update dates and not both edge
   * corrections at once; for a make-up lesson, no update at its end.
   */
  lemma UpdatedFeeAgreesOffEdges(l: Lessons.Lesson, cost: nat, lastUpdated: Fees.Instant, now: Fees.Instant,
                                 hasStarted: bool)
    requires Fees.Before(lastUpdated, now)
    requires Lessons.IsRecurring(l) ==>
      lastUpdated.minute != l.timeRange.end
      && Fees.CancelledBetween(EpochDays(l.cancelled), lastUpdated.day, now.day) == 0
      && !(Fees.EndedBeforeLastUpdated(ScheduleOf(l), lastUpdated) && Fees.NotEndedYet(ScheduleOf(l), now))
    requires !Lessons.IsRecurring(l) ==> now != EndInstant(l)
    ensures UpdatedFeeAsWritten(l, cost, lastUpdated, now, hasStarted)
      == UpdateFees(l, cost, lastUpdated, now, hasStarted).outstanding
  {
    if Lessons.IsRecurring(l) {
      if hasStarted {
        Fees.AsWrittenAgreesOffEdges(ScheduleOf(l), lastUpdated, now);
      }
    } else {
      MakeUpRulesAgreeOffEndMinute(l, lastUpdated, now);
    }
  }

  /**
   * A make-up lesson that ends exactly when the fees are updated is not
   * billed as written, and is billed once by the model.
   */
  lemma MakeUpEndingAtUpdate(l: Lessons.Lesson, cost: nat, lastUpdated: Fees.Instant, hasStarted: bool)
    requires !Lessons.IsRecurring(l) && Fees.Before(lastUpdated, EndInstant(l))
    ensures UpdatedFeeAsWritten(l, cost, lastUpdated, EndInstant(l), hasStarted) == l.outstanding
    ensures UpdateFees(l, cost, lastUpdated, EndInstant(l), hasStarted).outstanding == l.outstanding + cost
  {
  }

  /** Paying in two instalments is paying their sum at once. */
  lemma PayInInstalments(outstanding: nat, p: nat, q: nat)
    requires Pay(outstanding, p).Ok?
    ensures Pay(Pay(outstanding, p).value, q) == Pay(outstanding, p + q)
  {
  }

  /** Paying the whole balance clears it; paying one cent more is refused. */
  lemma PayExactBalance(outstanding: nat)
    ensures Pay(outstanding, outstanding) == Ok(0)
    ensures Pay(outstanding, outstanding + 1) == Err(MessagePayTooMuch)
  {
  }
}
