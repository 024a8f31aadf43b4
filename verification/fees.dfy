/**
 * Fee accrual: how many weekly occurrences of a lesson fell between the
 * instant fees were last updated and now, and how the outstanding fee of a
 * lesson changes accordingly.
 *
 * Days are epoch day numbers (`Civil.EpochDay`), weekdays are ISO numbers
 * 1 (Monday) .. 7 (Sunday), times are minutes of the day.
 */
module Fees {
  import opened Wrappers
  import Civil

  /**
   * A date-time truncated to the minute. FeesCalculator truncates the
   * current time; the last-update time is taken as stored to the minute.
   */
  datatype Instant = Instant(day: int, minute: int)

  /** Strictly earlier, as LocalDateTime.isBefore. */
  predicate Before(a: Instant, b: Instant) {
    a.day < b.day || (a.day == b.day && a.minute < b.minute)
  }

  function W(d: int): int {
    Civil.DayOfWeek(d)
  }

  predicate IsWeekday(D: int) {
    1 <= D <= 7
  }

  function Max(a: int, b: int): int { if a >= b then a else b }
  function Min(a: int, b: int): int { if a <= b then a else b }

  // ---------------------------------------------------------------------
  // Weekday adjusters and whole weeks
  // ---------------------------------------------------------------------

  /** TemporalAdjusters.previous: the nearest strictly earlier day on weekday D. */
  function Previous(d: int, D: int): (p: int)
    requires IsWeekday(D)
    ensures p < d <= p + 7 && W(p) == D
  {
    var diff := D - W(d);
    var s := if diff >= 0 then 7 - diff else -diff;
    WeekdayShift(d, -s);
    d - s
  }

  /** TemporalAdjusters.next: the nearest strictly later day on weekday D. */
  function Next(d: int, D: int): (n: int)
    requires IsWeekday(D)
    ensures d < n <= d + 7 && W(n) == D
  {
    var diff := W(d) - D;
    var s := if diff >= 0 then 7 - diff else -diff;
    WeekdayShift(d, s);
    d + s
  }

  /** Moving a day on by s days moves its weekday on by s, cyclically. */
  lemma WeekdayShift(d: int, s: int)
    ensures W(d + s) == (W(d) - 1 + s) % 7 + 1
  {
    assert (d + s + 3) % 7 == ((d + 3) % 7 + s) % 7;
  }

  /** ChronoUnit.WEEKS.between: whole weeks from a to b, truncated toward zero. */
  function WeeksBetween(a: int, b: int): int {
    if b >= a then (b - a) / 7 else -((a - b) / 7)
  }

  // ---------------------------------------------------------------------
  // Counting days
  // ---------------------------------------------------------------------

  /** The number of days in [lo, hi] satisfying P. */
  function Count(lo: int, hi: int, P: int -> bool): nat
    decreases hi - lo
  {
    if hi < lo then 0 else Count(lo, hi - 1, P) + (if P(hi) then 1 else 0)
  }

  function OnWeekday(D: int): int -> bool {
    d => W(d) == D
  }

  /** The number of days on weekday D in [lo, hi]. */
  function CountWeekday(lo: int, hi: int, D: int): nat {
    Count(lo, hi, OnWeekday(D))
  }

  lemma {:induction false} CountSplit(lo: int, mid: int, hi: int, P: int -> bool)
    requires lo - 1 <= mid <= hi
    ensures Count(lo, hi, P) == Count(lo, mid, P) + Count(mid + 1, hi, P)
    decreases hi - mid
  {
    if hi > mid {
      CountSplit(lo, mid, hi - 1, P);
    }
  }

  lemma {:induction false} CountNone(lo: int, hi: int, P: int -> bool)
    requires forall d :: lo <= d <= hi ==> !P(d)
    ensures Count(lo, hi, P) == 0
    decreases hi - lo
  {
    if hi >= lo {
      CountNone(lo, hi - 1, P);
    }
  }

  lemma {:induction false} CountExt(lo: int, hi: int, P: int -> bool, Q: int -> bool)
    requires forall d :: lo <= d <= hi ==> P(d) == Q(d)
    ensures Count(lo, hi, P) == Count(lo, hi, Q)
    decreases hi - lo
  {
    if hi >= lo {
      CountExt(lo, hi - 1, P, Q);
    }
  }

  /** Splitting a predicate into two disjoint parts splits its count. */
  lemma {:induction false} CountPartition(lo: int, hi: int, P: int -> bool, A: int -> bool, B: int -> bool)
    requires forall d :: lo <= d <= hi ==> (P(d) <==> A(d) || B(d)) && !(A(d) && B(d))
    ensures Count(lo, hi, P) == Count(lo, hi, A) + Count(lo, hi, B)
    decreases hi - lo
  {
    if hi >= lo {
      CountPartition(lo, hi - 1, P, A, B);
    }
  }

  /** Adding one new day x to a predicate adds one to its count when x is in range. */
  lemma {:induction false} CountWithPoint(lo: int, hi: int, P: int -> bool, Q: int -> bool, x: int)
    requires !P(x) && Q(x)
    requires forall d :: lo <= d <= hi && d != x ==> P(d) == Q(d)
    ensures Count(lo, hi, Q) == Count(lo, hi, P) + (if lo <= x <= hi then 1 else 0)
    decreases hi - lo
  {
    if hi >= lo {
      CountWithPoint(lo, hi - 1, P, Q, x);
    }
  }

  /** Exactly one day in each run of seven consecutive days is on weekday D. */
  lemma OneWeek(p: int, D: int)
    requires W(p) == D
    ensures CountWeekday(p + 1, p + 7, D) == 1
  {
    forall d | p + 1 <= d <= p + 6
      ensures !OnWeekday(D)(d)
    {
      Civil.SameWeekdayIffWeeksApart(d, p);
    }
    CountNone(p + 1, p + 6, OnWeekday(D));
    Civil.DayOfWeekPeriodic(p, 1);
  }

  lemma {:induction false} Weeks(p: int, k: nat, D: int)
    requires W(p) == D
    ensures CountWeekday(p + 1, p + 7 * k, D) == k
  {
    if k > 0 {
      Weeks(p, k - 1, D);
      Civil.DayOfWeekPeriodic(p, k - 1);
      OneWeek(p + 7 * (k - 1), D);
      CountSplit(p + 1, p + 7 * (k - 1), p + 7 * k, OnWeekday(D));
    }
  }

  /**
   * The central counting fact: the whole weeks from the previous D-day
   * before lo to the next D-day after hi, less one, is the number of
   * D-days in [lo, hi].
   */
  lemma WeeksCountWeekday(lo: int, hi: int, D: int)
    requires IsWeekday(D) && lo <= hi
    ensures WeeksBetween(Previous(lo, D), Next(hi, D)) - 1 == CountWeekday(lo, hi, D)
  {
    var p, q := Previous(lo, D), Next(hi, D);
    Civil.SameWeekdayIffWeeksApart(q, p);
    var k := (q - p) / 7;
    assert q == p + 7 * k;
    Weeks(p, k, D);
    // p+1 .. lo-1 and hi+1 .. q-1 hold no D-day.
    forall d | p + 1 <= d <= lo - 1 || hi + 1 <= d <= q - 1
      ensures !OnWeekday(D)(d)
    {
      Civil.SameWeekdayIffWeeksApart(d, p);
      Civil.SameWeekdayIffWeeksApart(q, d);
    }
    CountNone(p + 1, lo - 1, OnWeekday(D));
    CountNone(hi + 1, q - 1, OnWeekday(D));
    CountSplit(p + 1, lo - 1, q, OnWeekday(D));
    CountSplit(lo, hi, q, OnWeekday(D));
    CountSplit(hi + 1, q - 1, q, OnWeekday(D));
  }

  // ---------------------------------------------------------------------
  // The lessons a recurring schedule owes for between two instants
  // ---------------------------------------------------------------------

  /**
   * What the count needs to know of a recurring lesson: its weekday (that
   * of its first date), its first and last days, the minute it ends and
   * the epoch days of its cancelled dates (a day may be listed more than
   * once, under differently padded texts).
   */
  datatype Schedule = Schedule(weekday: int, startDay: int, endDay: int, endTime: int, cancelled: seq<int>)

  predicate ScheduleWf(s: Schedule) {
    IsWeekday(s.weekday) && W(s.startDay) == s.weekday
  }

  /**
   * The reference definition: day d holds an occurrence that is billed
   * between lastUpdated and now when it is a lesson day that is not
   * cancelled and the lesson's end instant on it lies in (lastUpdated, now].
   */
  function Billed(s: Schedule, lastUpdated: Instant, now: Instant): int -> bool {
    d => s.startDay <= d <= s.endDay && W(d) == s.weekday && d !in s.cancelled
      && Before(lastUpdated, Instant(d, s.endTime)) && !Before(now, Instant(d, s.endTime))
  }

  function Occurrences(s: Schedule, lastUpdated: Instant, now: Instant): nat {
    Count(s.startDay, s.endDay, Billed(s, lastUpdated, now))
  }

  /** Cancelled days on weekday D: a member of the cancelled list. */
  function CancelledOn(D: int, c: seq<int>): int -> bool {
    d => W(d) == D && d in c
  }

  /**
   * The number of distinct cancelled days in [lo, hi] on weekday D,
   * counting each day at its first listing.
   */
  function CancelledHits(c: seq<int>, lo: int, hi: int, D: int): (n: nat)
    ensures n <= |c|
  {
    if |c| == 0 then 0
    else
      var x := c[|c| - 1];
      var isNew := lo <= x <= hi && W(x) == D && x !in c[..|c| - 1];
      CancelledHits(c[..|c| - 1], lo, hi, D) + (if isNew then 1 else 0)
  }

  /** The first day whose end instant lies after lastUpdated. */
  function FirstAfter(lastUpdated: Instant, endTime: int): int {
    if lastUpdated.minute < endTime then lastUpdated.day else lastUpdated.day + 1
  }

  /** The last day whose end instant lies at or before now. */
  function LastBy(now: Instant, endTime: int): int {
    if endTime <= now.minute then now.day else now.day - 1
  }

  /**
   * The number of lessons to bill between lastUpdated and now, computed as
   * FeesCalculator computes it (whole weeks between weekday adjusters, less the
   * cancellations) but over the window of end instants in (lastUpdated, now]
   * and with each cancelled lesson day subtracted once.
   */
  function NumLessons(s: Schedule, lastUpdated: Instant, now: Instant): (n: nat)
    requires ScheduleWf(s)
    ensures n == Occurrences(s, lastUpdated, now)
  {
    var lo := Max(s.startDay, FirstAfter(lastUpdated, s.endTime));
    var hi := Min(s.endDay, LastBy(now, s.endTime));
    if lo > hi then
      OutsideWindow(s, lastUpdated, now, lo, hi);
      0
    else
      WeeksCountWeekday(lo, hi, s.weekday);
      InsideWindow(s, lastUpdated, now, lo, hi);
      WeeksBetween(Previous(lo, s.weekday), Next(hi, s.weekday)) - 1
        - CancelledHits(s.cancelled, lo, hi, s.weekday)
  }

  /** A day is billed exactly when it lies in the window and is a lesson day that is not cancelled. */
  lemma BilledInWindow(s: Schedule, lastUpdated: Instant, now: Instant, d: int)
    ensures Billed(s, lastUpdated, now)(d) <==>
      Max(s.startDay, FirstAfter(lastUpdated, s.endTime)) <= d <= Min(s.endDay, LastBy(now, s.endTime))
      && W(d) == s.weekday && d !in s.cancelled
  {
  }

  lemma OutsideWindow(s: Schedule, lastUpdated: Instant, now: Instant, lo: int, hi: int)
    requires lo == Max(s.startDay, FirstAfter(lastUpdated, s.endTime))
    requires hi == Min(s.endDay, LastBy(now, s.endTime))
    requires lo > hi
    ensures Occurrences(s, lastUpdated, now) == 0
  {
    forall d | s.startDay <= d <= s.endDay
      ensures !Billed(s, lastUpdated, now)(d)
    {
      BilledInWindow(s, lastUpdated, now, d);
    }
    CountNone(s.startDay, s.endDay, Billed(s, lastUpdated, now));
  }

  lemma InsideWindow(s: Schedule, lastUpdated: Instant, now: Instant, lo: int, hi: int)
    requires lo == Max(s.startDay, FirstAfter(lastUpdated, s.endTime))
    requires hi == Min(s.endDay, LastBy(now, s.endTime))
    requires lo <= hi
    ensures Occurrences(s, lastUpdated, now)
      == CountWeekday(lo, hi, s.weekday) - CancelledHits(s.cancelled, lo, hi, s.weekday)
  {
    var B := Billed(s, lastUpdated, now);
    forall d | s.startDay <= d <= lo - 1 || hi + 1 <= d <= s.endDay
      ensures !B(d)
    {
      BilledInWindow(s, lastUpdated, now, d);
    }
    CountNone(s.startDay, lo - 1, B);
    CountNone(hi + 1, s.endDay, B);
    CountSplit(s.startDay, lo - 1, s.endDay, B);
    CountSplit(lo, hi, s.endDay, B);
    forall d | lo <= d <= hi
      ensures (OnWeekday(s.weekday)(d) <==> B(d) || CancelledOn(s.weekday, s.cancelled)(d))
        && !(B(d) && CancelledOn(s.weekday, s.cancelled)(d))
    {
      BilledInWindow(s, lastUpdated, now, d);
    }
    CountPartition(lo, hi, OnWeekday(s.weekday), B, CancelledOn(s.weekday, s.cancelled));
    CancelledHitsCount(s.cancelled, lo, hi, s.weekday);
  }

  /** Counting distinct cancelled listings is counting the cancelled lesson days. */
  lemma {:induction false} CancelledHitsCount(c: seq<int>, lo: int, hi: int, D: int)
    ensures CancelledHits(c, lo, hi, D) == Count(lo, hi, CancelledOn(D, c))
  {
    if |c| == 0 {
      CountNone(lo, hi, CancelledOn(D, c));
    } else {
      var init, x := c[..|c| - 1], c[|c| - 1];
      assert c == init + [x];
      CancelledHitsCount(init, lo, hi, D);
      if W(x) == D && x !in init {
        CountWithPoint(lo, hi, CancelledOn(D, init), CancelledOn(D, c), x);
      } else {
        CountExt(lo, hi, CancelledOn(D, init), CancelledOn(D, c));
      }
    }
  }

  /**
   * Billing in two steps bills exactly what billing once does: the
   * occurrences up to an intermediate update and those after it make up
   * the occurrences of the whole span.
   */
  lemma OccurrencesAdditive(s: Schedule, a: Instant, b: Instant, c: Instant)
    requires !Before(b, a) && !Before(c, b)
    ensures Occurrences(s, a, b) + Occurrences(s, b, c) == Occurrences(s, a, c)
  {
    CountPartition(s.startDay, s.endDay, Billed(s, a, c), Billed(s, a, b), Billed(s, b, c));
  }

  /** Nothing is billed when no time has passed, or when time went backward. */
  lemma NoTimeNoLessons(s: Schedule, lastUpdated: Instant, now: Instant)
    requires !Before(lastUpdated, now)
    ensures Occurrences(s, lastUpdated, now) == 0
  {
    CountNone(s.startDay, s.endDay, Billed(s, lastUpdated, now));
  }

  /** A cancelled day is never billed. */
  lemma CancelledNeverBilled(s: Schedule, lastUpdated: Instant, now: Instant, d: int)
    requires d in s.cancelled
    ensures !Billed(s, lastUpdated, now)(d)
  {
  }

  // ---------------------------------------------------------------------
  // The count as FeesCalculator writes it
  // ---------------------------------------------------------------------

  /** The cancelled listings whose date lies in [from, to], both ends included. */
  function CancelledBetween(c: seq<int>, from: int, to: int): (n: nat)
    ensures n <= |c|
  {
    if |c| == 0 then 0
    else CancelledBetween(c[..|c| - 1], from, to) + (if from <= c[|c| - 1] <= to then 1 else 0)
  }

  /** No listing is counted exactly when none lies in range, and all are exactly when all do. */
  lemma {:induction false} CancelledBetweenCounts(c: seq<int>, from: int, to: int)
    ensures CancelledBetween(c, from, to) == 0 <==> forall i :: 0 <= i < |c| ==> !(from <= c[i] <= to)
    ensures CancelledBetween(c, from, to) == |c| <==> forall i :: 0 <= i < |c| ==> from <= c[i] <= to
    decreases |c|
  {
    if |c| != 0 {
      var p := c[..|c| - 1];
      CancelledBetweenCounts(p, from, to);
      assert forall i :: 0 <= i < |p| ==> p[i] == c[i];
    }
  }

  /**
   * FeesCalculator.getNumOfLessonsSinceLastUpdate as written: clamp to
   * [max(start, lastUpdated date), min(end, now date)], count whole weeks
   * between the adjusted weekdays, subtract every cancelled listing dated
   * between the two update dates, and subtract one when the lesson on the
   * lastUpdated day ended before lastUpdated or the lesson on the current
   * day has not yet ended.
   */
  function NumLessonsAsWritten(s: Schedule, lastUpdated: Instant, now: Instant): (n: int)
    requires IsWeekday(s.weekday)
    ensures n != 0 ==> lastUpdated != now && Max(s.startDay, lastUpdated.day) <= Min(s.endDay, now.day)
    ensures n != 0 ==> n <= CountWeekday(Max(s.startDay, lastUpdated.day), Min(s.endDay, now.day), s.weekday)
  {
    if lastUpdated == now then 0
    else
      var laterStart := Max(s.startDay, lastUpdated.day);
      var earlierEnd := Min(s.endDay, now.day);
      if laterStart > earlierEnd then 0
      else
        AsWrittenBaseCount(s, lastUpdated, now);
        var n := WeeksBetween(Previous(laterStart, s.weekday), Next(earlierEnd, s.weekday)) - 1
          - CancelledBetween(s.cancelled, lastUpdated.day, now.day);
        if n == 0 then 0
        else
          if EndedBeforeLastUpdated(s, lastUpdated) || NotEndedYet(s, now) then n - 1 else n
  }

  /** Before the corrections, FeesCalculator's count is the number of lesson weekdays in the clamped window. */
  lemma AsWrittenBaseCount(s: Schedule, lastUpdated: Instant, now: Instant)
    requires IsWeekday(s.weekday) && lastUpdated != now
    requires Max(s.startDay, lastUpdated.day) <= Min(s.endDay, now.day)
    ensures var lo, hi := Max(s.startDay, lastUpdated.day), Min(s.endDay, now.day);
      WeeksBetween(Previous(lo, s.weekday), Next(hi, s.weekday)) - 1 == CountWeekday(lo, hi, s.weekday)
  {
    WeeksCountWeekday(Max(s.startDay, lastUpdated.day), Min(s.endDay, now.day), s.weekday);
  }

  /** FeesCalculator returns 0 when no time passed and when the clamped window is empty. */
  lemma AsWrittenEmptyCases(s: Schedule, lastUpdated: Instant, now: Instant)
    requires IsWeekday(s.weekday)
    ensures lastUpdated == now ==> NumLessonsAsWritten(s, lastUpdated, now) == 0
    ensures Max(s.startDay, lastUpdated.day) > Min(s.endDay, now.day) ==> NumLessonsAsWritten(s, lastUpdated, now) == 0
  {
  }

  /**
   * The edge correction subtracts at most one: away from the n == 0 return,
   * the result is the corrected-free count less cancellations, less at most one.
   */
  lemma AsWrittenSubtractsAtMostOnce(s: Schedule, lastUpdated: Instant, now: Instant)
    requires IsWeekday(s.weekday) && lastUpdated != now
    requires Max(s.startDay, lastUpdated.day) <= Min(s.endDay, now.day)
    ensures var lo, hi := Max(s.startDay, lastUpdated.day), Min(s.endDay, now.day);
      var n := CountWeekday(lo, hi, s.weekday) - CancelledBetween(s.cancelled, lastUpdated.day, now.day);
      NumLessonsAsWritten(s, lastUpdated, now) == 0
      || NumLessonsAsWritten(s, lastUpdated, now) == n
      || NumLessonsAsWritten(s, lastUpdated, now) == n - 1
  {
    AsWrittenBaseCount(s, lastUpdated, now);
  }

  // ---------------------------------------------------------------------
  // When FeesCalculator's count is right, and when it is not
  // ---------------------------------------------------------------------

  predicate Distinct(c: seq<int>) {
    forall i, j :: 0 <= i < j < |c| ==> c[i] != c[j]
  }

  /**
   * When the listings are distinct days and every listing dated between the
   * update dates is a lesson day inside the clamped window, FeesCalculator's
   * subtraction counts exactly the cancelled lesson days of that window.
   */
  lemma {:induction false} BetweenIsHits(c: seq<int>, from: int, to: int, lo: int, hi: int, D: int)
    requires Distinct(c) && from <= lo && hi <= to
    requires forall i :: 0 <= i < |c| && from <= c[i] <= to ==> lo <= c[i] <= hi && W(c[i]) == D
    ensures CancelledBetween(c, from, to) == CancelledHits(c, lo, hi, D)
  {
    if |c| > 0 {
      var init := c[..|c| - 1];
      assert forall i :: 0 <= i < |init| ==> init[i] == c[i];
      BetweenIsHits(init, from, to, lo, hi, D);
    }
  }

  lemma {:induction false} NoListingsNoHits(c: seq<int>, from: int, to: int, lo: int, hi: int, D: int)
    requires CancelledBetween(c, from, to) == 0 && from <= lo && hi <= to
    ensures CancelledHits(c, lo, hi, D) == 0
  {
    if |c| > 0 {
      NoListingsNoHits(c[..|c| - 1], from, to, lo, hi, D);
    }
  }

  function NotCancelledOn(D: int, c: seq<int>): int -> bool {
    d => W(d) == D && d !in c
  }

  lemma HitsAtMostWeekdays(c: seq<int>, lo: int, hi: int, D: int)
    ensures CancelledHits(c, lo, hi, D) <= CountWeekday(lo, hi, D)
  {
    CancelledHitsCount(c, lo, hi, D);
    CountPartition(lo, hi, OnWeekday(D), CancelledOn(D, c), NotCancelledOn(D, c));
  }

  /**
   * The count FeesCalculator asserts to be non-negative is non-negative when
   * the cancelled dates are distinct days, and each one dated between the
   * update dates falls on the lesson's weekday within its first and last
   * days. Nothing in FeesCalculator checks either condition.
   */
  lemma AsWrittenNonNegative(s: Schedule, lastUpdated: Instant, now: Instant)
    requires IsWeekday(s.weekday) && Distinct(s.cancelled)
    requires forall i :: 0 <= i < |s.cancelled| && lastUpdated.day <= s.cancelled[i] <= now.day ==>
      s.startDay <= s.cancelled[i] <= s.endDay && W(s.cancelled[i]) == s.weekday
    ensures NumLessonsAsWritten(s, lastUpdated, now) >= 0
  {
    var lo, hi := Max(s.startDay, lastUpdated.day), Min(s.endDay, now.day);
    if lastUpdated != now && lo <= hi {
      AsWrittenBaseCount(s, lastUpdated, now);
      BetweenIsHits(s.cancelled, lastUpdated.day, now.day, lo, hi, s.weekday);
      HitsAtMostWeekdays(s.cancelled, lo, hi, s.weekday);
    }
  }

  lemma DropFirst(lo: int, hi: int, D: int)
    requires lo <= hi
    ensures CountWeekday(lo, hi, D) == (if W(lo) == D then 1 else 0) + CountWeekday(lo + 1, hi, D)
  {
    CountSplit(lo, lo, hi, OnWeekday(D));
  }

  /**
   * Away from its defects FeesCalculator's count is the corrected one: when
   * time moved forward, lastUpdated is not exactly a lesson's end minute,
   * no cancelled date lies between the update dates, and the two edge
   * corrections do not both apply.
   */
  lemma AsWrittenAgreesOffEdges(s: Schedule, lastUpdated: Instant, now: Instant)
    requires ScheduleWf(s) && Before(lastUpdated, now) && lastUpdated.minute != s.endTime
    requires CancelledBetween(s.cancelled, lastUpdated.day, now.day) == 0
    requires !(EndedBeforeLastUpdated(s, lastUpdated) && NotEndedYet(s, now))
    ensures NumLessonsAsWritten(s, lastUpdated, now) == NumLessons(s, lastUpdated, now)
  {
    var D := s.weekday;
    var ls, ee := Max(s.startDay, lastUpdated.day), Min(s.endDay, now.day);
    var lo := Max(s.startDay, FirstAfter(lastUpdated, s.endTime));
    var hi := Min(s.endDay, LastBy(now, s.endTime));
    if ls <= ee {
      AsWrittenBaseCount(s, lastUpdated, now);
      var b1 := EndedBeforeLastUpdated(s, lastUpdated);
      var b2 := NotEndedYet(s, now);
      var n := CountWeekday(ls, ee, D);
      assert NumLessonsAsWritten(s, lastUpdated, now) == (if n == 0 then 0 else if b1 || b2 then n - 1 else n);
      assert lo == (if ls == lastUpdated.day && lastUpdated.minute > s.endTime then ls + 1 else ls);
      assert hi == (if ee == now.day && now.minute < s.endTime then ee - 1 else ee);
      // Dropping the first and last days removes exactly the edge corrections.
      var mid := CountWeekday(lo, ee, D);
      assert mid == CountWeekday(ls, ee, D) - (if b1 then 1 else 0) by {
        if lo == ls + 1 { DropFirst(ls, ee, D); }
      }
      assert CountWeekday(lo, hi, D) == CountWeekday(ls, ee, D) - (if b1 then 1 else 0) - (if b2 then 1 else 0) by {
        if lo <= ee && hi == ee - 1 {
          assert CountWeekday(lo, ee, D) == CountWeekday(lo, hi, D) + (if W(ee) == D then 1 else 0);
        }
      }
      if lo <= hi {
        NoListingsNoHits(s.cancelled, lastUpdated.day, now.day, lo, hi, D);
        InsideWindow(s, lastUpdated, now, lo, hi);
        assert NumLessons(s, lastUpdated, now) == CountWeekday(lo, hi, D);
      } else {
        OutsideWindow(s, lastUpdated, now, lo, hi);
        assert NumLessons(s, lastUpdated, now) == 0;
      }
    } else {
      OutsideWindow(s, lastUpdated, now, lo, hi);
    }
  }

  /** FeesCalculator's first edge condition: the lesson on the lastUpdated day ended before it. */
  predicate EndedBeforeLastUpdated(s: Schedule, lastUpdated: Instant) {
    Max(s.startDay, lastUpdated.day) == lastUpdated.day && W(lastUpdated.day) == s.weekday
    && lastUpdated.minute > s.endTime
  }

  /** FeesCalculator's second edge condition: the lesson on the current day has not ended yet. */
  predicate NotEndedYet(s: Schedule, now: Instant) {
    Min(s.endDay, now.day) == now.day && W(now.day) == s.weekday && now.minute < s.endTime
  }

  // ---------------------------------------------------------------------
  // Examples, on the days of October 2021
  // ---------------------------------------------------------------------

  /** LocalDate.MAX as an epoch day: a lesson without an end. */
  const MaxDay := 365241780471

  /** Epoch days used below: 28 Sep 2021 was a Tuesday. */
  lemma OctoberDays()
    ensures Civil.EpochDay(Civil.YMD(2021, 9, 28)) == 18898 && W(18898) == 2
    ensures Civil.EpochDay(Civil.YMD(2021, 10, 5)) == 18905
    ensures Civil.EpochDay(Civil.YMD(2021, 10, 13)) == 18913 && W(18913) == 3
    ensures Civil.EpochDay(Civil.YMD(2021, 10, 26)) == 18926
  {
  }

  /**
   * FeesCalculator's own examples: a Tuesday lesson ending 12:00 from 28 Sep,
   * updated 6 Oct 12:00 and counted 28 Oct 12:00 with last day 30 Oct,
   * owes 12, 19 and 26 Oct.
   */
  lemma ExampleWholeWeeks()
    ensures var s := Schedule(2, 18898, 18930, 720, []);
      NumLessonsAsWritten(s, Instant(18906, 720), Instant(18928, 720)) == 3
      && NumLessons(s, Instant(18906, 720), Instant(18928, 720)) == 3
  {
    assert Previous(18906, 2) == 18905 && Next(18928, 2) == 18933;
    assert Previous(18907, 2) == 18905;
  }

  /** Tuesday lesson from 5 Oct to 26 Oct with 12 and 19 Oct cancelled: 5 and 26 Oct are owed. */
  lemma ExampleCancelledBetween()
    ensures var s := Schedule(2, 18905, 18926, 720, [18912, 18919]);
      NumLessonsAsWritten(s, Instant(18904, 600), Instant(18928, 660)) == 2
      && NumLessons(s, Instant(18904, 600), Instant(18928, 660)) == 2
  {
    var c := [18912, 18919];
    assert Previous(18905, 2) == 18898 && Next(18926, 2) == 18933;
    assert CancelledBetween(c, 18904, 18928) == 2;
    assert CancelledHits(c, 18905, 18926, 2) == 2;
  }

  /** The only passed occurrence, 5 Oct, is cancelled: nothing is owed. */
  lemma ExampleOnlyOccurrenceCancelled()
    ensures var s := Schedule(2, 18905, 18926, 720, [18905]);
      NumLessonsAsWritten(s, Instant(18904, 600), Instant(18911, 660)) == 0
      && NumLessons(s, Instant(18904, 600), Instant(18911, 660)) == 0
  {
    var c := [18905];
    assert Previous(18905, 2) == 18898 && Next(18911, 2) == 18912 && Next(18910, 2) == 18912;
    assert CancelledBetween(c, 18904, 18911) == 1;
    assert CancelledHits(c, 18905, 18910, 2) == 1;
  }

  /** Last updated after the lesson ended that day: it is not counted again. */
  lemma ExampleEndedBeforeLastUpdate()
    ensures var s := Schedule(2, 18926, MaxDay, 720, []);
      NumLessonsAsWritten(s, Instant(18926, 780), Instant(18926, 840)) == 0
      && NumLessons(s, Instant(18926, 780), Instant(18926, 840)) == 0
  {
  }

  /** A Wednesday lesson updated after it ended on 13 Oct: 20 and 27 Oct are owed. */
  lemma ExampleLaterWeeks()
    ensures var s := Schedule(3, 18913, MaxDay, 720, []);
      NumLessonsAsWritten(s, Instant(18913, 780), Instant(18927, 780)) == 2
      && NumLessons(s, Instant(18913, 780), Instant(18927, 780)) == 2
  {
  }

  /**
   * Both edge corrections apply but only one is subtracted: a Tuesday
   * lesson ending 12:00, updated Tue 5 Oct 13:00 and counted Tue 19 Oct
   * 11:00, owes only 12 Oct, yet FeesCalculator counts two.
   */
  lemma BothEdgesSubtractOnce()
    ensures var s := Schedule(2, 18898, MaxDay, 720, []);
      NumLessonsAsWritten(s, Instant(18905, 780), Instant(18919, 660)) == 2
      && NumLessons(s, Instant(18905, 780), Instant(18919, 660)) == 1
  {
    var s := Schedule(2, 18898, MaxDay, 720, []);
    assert Previous(18905, 2) == 18898 && Next(18919, 2) == 18926;
    assert EndedBeforeLastUpdated(s, Instant(18905, 780));
    assert Previous(18906, 2) == 18905 && Next(18918, 2) == 18919;
  }

  /**
   * A cancellation on the lastUpdated day is subtracted twice: once as a
   * cancelled date and once by the edge correction. With 5 Oct cancelled,
   * updated 5 Oct 13:00 and counted 19 Oct 13:00, 12 and 19 Oct are owed,
   * yet FeesCalculator counts one.
   */
  lemma CancelledEdgeSubtractedTwice()
    ensures var s := Schedule(2, 18898, MaxDay, 720, [18905]);
      NumLessonsAsWritten(s, Instant(18905, 780), Instant(18919, 780)) == 1
      && NumLessons(s, Instant(18905, 780), Instant(18919, 780)) == 2
  {
    var c := [18905];
    assert Previous(18905, 2) == 18898 && Next(18919, 2) == 18926;
    assert Previous(18906, 2) == 18905;
    assert CancelledBetween(c, 18905, 18919) == 1;
    assert CancelledHits(c, 18906, 18919, 2) == 0;
  }

  /**
   * A cancelled date that is not a lesson day still lowers the count: with
   * Wed 6 Oct cancelled for a Tuesday lesson, a day of updates from
   * 6 Oct 10:00 to 7 Oct 10:00 yields -1.
   */
  lemma CancelledOffWeekdayGoesNegative()
    ensures var s := Schedule(2, 18898, MaxDay, 720, [18906]);
      NumLessonsAsWritten(s, Instant(18906, 600), Instant(18907, 600)) == -1
      && NumLessons(s, Instant(18906, 600), Instant(18907, 600)) == 0
  {
  }

  /**
   * An update at exactly a lesson's end minute bills that lesson in both
   * the update that ends there and the one that starts there: from Mon
   * 4 Oct 10:00 through Tue 5 Oct 12:00 to Tue 12 Oct 13:00 FeesCalculator
   * bills 1 + 2 lessons for the two occurrences 5 and 12 Oct.
   */
  lemma ExactEndMinuteBilledTwice()
    ensures var s := Schedule(2, 18898, MaxDay, 720, []);
      NumLessonsAsWritten(s, Instant(18904, 600), Instant(18905, 720)) == 1
      && NumLessonsAsWritten(s, Instant(18905, 720), Instant(18912, 780)) == 2
      && NumLessons(s, Instant(18904, 600), Instant(18912, 780)) == 2
  {
    var s := Schedule(2, 18898, MaxDay, 720, []);
    assert Previous(18904, 2) == 18898 && Next(18905, 2) == 18912;
    assert !NotEndedYet(s, Instant(18905, 720));
    assert Previous(18905, 2) == 18898 && Next(18912, 2) == 18919;
    assert !EndedBeforeLastUpdated(s, Instant(18905, 720)) && !NotEndedYet(s, Instant(18912, 780));
  }
}
