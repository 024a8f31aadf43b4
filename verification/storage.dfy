/**
 * JsonAdaptedLesson: the stored form of a lesson and its validation on
 * load. A JSON field that is absent is `None`. The subject, rate and
 * homework validators belong to classes that are not part of this model,
 * so they and their messages are parameters.
 */
module LessonStorage {
  import opened Wrappers
  import Dates
  import TimeRanges
  import Lessons
  import Text

  /** MISSING_FIELD_MESSAGE_FORMAT with the field's class name filled in. */
  function MissingField(field: string): string {
    "Lesson's " + field + " field is missing!"
  }

  /** The adapter's fields. Homework is kept as the set the lesson is built from. */
  datatype Adapted = Adapted(
    date: Option<string>,
    endDate: Option<string>,
    timeRange: Option<string>,
    subject: Option<string>,
    homework: set<string>,
    lessonRates: Option<string>,
    isRecurring: bool)

  /** Subject.isValidSubject, LessonRates.isValidLessonRates and the homework check, with their messages. */
  datatype Validators = Validators(
    isValidSubject: string -> bool,
    subjectConstraints: string,
    isValidRates: string -> bool,
    ratesConstraints: string,
    isValidHomework: string -> bool,
    homeworkConstraints: string)

  /** The JSON creator: absent homework is no homework, and the lesson is always recurring. */
  function FromJson(date: Option<string>, endDate: Option<string>, timeRange: Option<string>,
                    subject: Option<string>, homework: Option<set<string>>, lessonRates: Option<string>)
    : (a: Adapted)
    ensures a.isRecurring
    ensures a.homework == (if homework.Some? then homework.value else {})
    ensures a.date == date && a.endDate == endDate && a.timeRange == timeRange
      && a.subject == subject && a.lessonRates == lessonRates
  {
    Adapted(date, endDate, timeRange, subject, if homework.Some? then homework.value else {}, lessonRates, true)
  }

  /** The adapter built from a lesson: every stored field present, fees and cancellations not stored. */
  function FromLesson(l: Lessons.Lesson): (a: Adapted)
    ensures a.date == Some(l.startDate.value) && a.endDate == Some(l.endDate.value)
    ensures a.timeRange == Some(l.timeRange.value) && a.subject == Some(l.subject)
    ensures a.lessonRates == Some(l.rates) && a.homework == l.homework
    ensures a.isRecurring <==> Lessons.IsRecurring(l)
  {
    Adapted(Some(l.startDate.value), Some(l.endDate.value), Some(l.timeRange.value), Some(l.subject),
      l.homework, Some(l.rates), Lessons.IsRecurring(l))
  }

  /**
   * Reading a saved adapter back: the JSON creator runs on the stored fields
   * and marks the lesson recurring, then the object mapper writes the stored
   * `isRecurring` into the field, since it reads and writes fields directly.
   * The mapper's configuration is not part of this model.
   */
  function Reread(a: Adapted): (b: Adapted)
    ensures b.isRecurring == a.isRecurring
  {
    FromJson(a.date, a.endDate, a.timeRange, a.subject, Some(a.homework), a.lessonRates).(isRecurring := a.isRecurring)
  }

  /** Some homework entry fails its check. */
  predicate HasInvalidHomework(a: Adapted, v: Validators) {
    exists h :: h in a.homework && !v.isValidHomework(h)
  }

  /**
   * The checks of toModelType in the order they run: whether each fails,
   * and the message it reports. A check on a field is reached only after
   * the field was found present.
   */
  function Checks(a: Adapted, v: Validators): seq<(bool, string)> {
    DateChecks(a, v) + (TimeRangeChecks(a) + FieldChecks(a, v))
  }

  /** The homework check, then the presence and validity of both dates. */
  function DateChecks(a: Adapted, v: Validators): seq<(bool, string)> {
    [ (HasInvalidHomework(a, v), v.homeworkConstraints),
      (a.date.None? || a.endDate.None?, MissingField("Date")),
      (a.date.Some? && a.endDate.Some?
       && (!Dates.IsValidDate(a.date.value) || !Dates.IsValidDate(a.endDate.value)), Dates.MessageConstraints) ]
  }

  /** The presence and validity of the time range. */
  function TimeRangeChecks(a: Adapted): seq<(bool, string)> {
    [ (a.timeRange.None?, MissingField("TimeRange")),
      (a.timeRange.Some? && !TimeRanges.IsValidTimeRange(a.timeRange.value), TimeRanges.MessageConstraints) ]
  }

  /** The presence and validity of the subject, then of the rate. */
  function FieldChecks(a: Adapted, v: Validators): seq<(bool, string)> {
    [ (a.subject.None?, MissingField("Subject")),
      (a.subject.Some? && !v.isValidSubject(a.subject.value), v.subjectConstraints),
      (a.lessonRates.None?, MissingField("LessonRates")),
      (a.lessonRates.Some? && !v.isValidRates(a.lessonRates.value), v.ratesConstraints) ]
  }

  /** Both dates are present and valid. */
  predicate DatesValid(a: Adapted) {
    a.date.Some? && a.endDate.Some? && Dates.IsValidDate(a.date.value) && Dates.IsValidDate(a.endDate.value)
  }

  /** The message of the first failing check, if any. */
  function FirstFailure(checks: seq<(bool, string)>): (m: Option<string>)
    ensures m.None? <==> forall i :: 0 <= i < |checks| ==> !checks[i].0
    ensures m.Some? ==> exists i :: (0 <= i < |checks| && checks[i].0 && m.value == checks[i].1
      && forall j :: 0 <= j < i ==> !checks[j].0)
  {
    if |checks| == 0 then None
    else if checks[0].0 then Some(checks[0].1)
    else
      var m := FirstFailure(checks[1..]);
      assert forall i :: 1 <= i < |checks| ==> checks[i] == checks[1..][i - 1];
      m
  }

  /** A stored date: its text with leading zeros stripped, given to the Date constructor. */
  function LoadDate(s: string): (d: Dates.Date)
    requires Dates.IsValidDate(s)
    ensures Dates.Wf(d) && Some(d.ymd) == Dates.ParseDate(s)
    ensures d.value == Text.ToUpper(Dates.StripLeadingZeroes(s))
  {
    Dates.StripKeepsDate(s);
    Dates.Make(Dates.StripLeadingZeroes(s)).value
  }

  /**
   * toModelType: each field is checked in turn and the first failure is
   * reported (see ReportsFirstFailure). A recurring lesson is built with the
   * stored end date, a make-up lesson without one. Both constructors are
   * given the rate but not the outstanding fee or the cancelled dates; what
   * they store there, and a make-up lesson's end date, come from `u`.
   */
  function ToModelType(a: Adapted, v: Validators, u: Lessons.Unsupplied): (r: Result<Lessons.Lesson, string>)
    ensures r.Ok? ==> (a.date.Some? && a.endDate.Some? && a.timeRange.Some? && a.subject.Some?
      && a.lessonRates.Some? && Dates.IsValidDate(a.date.value) && Dates.IsValidDate(a.endDate.value))
    ensures r.Ok? ==> ((Lessons.UnsuppliedWf(u) ==> Lessons.Wf(r.value))
      && (r.value.kind == Lessons.Recurring <==> a.isRecurring)
      && r.value.startDate == LoadDate(a.date.value)
      && r.value.endDate == (if a.isRecurring then LoadDate(a.endDate.value) else u.endDate)
      && TimeRanges.Make(a.timeRange.value) == Ok(r.value.timeRange)
      && r.value.subject == a.subject.value && r.value.rates == a.lessonRates.value
      && r.value.homework == a.homework
      && r.value.outstanding == u.outstanding && r.value.cancelled == u.cancelled)
  {
    if HasInvalidHomework(a, v) then Err(v.homeworkConstraints)
    else if a.date.None? || a.endDate.None? then Err(MissingField("Date"))
    else if !Dates.IsValidDate(a.date.value) || !Dates.IsValidDate(a.endDate.value) then Err(Dates.MessageConstraints)
    else LoadTimeRange(a, v, u)
  }

  /** The rest of toModelType, once the dates have loaded. */
  function LoadTimeRange(a: Adapted, v: Validators, u: Lessons.Unsupplied): (r: Result<Lessons.Lesson, string>)
    requires DatesValid(a)
    ensures r.Ok? ==> (a.timeRange.Some? && a.subject.Some? && a.lessonRates.Some?
      && (Lessons.UnsuppliedWf(u) ==> Lessons.Wf(r.value))
      && (r.value.kind == Lessons.Recurring <==> a.isRecurring)
      && r.value.startDate == LoadDate(a.date.value)
      && r.value.endDate == (if a.isRecurring then LoadDate(a.endDate.value) else u.endDate)
      && TimeRanges.Make(a.timeRange.value) == Ok(r.value.timeRange)
      && r.value.subject == a.subject.value && r.value.rates == a.lessonRates.value
      && r.value.homework == a.homework
      && r.value.outstanding == u.outstanding && r.value.cancelled == u.cancelled)
  {
    var modelDate := LoadDate(a.date.value);
    var modelEndDate := LoadDate(a.endDate.value);
    if a.timeRange.None? then Err(MissingField("TimeRange"))
    else if !TimeRanges.IsValidTimeRange(a.timeRange.value) then Err(TimeRanges.MessageConstraints)
    else LoadFields(a, v, u, modelDate, modelEndDate, TimeRanges.Make(a.timeRange.value).value)
  }

  /** The rest of toModelType, once the dates and the time range have loaded. */
  function LoadFields(a: Adapted, v: Validators, u: Lessons.Unsupplied, modelDate: Dates.Date,
                      modelEndDate: Dates.Date, modelTimeRange: TimeRanges.TimeRange)
    : (r: Result<Lessons.Lesson, string>)
    ensures r.Ok? ==> (a.subject.Some? && a.lessonRates.Some?
      && ((Dates.Wf(modelDate) && Dates.Wf(modelEndDate) && TimeRanges.Wf(modelTimeRange)
           && Lessons.UnsuppliedWf(u)) ==> Lessons.Wf(r.value))
      && (r.value.kind == Lessons.Recurring <==> a.isRecurring)
      && r.value.startDate == modelDate
      && r.value.endDate == (if a.isRecurring then modelEndDate else u.endDate)
      && r.value.timeRange == modelTimeRange
      && r.value.subject == a.subject.value && r.value.rates == a.lessonRates.value
      && r.value.homework == a.homework
      && r.value.outstanding == u.outstanding && r.value.cancelled == u.cancelled)
  {
    if a.subject.None? then Err(MissingField("Subject"))
    else if !v.isValidSubject(a.subject.value) then Err(v.subjectConstraints)
    else if a.lessonRates.None? then Err(MissingField("LessonRates"))
    else if !v.isValidRates(a.lessonRates.value) then Err(v.ratesConstraints)
    else
      var kind := if a.isRecurring then Lessons.Recurring else Lessons.MakeUp;
      var end := if a.isRecurring then modelEndDate else u.endDate;
      Ok(Lessons.Lesson(kind, modelDate, end, modelTimeRange, a.subject.value, a.homework,
        a.lessonRates.value, u.outstanding, u.cancelled))
  }

  // ---------------------------------------------------------------------
  // Lemmas
  // ---------------------------------------------------------------------

  /**
   * toModelType fails exactly when one of its checks fails, and then
   * reports the message of the first failing check.
   */
  lemma ReportsFirstFailure(a: Adapted, v: Validators, u: Lessons.Unsupplied)
    ensures ToModelType(a, v, u).Err? <==> FirstFailure(Checks(a, v)).Some?
    ensures ToModelType(a, v, u).Err? ==> ToModelType(a, v, u).error == FirstFailure(Checks(a, v)).value
  {
    if HasInvalidHomework(a, v) || !DatesValid(a) {
      ReportsDateFailure(a, v, u);
    } else if a.timeRange.None? || !TimeRanges.IsValidTimeRange(a.timeRange.value) {
      ReportsTimeRangeFailure(a, v, u);
    } else {
      ReportsFieldFailure(a, v, u);
    }
  }

  /** The homework and date checks, which run first. */
  lemma ReportsDateFailure(a: Adapted, v: Validators, u: Lessons.Unsupplied)
    requires HasInvalidHomework(a, v) || a.date.None? || a.endDate.None?
      || !Dates.IsValidDate(a.date.value) || !Dates.IsValidDate(a.endDate.value)
    ensures ToModelType(a, v, u).Err? && FirstFailure(Checks(a, v)) == Some(ToModelType(a, v, u).error)
  {
    var ds := DateChecks(a, v);
    FirstFailureAppend(ds, TimeRangeChecks(a) + FieldChecks(a, v));
    if HasInvalidHomework(a, v) {
      FirstFailureAt(ds, 0);
    } else if a.date.None? || a.endDate.None? {
      FirstFailureAt(ds, 1);
    } else {
      FirstFailureAt(ds, 2);
    }
  }

  /** The time range checks, reached once the dates pass. */
  lemma ReportsTimeRangeFailure(a: Adapted, v: Validators, u: Lessons.Unsupplied)
    requires !HasInvalidHomework(a, v) && a.date.Some? && a.endDate.Some?
      && Dates.IsValidDate(a.date.value) && Dates.IsValidDate(a.endDate.value)
    requires a.timeRange.None? || !TimeRanges.IsValidTimeRange(a.timeRange.value)
    ensures ToModelType(a, v, u).Err? && FirstFailure(Checks(a, v)) == Some(ToModelType(a, v, u).error)
  {
    DatesPass(a, v, u);
    var ts := TimeRangeChecks(a);
    FirstFailureAppend(ts, FieldChecks(a, v));
    if a.timeRange.None? {
      FirstFailureAt(ts, 0);
    } else {
      FirstFailureAt(ts, 1);
    }
  }

  /** The subject and rate checks, reached last; if they pass the lesson loads. */
  lemma ReportsFieldFailure(a: Adapted, v: Validators, u: Lessons.Unsupplied)
    requires !HasInvalidHomework(a, v) && a.date.Some? && a.endDate.Some?
      && Dates.IsValidDate(a.date.value) && Dates.IsValidDate(a.endDate.value)
    requires a.timeRange.Some? && TimeRanges.IsValidTimeRange(a.timeRange.value)
    ensures ToModelType(a, v, u).Err? <==> FirstFailure(Checks(a, v)).Some?
    ensures ToModelType(a, v, u).Err? ==> FirstFailure(Checks(a, v)) == Some(ToModelType(a, v, u).error)
  {
    DatesPass(a, v, u);
    TimeRangePasses(a, v, u);
    FieldsReport(a, v, u, LoadDate(a.date.value), LoadDate(a.endDate.value), TimeRanges.Make(a.timeRange.value).value);
  }

  /** The subject and rate checks decide whether the remaining fields load. */
  lemma FieldsReport(a: Adapted, v: Validators, u: Lessons.Unsupplied, modelDate: Dates.Date, modelEndDate: Dates.Date,
                     modelTimeRange: TimeRanges.TimeRange)
    ensures LoadFields(a, v, u, modelDate, modelEndDate, modelTimeRange).Err? <==> FirstFailure(FieldChecks(a, v)).Some?
    ensures LoadFields(a, v, u, modelDate, modelEndDate, modelTimeRange).Err? ==>
      FirstFailure(FieldChecks(a, v)) == Some(LoadFields(a, v, u, modelDate, modelEndDate, modelTimeRange).error)
  {
    var fs := FieldChecks(a, v);
    if a.subject.None? {
      FirstFailureAt(fs, 0);
    } else if !v.isValidSubject(a.subject.value) {
      FirstFailureAt(fs, 1);
    } else if a.lessonRates.None? {
      FirstFailureAt(fs, 2);
    } else if !v.isValidRates(a.lessonRates.value) {
      FirstFailureAt(fs, 3);
    } else {
      assert forall i :: 0 <= i < |fs| ==> !fs[i].0;
    }
  }

  /** Once homework and dates pass, loading and reporting go on with the time range. */
  lemma DatesPass(a: Adapted, v: Validators, u: Lessons.Unsupplied)
    requires !HasInvalidHomework(a, v) && DatesValid(a)
    ensures ToModelType(a, v, u) == LoadTimeRange(a, v, u)
    ensures FirstFailure(Checks(a, v)) == FirstFailure(TimeRangeChecks(a) + FieldChecks(a, v))
  {
    var ds := DateChecks(a, v);
    FirstFailureAppend(ds, TimeRangeChecks(a) + FieldChecks(a, v));
    assert forall i :: 0 <= i < |ds| ==> !ds[i].0;
  }

  /** Once the time range also passes, loading and reporting go on with the other fields. */
  lemma TimeRangePasses(a: Adapted, v: Validators, u: Lessons.Unsupplied)
    requires DatesValid(a) && a.timeRange.Some? && TimeRanges.IsValidTimeRange(a.timeRange.value)
    ensures LoadTimeRange(a, v, u) == LoadFields(a, v, u, LoadDate(a.date.value), LoadDate(a.endDate.value),
      TimeRanges.Make(a.timeRange.value).value)
    ensures FirstFailure(TimeRangeChecks(a) + FieldChecks(a, v)) == FirstFailure(FieldChecks(a, v))
  {
    var ts := TimeRangeChecks(a);
    FirstFailureAppend(ts, FieldChecks(a, v));
    assert forall i :: 0 <= i < |ts| ==> !ts[i].0;
  }

  /** The first failure of consecutive checks is that of the first ones, or else that of the rest. */
  lemma {:induction false} FirstFailureAppend(p: seq<(bool, string)>, q: seq<(bool, string)>)
    ensures FirstFailure(p + q) == (if FirstFailure(p).Some? then FirstFailure(p) else FirstFailure(q))
  {
    if |p| == 0 {
      assert p + q == q;
    } else {
      assert (p + q)[1..] == p[1..] + q;
      FirstFailureAppend(p[1..], q);
    }
  }

  /** The first failing check decides the message. */
  lemma FirstFailureAt(checks: seq<(bool, string)>, i: int)
    requires 0 <= i < |checks| && checks[i].0 && forall j :: 0 <= j < i ==> !checks[j].0
    ensures FirstFailure(checks) == Some(checks[i].1)
  {
  }

  /** The creator alone marks every lesson recurring: whatever it reads loads, if at all, as a recurring lesson. */
  lemma JsonLoadsRecurring(date: Option<string>, endDate: Option<string>, timeRange: Option<string>,
                           subject: Option<string>, homework: Option<set<string>>,
                           lessonRates: Option<string>, v: Validators, u: Lessons.Unsupplied)
    ensures var r := ToModelType(FromJson(date, endDate, timeRange, subject, homework, lessonRates), v, u);
      r.Ok? ==> Lessons.IsRecurring(r.value)
  {
  }

  /**
   * The creator on a saved lesson's fields gives back its adapter exactly
   * when the lesson is recurring: a make-up lesson is marked recurring until
   * the stored flag is written back, after which the adapter is restored.
   */
  lemma CreatorInvertsSave(l: Lessons.Lesson)
    ensures var a := FromLesson(l);
      (FromJson(a.date, a.endDate, a.timeRange, a.subject, Some(a.homework), a.lessonRates) == a
       <==> Lessons.IsRecurring(l))
    ensures Reread(FromLesson(l)) == FromLesson(l)
  {
  }

  /** Reading back a saved adapter gives it unchanged. */
  lemma RereadRoundTrip(a: Adapted)
    ensures Reread(a) == a
  {
  }

  /** With valid homework, a missing date or end date is reported before anything else. */
  lemma MissingDateReportedFirst(a: Adapted, v: Validators, u: Lessons.Unsupplied)
    requires !HasInvalidHomework(a, v) && (a.date.None? || a.endDate.None?)
    ensures ToModelType(a, v, u) == Err(MissingField("Date"))
  {
  }

  /** A bad time range is not reported while a date is invalid: the date check runs first. */
  lemma DatesCheckedBeforeTimeRange(a: Adapted, v: Validators, u: Lessons.Unsupplied)
    requires !HasInvalidHomework(a, v) && a.date.Some? && a.endDate.Some?
    requires !Dates.IsValidDate(a.date.value)
    ensures ToModelType(a, v, u) == Err(Dates.MessageConstraints)
  {
  }

  /** Leading zeros of a stored date do not change the calendar date it loads as. */
  lemma LeadingZerosStripped(a: Adapted, v: Validators, u: Lessons.Unsupplied)
    requires ToModelType(a, v, u).Ok?
    ensures Some(ToModelType(a, v, u).value.startDate.ymd) == Dates.ParseDate(Dates.StripLeadingZeroes(a.date.value))
    ensures Some(ToModelType(a, v, u).value.startDate.ymd) == Dates.ParseDate(a.date.value)
  {
    Dates.StripKeepsDate(a.date.value);
  }

  /** A lesson whose date, end date and time range were built from their own text. */
  predicate Constructed(l: Lessons.Lesson) {
    Dates.Make(l.startDate.value) == Ok(l.startDate)
    && Dates.Make(l.endDate.value) == Ok(l.endDate)
    && TimeRanges.Make(l.timeRange.value) == Ok(l.timeRange)
  }

  /** The lesson's subject, rate and homework pass their validators. */
  predicate PassesValidators(l: Lessons.Lesson, v: Validators) {
    v.isValidSubject(l.subject) && v.isValidRates(l.rates) && forall h :: h in l.homework ==> v.isValidHomework(h)
  }

  /**
   * Saving, reading back and loading a constructed lesson gives back its
   * kind, calendar dates, time range, subject, homework and rate; its
   * outstanding fees and cancelled dates are what the constructors store.
   * When its date text has no leading zero the loaded lesson is equal to it.
   */
  lemma SaveLoadRoundTrip(l: Lessons.Lesson, v: Validators, u: Lessons.Unsupplied)
    requires Constructed(l) && PassesValidators(l, v)
    ensures ToModelType(Reread(FromLesson(l)), v, u).Ok?
    ensures var m := ToModelType(Reread(FromLesson(l)), v, u).value;
      m.kind == l.kind && m.startDate.ymd == l.startDate.ymd && m.timeRange == l.timeRange
      && m.subject == l.subject && m.homework == l.homework && m.rates == l.rates
      && (Lessons.IsRecurring(l) ==> m.endDate.ymd == l.endDate.ymd)
      && m.outstanding == u.outstanding && m.cancelled == u.cancelled
    ensures (l.startDate.value == [] || l.startDate.value[0] != '0') ==>
      Lessons.Equals(ToModelType(Reread(FromLesson(l)), v, u).value, l)
  {
    var a := FromLesson(l);
    RereadRoundTrip(a);
    LoadsConstructed(l, v, u);
    var m := ToModelType(a, v, u).value;
    assert m.startDate == LoadDate(l.startDate.value);
    if l.startDate.value == [] || l.startDate.value[0] != '0' {
      assert Dates.StripLeadingZeroes(l.startDate.value) == l.startDate.value;
    }
  }

  /** Every check passes on the adapter of a constructed lesson whose fields pass their validators. */
  lemma LoadsConstructed(l: Lessons.Lesson, v: Validators, u: Lessons.Unsupplied)
    requires Constructed(l) && PassesValidators(l, v)
    ensures ToModelType(FromLesson(l), v, u).Ok?
    ensures ToModelType(FromLesson(l), v, u).value.startDate.ymd == l.startDate.ymd
    ensures Lessons.IsRecurring(l) ==> ToModelType(FromLesson(l), v, u).value.endDate.ymd == l.endDate.ymd
  {
    var a := FromLesson(l);
    assert !HasInvalidHomework(a, v);
    assert Dates.IsValidDate(l.startDate.value) && Dates.IsValidDate(l.endDate.value);
    assert TimeRanges.IsValidTimeRange(l.timeRange.value);
  }
}
