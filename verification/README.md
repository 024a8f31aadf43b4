# Lessons, fees and the lesson calendar of a tuition address book

This project models the core of a tuition centre's address book in Dafny:
students carry lessons, and each lesson accrues fees, shows up in a calendar,
and is added, edited and deleted by commands. The model covers:

- **Value objects.**
  - Calendar dates (`Dates`, over the civil calendar of `Civil`): `d MMM uuuu` text, upper-cased and compared by calendar day.
  - Time ranges (`TimeRanges`): `HHmm-HHmm` between 08:00 and 22:00, with the clash test and ordering.
  - Monetary amounts (`Monies`): validation and the normalised two-place text.
  - Tags (`Tags`): an alphanumeric, upper-cased name with a student count.
- **Lessons** (`Lessons`). A recurring or make-up lesson has:
  - start and end dates, a time range, subject and homework;
  - a rate, an outstanding fee in cents, and cancelled dates.

  The model covers its order, its equality, the week-later date, the date update of a recurring lesson, and the make-up clash rule.
- **Fee accrual** (`Fees`, `FeeUpdates`).
  - `Fees` counts weekly occurrences of a lesson between the last fee update and now. The count is given twice: as `FeesCalculator` computes it (`NumLessonsAsWritten`), and as a corrected count (`NumLessons`) that is proved equal to a reference definition (`Occurrences`: the lesson days whose end instant lies in the half-open window). Dates are epoch day numbers, weekdays are ISO numbers, and times are minutes of the day.
  - `FeeUpdates` updates a lesson's outstanding fee and handles payment.
- **Lesson sets** (`LessonSets`). A person's lessons form a TreeSet ordered by `Lesson.compareTo`, modelled as a strictly sorted sequence.
- **Person list** (`UniquePersons`). This is `UniquePersonList` with its no-duplicate-identity invariant. Person identity (`isSamePerson`) is a parameter.
- **Commands** (`CommandUtil`, `LessonCommands`):
  - the index lookups;
  - the add, edit and delete lesson commands as transitions on the list of persons, with their index and clash failures and the undo of a change.
- **Storage** (`LessonStorage`). The JSON adapter's two constructors, reading a saved adapter back, and the ordered validation of `toModelType`, in which the first failing field decides the error.
- **Calendar** (`CalendarEntries`):
  - the calendar entries of a lesson: a one-off entry for a make-up lesson, and weekly segments cut by the sorted cancelled dates for a recurring lesson;
  - the `hasClashes` queries;
  - adding and removing a lesson's entries;
  - the weekly recurrence rule text, which follows section 3.3.10 of RFC 5545 with the DATE form of section 3.3.4 for `UNTIL`.

Where the code and its intent part ways, both halves are modelled: the as-written member, with a lemma that exhibits the difference, and the corrected member, which the rest of the model uses (see Findings). The test at `src/test/java/seedu/address/model/lesson/TimeRangeTest.java:37` expects `"0000-1400"` to be valid. The code rejects it by the 08:00 rule, and the model follows the code (`TimeRanges.MidnightStartRejected`). Likewise, the comments of `Date.compareTo` and `Lesson.compareTo` promise 1, 0 or -1, but `LocalDate.compareTo` returns the difference of the first differing field (year, month or day). The model returns that difference (`Civil.CompareIsDifference`). Every caller uses only its sign.

## Model

| member | source | states |
|---|---|---|
| `Dates.Make` | src/main/java/seedu/address/model/lesson/Date.java:45-50 | the constructor fails with the date constraint message exactly when the text is not a valid date; otherwise it keeps the upper-cased text and the calendar day that text parses to |
| `Dates.ParseIgnoresCase` | src/main/java/seedu/address/model/lesson/Date.java:31-35 | the formatter is case-insensitive: upper-casing a text never changes whether or to what it parses |
| `Dates.UpperMonthAbbrevIsUpper` | src/main/java/seedu/address/model/lesson/Date.java:31-35 | the month names the case-insensitive parse compares against are the `MMM` abbreviations upper-cased |
| `Dates.FormatRoundTrip` | src/main/java/seedu/address/model/lesson/Date.java:31-35 | formatting any existing day of years 0-9999 as `d MMM uuuu` and parsing it back, in any case, gives the same day |
| `Dates.ParsedIsValid` | src/main/java/seedu/address/model/lesson/Date.java:57-64 | the strict resolver accepts only days that exist in the calendar, with a four-digit year |
| `Dates.IsValidDate` | src/main/java/seedu/address/model/lesson/Date.java:57-64 | a valid text names an existing day of a four-digit year |
| `Dates.LeapDayExamples` | src/main/java/seedu/address/model/lesson/Date.java:57-64 | 29 Feb 2021 is rejected and 29 feb 2024 is accepted |
| `Dates.ShortMonthExamples` | src/main/java/seedu/address/model/lesson/Date.java:57-64 | 31 Apr 2021 is rejected and 30 APR 2021 is accepted |
| `Dates.LayoutExamples` | src/main/java/seedu/address/model/lesson/Date.java:57-64 | the ISO layout and full month names are rejected |
| `Dates.EqualsImpliesSameDay` | src/main/java/seedu/address/model/lesson/Date.java:105-126 | Dates equal by text compare as 0 and are the same value |
| `Dates.Equals` | src/main/java/seedu/address/model/lesson/Date.java:105-110 | between constructed dates, equal texts mean the same date, text and day alike |
| `Dates.CompareToIsCalendarOrder` | src/main/java/seedu/address/model/lesson/Date.java:124-126 | between constructed dates the sign of compareTo is the epoch-day order, it is 0 exactly for the same day, and swapping the dates negates it |
| `Dates.Format` | src/main/java/seedu/address/model/lesson/Date.java:31-35 | formatting a day of a four-digit year gives a text the strict pattern parses back to that day |
| `Dates.StripLeadingZeroes` | src/main/java/seedu/address/storage/JsonAdaptedLesson.java:91-92 | the result is the text after its run of leading '0' characters, and does not start with '0' |
| `Dates.PaddingSplitsEqualityFromOrder` | src/main/java/seedu/address/model/lesson/Date.java:105-126 | "05 Oct 2021" and "5 Oct 2021" are unequal Dates that compare as 0 |
| `Dates.DayOfWeekFromCalendarDate` | src/main/java/seedu/address/model/lesson/Date.java:75-77 | the weekday is determined by the calendar day alone |
| `Dates.MakeFormatted` | src/main/java/seedu/address/model/lesson/Lesson.java:83-86 | rebuilding a Date from the formatted text of an existing day succeeds and denotes that day |
| `Dates.StripKeepsDate` | src/main/java/seedu/address/storage/JsonAdaptedLesson.java:91-92 | stripping leading zeros from a valid date text keeps it valid and denoting the same day |
| `Civil.CompareIsEpochOrder` | src/main/java/seedu/address/model/lesson/Date.java:124-126 | calendar comparison agrees with epoch-day order, and is 0 exactly for the same day |
| `Civil.Compare` | src/main/java/seedu/address/model/lesson/Date.java:124-126 | the comparison is negative exactly when the first differing field of (year, month, day) is smaller, and 0 exactly for the same day |
| `Civil.CompareIsDifference` | src/main/java/seedu/address/model/lesson/Date.java:124-126 | the result is the difference of the first differing field, not just -1, 0 or 1: 27 Oct against 25 Oct 2021 gives 2 |
| `Civil.CompareAntisymmetric` | src/main/java/seedu/address/model/lesson/Date.java:124-126 | swapping the dates negates the comparison |
| `Civil.PlusWeekEpoch` | src/main/java/seedu/address/model/lesson/Lesson.java:83-86 | seven days later is an existing day exactly 7 epoch days later |
| `Civil.MinusWeekEpoch` | src/main/java/seedu/address/model/lesson/CalendarEntryList.java:225 | a week earlier is an existing day exactly 7 epoch days earlier |
| `Civil.SameWeekdayIffWeeksApart` | src/main/java/seedu/address/model/lesson/Date.java:75-77 | two days share a weekday exactly when they are a whole number of weeks apart |
| `Civil.DayOfWeekPeriodic` | src/main/java/seedu/address/model/lesson/Date.java:75-77 | the weekday repeats every 7 days, forward and backward |
| `TimeRanges.Make` | src/main/java/seedu/address/model/lesson/TimeRange.java:37-44 | the constructor fails with the constraint message exactly on invalid text; otherwise it keeps the text and the times parsed from the halves around the dash, and the range lies in the day window |
| `TimeRanges.ValidIsCanonical` | src/main/java/seedu/address/model/lesson/TimeRange.java:65-82 | a text is valid exactly when it is `HHmm-HHmm` with two parseable times and 08:00 <= start <= end <= 22:00 |
| `TimeRanges.IsValidTimeRange` | src/main/java/seedu/address/model/lesson/TimeRange.java:65-82 | a valid range is always nine characters with the dash in the middle, although the pattern also admits three-digit times |
| `TimeRanges.MadeRangeWf` | src/main/java/seedu/address/model/lesson/TimeRange.java:76-78 | every constructed range starts no earlier than 08:00, ends no later than 22:00 and does not end before it starts |
| `TimeRanges.TestExamplesRejected` | src/test/java/seedu/address/model/lesson/TimeRangeTest.java:29-33 | a reversed range, a non-time, a colon layout and blank text are rejected |
| `TimeRanges.MisshapenRejected` | src/main/java/seedu/address/model/lesson/TimeRange.java:65-82 | text that is not nine characters with a dash in the middle is never a valid range |
| `TimeRanges.AfternoonRangeAccepted` | src/test/java/seedu/address/model/lesson/TimeRangeTest.java:36 | "1300-1400" is valid |
| `TimeRanges.MidnightStartRejected` | src/main/java/seedu/address/model/lesson/TimeRange.java:76-78 | "0000-1400" is rejected because it starts before 08:00 |
| `TimeRanges.ClashIncludesEndpoints` | src/main/java/seedu/address/model/lesson/TimeRange.java:89-97 | ranges that touch at an endpoint clash both ways, and equal ranges clash |
| `TimeRanges.IsClashing` | src/main/java/seedu/address/model/lesson/TimeRange.java:89-97 | a clash as written implies overlap, and for well-formed ranges overlap is a clash as written or strict containment of the other range |
| `TimeRanges.IsClashingAsymmetric` | src/main/java/seedu/address/model/lesson/TimeRange.java:89-97 | the clash test as written holds in exactly one direction iff one range strictly contains the other |
| `TimeRanges.ContainedRangeMissed` | src/main/java/seedu/address/model/lesson/TimeRange.java:89-97 | 0900-1200 does not clash with 1000-1100 as written, although the ranges overlap and the reverse test clashes |
| `TimeRanges.OverlapsIsEitherClash` | src/main/java/seedu/address/model/lesson/TimeRange.java:89-97 | the intended clash (closed intervals intersect) is symmetric and holds iff the test as written holds in some direction |
| `TimeRanges.OverlapsIffCommonMinute` | src/main/java/seedu/address/model/lesson/TimeRange.java:89-97 | the intended clash holds iff some minute lies in both ranges |
| `TimeRanges.CompareTo` | src/main/java/seedu/address/model/lesson/TimeRange.java:124-130 | the ordering is 0 for overlapping ranges and otherwise the sign of the start difference |
| `TimeRanges.CompareToAsWritten` | src/main/java/seedu/address/model/lesson/TimeRange.java:124-130 | as written the result is -1, 0 or 1, and 0 exactly when the clash as written holds or the starts coincide |
| `TimeRanges.CompareToAsWrittenNotAntisymmetric` | src/main/java/seedu/address/model/lesson/TimeRange.java:124-130 | as written, 0900-1200 compares below 1000-1100 while 1000-1100 compares equal to 0900-1200 |
| `TimeRanges.CompareToAntisymmetric` | src/main/java/seedu/address/model/lesson/TimeRange.java:124-130 | the corrected ordering is antisymmetric |
| `TimeRanges.CompareToZeroIffClash` | src/main/java/seedu/address/model/lesson/TimeRange.java:124-130 | the corrected ordering is 0 exactly for overlapping ranges, and disjoint ranges never share a start |
| `TimeRanges.CompareToExamples` | src/test/java/seedu/address/model/lesson/TimeRangeTest.java:62-76 | clashing ranges compare as 0 and 1300-1500 compares after 0900-1200 and vice versa |
| `TimeRanges.EqualsIffSameText` | src/main/java/seedu/address/model/lesson/TimeRange.java:105-110 | two constructed ranges are equal (same start and end) exactly when their texts are equal |
| `TimeRanges.Equals` | src/main/java/seedu/address/model/lesson/TimeRange.java:105-110 | equal ranges compare as 0 and last the same number of minutes |
| `TimeRanges.Duration` | src/main/java/seedu/address/model/lesson/TimeRange.java:54-56 | the duration is non-negative, at most the 14-hour day, and takes the start to the end |
| `Monies.Make` | src/main/java/seedu/address/model/lesson/Money.java:27-35 | the constructor fails, without a message, exactly on invalid text; the stored text is canonical and denotes the input's amount, or zero for the empty text |
| `Monies.IsValidMonetaryField` | src/main/java/seedu/address/model/lesson/Money.java:62-67 | valid text is exactly the empty text and the text meeting every constraint the message lists: only digits and at most one point, not at either end, with at most two places |
| `Monies.MatchesIffConstraints` | src/main/java/seedu/address/model/lesson/Money.java:12-19 | the pattern `^[0-9]+(\.[0-9]{1,2})?$` accepts exactly the texts meeting the constraints `MESSAGE_CONSTRAINTS` lists |
| `Monies.EmptyIsZero` | src/main/java/seedu/address/model/lesson/Money.java:33-35 | an empty amount is stored as "0.00" |
| `Monies.FormattedValue` | src/main/java/seedu/address/model/lesson/Money.java:44-60 | the intended formatting never gives the empty text and always contains a decimal point |
| `Monies.FormattedValueAsWritten` | src/main/java/seedu/address/model/lesson/Money.java:44-60 | the formatting as written agrees with the intended one whenever something is left after dropping leading zeros |
| `Monies.FormattedIsCanonical` | src/main/java/seedu/address/model/lesson/Money.java:44-60 | every valid amount formats to dollars without superfluous leading zeros, a dot, and exactly two digits |
| `Monies.FormattedKeepsCents` | src/main/java/seedu/address/model/lesson/Money.java:44-60 | formatting never changes the amount in cents |
| `Monies.FormattedIdempotent` | src/main/java/seedu/address/model/lesson/Money.java:44-60 | formatting a formatted amount changes nothing |
| `Monies.CanonicalIsFixed` | src/main/java/seedu/address/model/lesson/Money.java:44-60 | a text already in canonical form is left as it is |
| `Monies.ZeroAmountLosesValue` | src/main/java/seedu/address/model/lesson/Money.java:44-60 | the valid amount "0" formats to the empty text as written, and to "0.00" as intended |
| `Monies.AsWrittenAgreesOffZero` | src/main/java/seedu/address/model/lesson/Money.java:44-60 | for every valid amount that is not all zeros, the formatting as written and as intended agree |
| `Monies.Equals` | src/main/java/seedu/address/model/lesson/Money.java:79-84 | two constructed amounts are equal by text exactly when they denote the same number of cents |
| `Tags.Make` | src/main/java/seedu/address/model/tag/Tag.java:25-30 | the constructor fails exactly when the name is not non-empty alphanumeric; otherwise the name is upper-cased and the count is 1 |
| `Tags.IsValidTagName` | src/main/java/seedu/address/model/tag/Tag.java:52-54 | a valid name is non-empty and has no space |
| `Tags.InvalidNames` | src/main/java/seedu/address/model/tag/Tag.java:52-54 | the empty name, a name with a space and one with a symbol are rejected; "math1" becomes "MATH1" |
| `Tags.CreateTagWithNum` | src/main/java/seedu/address/model/tag/Tag.java:62-65 | the copy keeps the name, takes the given positive count, and is equal to the original |
| `Tags.Equals` | src/main/java/seedu/address/model/tag/Tag.java:84-94 | equal tags have equal hash codes |
| `Tags.HashCode` | src/main/java/seedu/address/model/tag/Tag.java:92-94 | the hash code is a 32-bit integer |
| `Text.StringHash` | src/main/java/seedu/address/model/tag/Tag.java:92-94 | String.hashCode is the documented polynomial s[0]*31^(n-1) + ... + s[n-1] reduced to a signed 32-bit int, and equals it when it fits |
| `Tags.MakeIgnoresCase` | src/main/java/seedu/address/model/tag/Tag.java:25-30 | two constructed tags are equal exactly when their names agree up to case |
| `Tags.EqualTagsHashAlike` | src/main/java/seedu/address/model/tag/Tag.java:85-94 | equal tags have equal hash codes, and equal tags with different counts are still different values |
| `Tags.CountIsInvisible` | src/main/java/seedu/address/model/tag/Tag.java:85-94 | changing the count changes neither equality nor the hash code |
| `Tags.ToStringIffEqual` | src/main/java/seedu/address/model/tag/Tag.java:99-101 | two tags print alike exactly when they are equal |
| `Tags.HashExamples` | src/main/java/seedu/address/model/tag/Tag.java:92-94 | the hash is Java's string hash: "A" is 65 and "AB" is 2081 |
| `Lessons.CompareTo` | src/main/java/seedu/address/model/lesson/Lesson.java:157-162 | on different days the result is the date comparison's field difference; on the same day it is -1, 0 or 1 by start time; it is 0 exactly for the same day and start time |
| `Lessons.CompareToIsSlotOrder` | src/main/java/seedu/address/model/lesson/Lesson.java:157-162 | lessons are ordered by day, then by start time |
| `Lessons.CompareToAntisymmetric` | src/main/java/seedu/address/model/lesson/Lesson.java:157-162 | the lesson order is antisymmetric |
| `Lessons.CompareToTransitive` | src/main/java/seedu/address/model/lesson/Lesson.java:157-162 | the lesson order is transitive |
| `Lessons.Equals` | src/main/java/seedu/address/model/lesson/Lesson.java:104-120 | equal lessons are of the same kind, start at the same minute and have the same subject |
| `Lessons.EqualsIsEquivalence` | src/main/java/seedu/address/model/lesson/Lesson.java:104-120 | lesson equality is reflexive, symmetric and transitive |
| `Lessons.EqualsImpliesSameSlot` | src/main/java/seedu/address/model/lesson/Lesson.java:104-120 | equal lessons compare as 0, and equality ignores rates, fees and cancelled dates |
| `Lessons.UpdateDateWithWeek` | src/main/java/seedu/address/model/lesson/Lesson.java:83-86 | the new date is exactly 7 days later on the same weekday; it fails only past year 9999 |
| `Lessons.UpdateDateWithWeekKeepsWeekday` | src/main/java/seedu/address/model/lesson/Lesson.java:83-86 | moving a lesson to its week-later date keeps its weekday and adds 7 days |
| `Lessons.MakeUpClashSymmetric` | src/main/java/seedu/address/model/lesson/MakeUpLesson.java:70-73 | two one-off lessons clash symmetrically: the same day and overlapping times |
| `Lessons.MakeUpIsClashing` | src/main/java/seedu/address/model/lesson/MakeUpLesson.java:65-74 | a clash needs overlapping times and a day no earlier than the other lesson's first day; against a one-off lesson, the same day |
| `Lessons.MakeUpVersusRecurring` | src/main/java/seedu/address/model/lesson/MakeUpLesson.java:66-69 | a one-off lesson clashes with a recurring one exactly when it falls a whole number of weeks on or after its first date, at overlapping times |
| `Lessons.MakeUpIgnoresEndAndCancellations` | src/main/java/seedu/address/model/lesson/MakeUpLesson.java:65-74 | the recurring branch ignores the other lesson's end date and cancelled dates |
| `Lessons.UpdateDate` | src/main/java/seedu/address/model/lesson/RecurringLesson.java:56-63 | invalid text fails; a strictly later date gives a new lesson on that date whose end date, rate, fee and cancelled dates are the constructor's, not the original's; an earlier or equal date leaves the lesson as it is; time, subject and homework are kept |
| `Lessons.UpdateDateMonotone` | src/main/java/seedu/address/model/lesson/RecurringLesson.java:56-63 | updating the date never moves a lesson backward, and changes it exactly when the day moves forward |
| `Lessons.UpdateDateForgetsFees` | src/main/java/seedu/address/model/lesson/RecurringLesson.java:56-63 | a lesson moved to a later date does not depend on the original's end date, rate, outstanding fee or cancelled dates |
| `Fees.Previous` | src/main/java/seedu/address/logic/FeesCalculator.java:182 | the adjuster gives the nearest strictly earlier day on the weekday |
| `Fees.Next` | src/main/java/seedu/address/logic/FeesCalculator.java:183 | the adjuster gives the nearest strictly later day on the weekday |
| `Fees.WeeksCountWeekday` | src/main/java/seedu/address/logic/FeesCalculator.java:182-186 | the whole weeks between the adjusted days, less one, is the number of days on the weekday in the window |
| `Fees.AsWrittenBaseCount` | src/main/java/seedu/address/logic/FeesCalculator.java:175-186 | before corrections `FeesCalculator`'s count is the number of lesson weekdays in the clamped window |
| `Fees.AsWrittenEmptyCases` | src/main/java/seedu/address/logic/FeesCalculator.java:170-180 | the count is 0 when the two instants are equal or when the clamped window is empty |
| `Fees.NumLessonsAsWritten` | src/main/java/seedu/address/logic/FeesCalculator.java:165-217 | the count as written is non-zero only when time passed and the clamped window is non-empty, and then it never exceeds the lesson weekdays in that window |
| `Fees.AsWrittenSubtractsAtMostOnce` | src/main/java/seedu/address/logic/FeesCalculator.java:203-214 | after cancellations, the edge correction subtracts at most one |
| `Fees.AsWrittenNonNegative` | src/main/java/seedu/address/logic/FeesCalculator.java:189-195 | the count is non-negative when the cancelled dates are distinct lesson days inside the window |
| `Fees.AsWrittenAgreesOffEdges` | src/main/java/seedu/address/logic/FeesCalculator.java:165-217 | away from cancellations, from a last update at the end minute, and from both edge conditions at once, `FeesCalculator`'s count is the corrected one |
| `Fees.NumLessons` | src/main/java/seedu/address/logic/FeesCalculator.java:165-217 | the corrected count is the number of uncancelled lesson days whose end instant lies after the last update and no later than now |
| `Fees.BilledInWindow` | src/main/java/seedu/address/logic/FeesCalculator.java:175-186 | a day is billed exactly when it is an uncancelled lesson weekday in the window clamped by start, end and the two instants |
| `Fees.OccurrencesAdditive` | src/main/java/seedu/address/logic/FeesCalculator.java:165-217 | occurrences counted over two consecutive windows add up to those of the joined window |
| `Fees.NoTimeNoLessons` | src/main/java/seedu/address/logic/FeesCalculator.java:170-172 | no time elapsed means nothing is billed |
| `Fees.CancelledNeverBilled` | src/main/java/seedu/address/logic/FeesCalculator.java:189-193 | a cancelled day is never billed |
| `Fees.CancelledBetweenCounts` | src/main/java/seedu/address/logic/FeesCalculator.java:189-193 | no cancelled listing is subtracted exactly when none lies between the two update dates, and all are exactly when all do |
| `Fees.ExampleWholeWeeks` | src/test/java/seedu/address/logic/FeesCalculatorTest.java:116-125 | start 28 Sep, last update 6 Oct, now 28 Oct, end 30 Oct gives 3, both as written and corrected |
| `Fees.ExampleLaterWeeks` | src/test/java/seedu/address/logic/FeesCalculatorTest.java:192-199 | two later weeks after a same-day update are billed as 2 |
| `Fees.ExampleEndedBeforeLastUpdate` | src/test/java/seedu/address/logic/FeesCalculatorTest.java:176-182 | a lesson that ended before the last update on the same day is not billed |
| `Fees.ExampleCancelledBetween` | src/test/java/seedu/address/logic/FeesCalculatorTest.java:201-210 | two of four lessons cancelled gives 2 |
| `Fees.ExampleOnlyOccurrenceCancelled` | src/test/java/seedu/address/logic/FeesCalculatorTest.java:212-222 | the only passed occurrence cancelled gives 0 |
| `Fees.BothEdgesSubtractOnce` | src/main/java/seedu/address/logic/FeesCalculator.java:203-214 | with both edge conditions true on different Tuesdays, `FeesCalculator` counts 2 where 1 lesson is due |
| `Fees.CancelledEdgeSubtractedTwice` | src/main/java/seedu/address/logic/FeesCalculator.java:189-214 | a cancelled lesson on the last-update day is subtracted by both the cancellation and the edge correction |
| `Fees.CancelledOffWeekdayGoesNegative` | src/main/java/seedu/address/logic/FeesCalculator.java:189-195 | a cancelled date off the lesson's weekday makes `FeesCalculator`'s count -1 |
| `Fees.ExactEndMinuteBilledTwice` | src/main/java/seedu/address/logic/FeesCalculator.java:203-209 | a lesson ending exactly at an update instant is billed by both neighbouring updates |
| `FeeUpdates.ScheduleOf` | src/main/java/seedu/address/logic/FeesCalculator.java:146-151 | the schedule billed for a lesson has its weekday, start and end days, end time and cancelled days |
| `FeeUpdates.UpdateFees` | src/main/java/seedu/address/logic/FeesCalculator.java:91-135 | only the outstanding fee changes: a started recurring lesson gains one cost per occurrence billed; one not started is unchanged; a make-up lesson gains one cost iff it ended since the last update |
| `FeeUpdates.UpdatedFeeAsWritten` | src/main/java/seedu/address/logic/FeesCalculator.java:91-157 | as written, a lesson not started keeps its fee, a make-up lesson gains nothing or one cost, and a make-up lesson ending at the update instant gains nothing |
| `FeeUpdates.UpdatedFeeAgreesOffEdges` | src/main/java/seedu/address/logic/FeesCalculator.java:91-157 | away from an update at the end minute, cancellations between the update dates and both edge corrections at once, the fee as written is the fee the model bills |
| `FeeUpdates.MakeUpEndingAtUpdate` | src/main/java/seedu/address/logic/FeesCalculator.java:121-135 | a make-up lesson ending exactly at the update is not billed as written and is billed once by the model |
| `FeeUpdates.UpdateTwiceIsUpdateOnce` | src/main/java/seedu/address/logic/FeesCalculator.java:91-157 | updating at an intermediate instant and again now gives the same lesson as one update |
| `FeeUpdates.UpdateAtSameInstant` | src/main/java/seedu/address/logic/FeesCalculator.java:170-172 | an update with no time elapsed leaves the lesson unchanged |
| `FeeUpdates.UpdateKeepsKind` | src/main/java/seedu/address/logic/FeesCalculator.java:106-118 | the updated lesson keeps its kind and is equal to the original |
| `FeeUpdates.MakeUpAtUpdateMinuteNeverBilled` | src/main/java/seedu/address/logic/FeesCalculator.java:126-130 | as written, a make-up lesson ending exactly at an update instant is billed by neither update; the corrected rule bills it once |
| `FeeUpdates.MakeUpRulesAgreeOffEndMinute` | src/main/java/seedu/address/logic/FeesCalculator.java:126-130 | the two make-up rules agree whenever now is not the lesson's end instant |
| `FeeUpdates.MakeUpBilledAsWritten` | src/main/java/seedu/address/logic/FeesCalculator.java:126-130 | the rule as written bills only when the corrected rule does |
| `FeeUpdates.MakeUpBilled` | src/main/java/seedu/address/logic/FeesCalculator.java:126-130 | the corrected rule bills only when time passed between the two updates |
| `FeeUpdates.Pay` | src/main/java/seedu/address/logic/FeesCalculator.java:225-233 | paying more than is outstanding fails with the overpayment message; otherwise the payment and the new balance add up to the old balance |
| `FeeUpdates.PayInInstalments` | src/main/java/seedu/address/logic/FeesCalculator.java:225-233 | paying in two instalments is paying the sum |
| `FeeUpdates.PayExactBalance` | src/main/java/seedu/address/logic/FeesCalculator.java:225-233 | paying the balance leaves 0 and paying one cent more fails |
| `LessonSets.Insert` | src/main/java/seedu/address/logic/commands/LessonAddCommand.java:87-88 | TreeSet.add keeps the set sorted, ignores a lesson whose slot is taken, and otherwise adds exactly that lesson |
| `LessonSets.AddLesson` | src/main/java/seedu/address/logic/commands/LessonAddCommand.java:87-88 | copying a TreeSet keeps it; adding a lesson with a free slot keeps every lesson and adds it |
| `LessonSets.InsertGreatest` | src/main/java/seedu/address/logic/commands/LessonAddCommand.java:87-88 | a lesson after every stored lesson is appended |
| `LessonSets.FromSeq` | src/main/java/seedu/address/logic/commands/LessonDeleteCommand.java:87 | building a TreeSet from a list gives a sorted set of listed lessons covering every slot of the list |
| `LessonSets.FromSortedIsIdentity` | src/main/java/seedu/address/logic/commands/LessonDeleteCommand.java:87 | building a TreeSet from a sorted list gives that list |
| `LessonSets.RemoveFirst` | src/main/java/seedu/address/logic/commands/LessonDeleteCommand.java:86 | List.remove drops the first lesson equal to the target, and nothing when there is none |
| `LessonSets.RemoveFirstKeepsMembers` | src/main/java/seedu/address/logic/commands/LessonDeleteCommand.java:86 | removal never introduces a lesson |
| `LessonSets.RemoveAtIndex` | src/main/java/seedu/address/logic/commands/LessonDeleteCommand.java:83-89 | removing the lesson at an index of a stored set leaves exactly the other lessons |
| `LessonSets.OnlyOneEqual` | src/main/java/seedu/address/logic/commands/LessonEditCommand.java:121-123 | in a stored set, no other lesson equals the one at a given index |
| `LessonSets.Replace` | src/main/java/seedu/address/logic/commands/LessonEditCommand.java:121-123 | the mapping replaces exactly the lessons equal to the target and keeps the others in place |
| `LessonSets.EditAtIndex` | src/main/java/seedu/address/logic/commands/LessonEditCommand.java:121-123 | after an edit at an index, the set holds the edited lesson and the slots of all other lessons, and nothing else |
| `UniquePersons.IndexOf` | src/main/java/seedu/address/model/person/UniquePersonList.java:100 | indexOf gives the first position holding the person, or -1 exactly when the person is absent |
| `UniquePersons.Contains` | src/main/java/seedu/address/model/person/UniquePersonList.java:43-46 | a list containing a person that is the same person as itself contains it; an empty list contains nobody |
| `UniquePersons.PersonsAreUnique` | src/main/java/seedu/address/model/person/UniquePersonList.java:207-216 | a list of at most one person is unique, and in a unique list the first person is the same as none of the rest |
| `UniquePersons.Add` | src/main/java/seedu/address/model/person/UniquePersonList.java:71-77 | adding fails as a duplicate exactly when the list contains the same person; otherwise the person is appended |
| `UniquePersons.AddKeepsUnique` | src/main/java/seedu/address/model/person/UniquePersonList.java:71-77 | a successful add keeps the list free of duplicates |
| `UniquePersons.SetPerson` | src/main/java/seedu/address/model/person/UniquePersonList.java:97-110 | fails when the target is absent, or when an edited person of another identity is already contained; otherwise only the target's position changes |
| `UniquePersons.SetPersonKeepsUnique` | src/main/java/seedu/address/model/person/UniquePersonList.java:97-110 | with identity an equivalence, a successful replacement keeps the list free of duplicates |
| `UniquePersons.SetSamePersonSucceeds` | src/main/java/seedu/address/model/person/UniquePersonList.java:105-109 | replacing a listed person by the same person never fails |
| `UniquePersons.Remove` | src/main/java/seedu/address/model/person/UniquePersonList.java:116-120 | removing fails exactly when the person is absent; otherwise the first occurrence is dropped |
| `UniquePersons.RemoveKeepsUnique` | src/main/java/seedu/address/model/person/UniquePersonList.java:116-120 | removal keeps the list free of duplicates |
| `UniquePersons.SetPersons` | src/main/java/seedu/address/model/person/UniquePersonList.java:147-154 | a replacement list is refused exactly when two of its persons are the same person; an accepted list is duplicate-free |
| `UniquePersons.CheckPersonsAreUnique` | src/main/java/seedu/address/model/person/UniquePersonList.java:207-216 | the nested loops answer true exactly when no earlier person is the same as a later one |
| `CommandUtil.GetPerson` | src/main/java/seedu/address/logic/commands/util/CommandUtil.java:24-30 | fails with the invalid-student-index error exactly when the index is out of range; otherwise gives the person at that index |
| `CommandUtil.GetLesson` | src/main/java/seedu/address/logic/commands/util/CommandUtil.java:41-47 | fails with the invalid-lesson-index error exactly when the index is out of range; otherwise gives the lesson at that index |
| `LessonCommands.SetPerson` | src/main/java/seedu/address/model/person/UniquePersonList.java:97-110 | fails exactly when the target is absent or the edited person is another stored identity, with that failure; on success the edited person is in the list, which keeps its length and every person other than the target in place |
| `LessonCommands.SetPersonInPlace` | src/main/java/seedu/address/model/person/UniquePersonList.java:97-110 | replacing a person by one with the same details puts it at the person's index |
| `LessonCommands.WithAddedLesson` | src/main/java/seedu/address/logic/commands/LessonAddCommand.java:74-93 | the person keeps every detail; the lessons stay sorted and gain exactly the new lesson unless its slot is taken |
| `LessonCommands.ExecuteAdd` | src/main/java/seedu/address/logic/commands/LessonAddCommand.java:96-114 | an out-of-range index fails; a clashing lesson fails with the clash message; success replaces the person by one with the added lesson |
| `LessonCommands.AddAtIndex` | src/main/java/seedu/address/logic/commands/LessonAddCommand.java:96-114 | a non-clashing add on a valid index changes only that person, whose lessons are the old ones plus the new one |
| `LessonCommands.AddCommandEqualsIsEquivalence` | src/main/java/seedu/address/logic/commands/LessonAddCommand.java:116-122 | add-command equality (same index, equal lesson) is an equivalence |
| `LessonCommands.AddCommandEquals` | src/main/java/seedu/address/logic/commands/LessonAddCommand.java:116-122 | equal add commands have the same index and lessons of the same kind and subject |
| `LessonCommands.IsAnyFieldEdited` | src/main/java/seedu/address/logic/commands/LessonEditCommand.java:214-216 | a descriptor edits something exactly when one of date, time range, subject and homework is given |
| `LessonCommands.CreateEditedLesson` | src/main/java/seedu/address/logic/commands/LessonEditCommand.java:132-147 | date, time range, subject and homework come from the descriptor when given and from the lesson otherwise; the kind is kept; end date, rate, fee and cancelled dates are the constructor's, not the original's |
| `LessonCommands.EmptyEditIsIdentity` | src/main/java/seedu/address/logic/commands/LessonEditCommand.java:132-147 | an empty descriptor edits nothing: the result equals the lesson under Lesson.equals, with the constructor's end date, rate, fee and cancelled dates |
| `LessonCommands.EditedEqualsOriginal` | src/main/java/seedu/address/logic/commands/LessonEditCommand.java:132-147 | the edited lesson equals the original exactly when every given field agrees with the lesson's |
| `LessonCommands.EditedLessonWf` | src/main/java/seedu/address/logic/commands/LessonEditCommand.java:132-147 | editing a constructed lesson with constructed values gives a constructed lesson |
| `LessonCommands.EditForgetsFees` | src/main/java/seedu/address/logic/commands/LessonEditCommand.java:132-147 | the edited lesson does not depend on the original's end date, rate, outstanding fee or cancelled dates |
| `LessonCommands.WithEditedLesson` | src/main/java/seedu/address/logic/commands/LessonEditCommand.java:118-126 | the person keeps every detail; the rebuilt lessons are the edited lesson and lessons not equal to the edited one |
| `LessonCommands.ExecuteEdit` | src/main/java/seedu/address/logic/commands/LessonEditCommand.java:80-112 | the student index, then the lesson index into the sorted lessons, are checked; success means no clash with another lesson and the person replaced by the edited one |
| `LessonCommands.EditAtIndexes` | src/main/java/seedu/address/logic/commands/LessonEditCommand.java:80-112 | a non-clashing edit at valid indices changes only that person, whose lessons are the edited one and the others |
| `LessonCommands.IgnoringNarrowsClashes` | src/main/java/seedu/address/logic/commands/LessonEditCommand.java:99-104 | ignoring the edited lesson only removes clashes, and removes none when no stored lesson equals it |
| `LessonCommands.HasClashingLessonIgnoring` | src/main/java/seedu/address/logic/commands/LessonEditCommand.java:99-104 | a clash found while ignoring a lesson is a clash |
| `LessonCommands.EditUndo` | src/main/java/seedu/address/logic/commands/LessonEditCommand.java:150-154 | undoing an edit restores the person list |
| `LessonCommands.EditCommandEquals` | src/main/java/seedu/address/logic/commands/LessonEditCommand.java:169-184 | intended edit-command equality holds exactly for the same indices and descriptor |
| `LessonCommands.EditCommandEqualsAsWritten` | src/main/java/seedu/address/logic/commands/LessonEditCommand.java:169-184 | as written, two edit commands are equal exactly when their student indices are |
| `LessonCommands.EditEqualsIgnoresLessonIndex` | src/main/java/seedu/address/logic/commands/LessonEditCommand.java:182-183 | as written, commands for lesson 1 and lesson 2 of a student are equal although only one of them can succeed |
| `LessonCommands.EqualsRefinesAsWritten` | src/main/java/seedu/address/logic/commands/LessonEditCommand.java:169-184 | commands equal under the intended equality are equal as written; commands differing only in the lesson index are equal as written and not under the intended equality |
| `LessonCommands.WithoutLesson` | src/main/java/seedu/address/logic/commands/LessonDeleteCommand.java:83-89 | the person keeps every detail; the rebuilt lessons are sorted and were all there before |
| `LessonCommands.ExecuteDelete` | src/main/java/seedu/address/logic/commands/LessonDeleteCommand.java:57-74 | the student index, then the lesson index, are checked through the lookups; success replaces the person by one without the lesson |
| `LessonCommands.DeleteAtIndexes` | src/main/java/seedu/address/logic/commands/LessonDeleteCommand.java:57-96 | deleting at valid indices removes exactly that lesson of that person, and undo restores the list |
| `LessonCommands.Undo` | src/main/java/seedu/address/logic/commands/LessonDeleteCommand.java:91-96 | undo fails exactly when setting the person back fails |
| `LessonCommands.RestoreUndoes` | src/main/java/seedu/address/logic/commands/LessonDeleteCommand.java:91-96 | setting a changed person back restores the list, and the changed list is duplicate-free |
| `LessonCommands.DeleteCommandEquals` | src/main/java/seedu/address/logic/commands/LessonDeleteCommand.java:109-125 | two delete commands are equal exactly when both indices match |
| `LessonStorage.Reread` | src/main/java/seedu/address/storage/JsonAdaptedLesson.java:41-56 | reading a saved adapter back keeps its stored kind: the creator runs, then the stored isRecurring is written into the field |
| `LessonStorage.CreatorInvertsSave` | src/main/java/seedu/address/storage/JsonAdaptedLesson.java:41-72 | the creator on a saved lesson's fields gives back its adapter exactly when the lesson is recurring; reading back with the stored flag always does |
| `LessonStorage.RereadRoundTrip` | src/main/java/seedu/address/storage/JsonAdaptedLesson.java:41-72 | reading back any saved adapter gives it unchanged |
| `LessonStorage.LoadDate` | src/main/java/seedu/address/storage/JsonAdaptedLesson.java:91-92 | a valid date text loads, without its leading zeros, as the day it names |
| `LessonStorage.ToModelType` | src/main/java/seedu/address/storage/JsonAdaptedLesson.java:79-124 | success means every field is present and valid, and the lesson is built from them: recurring exactly when marked so, with the stored end date if recurring; the make-up end date, fee and cancelled dates are what the constructors store |
| `LessonStorage.ReportsFirstFailure` | src/main/java/seedu/address/storage/JsonAdaptedLesson.java:79-118 | loading fails exactly when some check fails, with the message of the first failing check in source order |
| `LessonStorage.ReportsDateFailure` | src/main/java/seedu/address/storage/JsonAdaptedLesson.java:85-92 | a missing or invalid date fails with the first failing check's message |
| `LessonStorage.ReportsTimeRangeFailure` | src/main/java/seedu/address/storage/JsonAdaptedLesson.java:94-100 | with valid dates, a missing or invalid time range fails with the first failing check's message |
| `LessonStorage.ReportsFieldFailure` | src/main/java/seedu/address/storage/JsonAdaptedLesson.java:103-118 | with valid dates and time range, subject and rate failures are reported in order |
| `LessonStorage.MissingDateReportedFirst` | src/main/java/seedu/address/storage/JsonAdaptedLesson.java:85-87 | a missing date or end date fails with "Lesson's Date field is missing!" |
| `LessonStorage.DatesCheckedBeforeTimeRange` | src/main/java/seedu/address/storage/JsonAdaptedLesson.java:88-100 | an invalid date is reported even when the time range is also bad |
| `LessonStorage.JsonLoadsRecurring` | src/main/java/seedu/address/storage/JsonAdaptedLesson.java:41-56 | the creator alone marks every lesson recurring: whatever it receives loads, if at all, as a recurring lesson |
| `LessonStorage.LeadingZerosStripped` | src/main/java/seedu/address/storage/JsonAdaptedLesson.java:91-92 | the loaded date is the day named by the stored text, with or without its leading zeros |
| `LessonStorage.SaveLoadRoundTrip` | src/main/java/seedu/address/storage/JsonAdaptedLesson.java:61-124 | saving, reading back and loading a lesson keeps its kind, days, time range, subject, homework and rate, takes its fees and cancellations from the constructors, and gives an equal lesson when its date has no leading zero |
| `LessonStorage.LoadsConstructed` | src/main/java/seedu/address/storage/JsonAdaptedLesson.java:61-124 | every constructed lesson whose fields pass their validators loads again with the same days |
| `CalendarEntries.HasClashesAny` | src/main/java/seedu/address/model/lesson/CalendarEntryList.java:104-112 | the loop answers true exactly when some lesson of the sequence clashes with some entry |
| `CalendarEntries.IgnoringNarrowsClashes` | src/main/java/seedu/address/model/lesson/CalendarEntryList.java:91-96 | skipping the ignored lesson only removes clashes, and removes none when no entry holds it |
| `CalendarEntries.HasClashesAppend` | src/main/java/seedu/address/model/lesson/CalendarEntryList.java:79-82 | no entries have no clash, and entries split in two clash exactly when either part does |
| `CalendarEntries.KindDecidesEntries` | src/main/java/seedu/address/model/lesson/CalendarEntryList.java:126-135 | a make-up lesson without cancellations is one entry on its display date; every entry of a recurring lesson repeats weekly, the last without end |
| `CalendarEntries.HasClashesIgnoring` | src/main/java/seedu/address/model/lesson/CalendarEntryList.java:91-96 | a clash found while ignoring a lesson is a clash |
| `CalendarEntries.MakeUpEntry` | src/main/java/seedu/address/model/lesson/CalendarEntryList.java:206-211 | a make-up lesson gets no entry exactly when it has cancelled dates; otherwise one entry on its date |
| `CalendarEntries.MakeUpEntries` | src/main/java/seedu/address/model/lesson/CalendarEntryList.java:126-129 | a make-up lesson without cancellations shows on its own day only |
| `CalendarEntries.SortDates` | src/main/java/seedu/address/model/lesson/CalendarEntryList.java:216 | sorting is a permutation of the cancelled dates |
| `CalendarEntries.SortDatesAscending` | src/main/java/seedu/address/model/lesson/CalendarEntryList.java:216 | the sorted dates ascend |
| `CalendarEntries.Split` | src/main/java/seedu/address/model/lesson/CalendarEntryList.java:221-233 | between 1 and one-more-than-cancellations weekly entries of the lesson, each closed by an until date except the open-ended last |
| `CalendarEntries.RecurringEntries` | src/main/java/seedu/address/model/lesson/CalendarEntryList.java:214-236 | a recurring lesson's entries are weekly entries of the lesson, the last one open-ended, at most one more than its cancellations |
| `CalendarEntries.SplitDaysShowUncancelledWeeks` | src/main/java/seedu/address/model/lesson/CalendarEntryList.java:221-233 | the segments cut by ascending cancelled days cover exactly the weekly days from the start that are not cancelled |
| `CalendarEntries.RecurringShowsUncancelledWeeks` | src/main/java/seedu/address/model/lesson/CalendarEntryList.java:214-236 | a recurring lesson's entries show it on exactly the days a whole number of weeks from its start that are not cancelled |
| `CalendarEntries.EntriesOf` | src/main/java/seedu/address/model/lesson/CalendarEntryList.java:126-135 | the entries added for a lesson all hold it: none or one for a make-up lesson, between one and one-more-than-cancellations for a recurring one |
| `CalendarEntries.AddLesson` | src/main/java/seedu/address/model/lesson/CalendarEntryList.java:121-136 | adding fails with the clash error exactly when an entry clashes; otherwise the old entries are kept and only entries of the lesson are appended |
| `CalendarEntries.Without` | src/main/java/seedu/address/model/lesson/CalendarEntryList.java:64-71 | the remaining entries are exactly those whose lesson is not equal to the target |
| `CalendarEntries.WithoutCounts` | src/main/java/seedu/address/model/lesson/CalendarEntryList.java:64-71 | every entry of another lesson stays as many times as it occurred, and no copy of an entry of the target stays |
| `CalendarEntries.WithoutDrops` | src/main/java/seedu/address/model/lesson/CalendarEntryList.java:64-71 | when some entry holds the target, removal shortens the list |
| `CalendarEntries.RemoveLesson` | src/main/java/seedu/address/model/lesson/CalendarEntryList.java:144-150 | removal fails with lesson-not-found exactly when no entry holds the lesson; otherwise every entry of it, and only those, go |
| `CalendarEntries.AddThenRemove` | src/main/java/seedu/address/model/lesson/CalendarEntryList.java:121-150 | removing a lesson just added, with at least one entry and not already present, restores the entry list |
| `CalendarEntries.RRule` | src/main/java/seedu/address/model/lesson/CalendarEntryList.java:267-271 | the rule starts with `RRULE:FREQ=WEEKLY` and is exactly that when there is no until date |
| `CalendarEntries.RRuleRoundTrip` | src/main/java/seedu/address/model/lesson/CalendarEntryList.java:267-271 | an until date of years 1-9999, written as `yyyyMMdd` with the year of the era, is read back from the rule |
| `CalendarEntries.RRuleYearZero` | src/main/java/seedu/address/model/lesson/CalendarEntryList.java:267-270 | `yyyy` writes the year of the era, so an until date of 8 Jan 0000 is written `00010108` and reads back as 8 Jan 0001 |

## Left out

- Floating-point money: `getCostPerLesson`, `DecimalFormat` and `Float.toString` are not modelled. The cost of one lesson is an exact non-negative number of cents given as a parameter, and fees are whole cents.
- FeeUpdates.UpdateFees: the clock is a parameter. `lastUpdated` and `now` are inputs, and `hasStarted` (which reads the clock) is a boolean parameter.
- FeeUpdates.UpdateFees bills the corrected count (`Fees.NumLessons`) and the corrected make-up rule (`MakeUpBilled`), not the ones as written. The fee as written is `UpdatedFeeAsWritten`; the two agree away from the edges listed in `UpdatedFeeAgreesOffEdges` (see Findings).
- Fees.NumLessonsAsWritten: `Date.isDateBetween` is not part of this model; it is taken as inclusive at both ends.
- Fees.NumLessons: `FeesCalculatorTest` calls a five-argument helper that is not part of this model. Its examples are restated with the weekday and end time of the lesson.
- Other clock readers: `Date.isOver`, `Date.updateDate`, `MakeUpLesson.hasEnded` and `RecurringLesson.updateRecurringLessonCount` are left out; they read the system clock or a static counter.
- Fee updates of all persons (`updateAllLessonOutstandingFees`) are left out: they iterate over model and storage code that is not part of this model.
- TimeRanges.CompareTo orders by the intended, symmetric clash. `TimeRange.compareTo` as written is `CompareToAsWritten`: 0900-1200 against 1000-1100 gives -1 there and 0 here (see Findings).
- Monies.Make stores the intended formatting. As written, the amount "0" is stored as the empty text (`FormattedValueAsWritten`, see Findings), which `Float.parseFloat` later refuses.
- Dates.Make accepts only an unsigned four-digit year. The `uuuu` field of the formatter also accepts a signed or longer year, such as "1 Jan -2021" or "1 Jan +10000"; the class comment of `Date` describes a four-digit year.
- Text.ToUpper upper-cases ASCII letters only. `String.toUpperCase` follows the default locale and all of Unicode.
- Lessons.MakeUpIsClashing uses the intended, symmetric time-range clash. It does not use `TimeRange.isClashing` as written (see Findings).
- Recurring-lesson clashes: `RecurringLesson.isClashing` is not part of this model. The calendar and the commands take the clash relation `clash(existing, toCheck)` as a parameter.
- Model code: `Model.hasClashingLesson` is not part of this model. It is taken to be a clash with any lesson of any person.
  - The filtered person list is taken to be the whole list.
  - `updateFilteredPersonList` and the command result texts are not modelled.
- Lessons.Lesson: an older revision of `Lesson.java` keeps a date and two `Time` fields. The rest of the core uses start and end dates and a `TimeRange`, and the model follows the rest of the core. The hash code and `toString` of a lesson are not modelled.
- LessonCommands.CreateEditedLesson: the four-argument lesson constructors are not part of this model. What they put in the end date, rate, outstanding fee and cancelled dates is a parameter (`Lessons.Unsupplied`). The original lesson's values are never carried over, because the constructor is not given them.
- Lessons.UpdateDate: as above, a lesson moved to a later date takes its end date, rate, outstanding fee and cancelled dates from `Lessons.Unsupplied`.
- LessonCommands.WithEditedLesson rebuilds the TreeSet from the lessons in list order. `LessonEditCommand` first collects them into a `HashSet`, so when two lessons compare as 0, which of them the TreeSet keeps may differ.
- Lessons.UpdateDateWithWeek: dates after year 9999 have no four-digit text. Signed years of the `uuuu` pattern are not modelled.
- LessonStorage.ToModelType: homework entries are plain strings. `Subject.isValidSubject`, `LessonRates.isValidLessonRates` and the homework check are parameters (`Validators`), with their messages.
- LessonStorage.SaveLoadRoundTrip: equality of the loaded lesson is stated only for date texts without a leading zero. `StringUtil.stripLeadingZeroes` changes the stored text otherwise. The kind survives only because the round trip reads the adapter back through `LessonStorage.Reread`, which assumes the stored `isRecurring` is restored after the creator (next line).
- LessonStorage.Reread assumes the object mapper writes the stored `isRecurring` back into the field after the JSON creator has set it to true. The mapper's configuration is not part of this model. Without that step a make-up lesson would reload as recurring (`CreatorInvertsSave`).
- LessonStorage.ToModelType: the six-argument `RecurringLesson` and five-argument `MakeUpLesson` constructors are not part of this model. What they store as outstanding fee and cancelled dates, and a make-up lesson's end date, is a parameter (`Lessons.Unsupplied`; its rate is not used, since both are given the rate).
- Fees.Instant truncates both update instants to the minute. `FeesCalculator` truncates only the current time (FeesCalculator.java:56); the last-update time is taken as stored to the minute, since `LastUpdatedDate` is not part of this model. A last update at 12:00:30 against a lesson ending at 12:00 compares differently in the program (`ExactEndMinuteBilledTwice` relies on the minute form).
- Calendar objects:
  - CalendarFX entries, titles, intervals and batch updates are not modelled. An entry is the lesson, its first day and its recurrence.
  - `addLessons`, `removeLessons`, `setLessons` and `resetLessons` are loops over `addLesson` and `removeLesson` inside batch updates, and are left out.
- CalendarEntries.RRuleRoundTrip holds for until dates of years 1-9999 only. A date of year 0 is written with year of era 1 and reads back a year late (`CalendarEntries.RRuleYearZero`); a year before 0 would be written with its own year of era, and the model has no such years.
- CalendarEntries.Split: dates before 1 Jan 0000 are not represented, so `Civil.MinusWeek` stops there (`Civil.MinusWeekStopsAtYearZero`). For a cancelled date in the first week of year 0, `minusWeeks(1)` in the program gives a day of year -1, whose until text is `0002…`; the model closes the segment on 1 Jan 0000 instead.
- CalendarEntries.RecurringShowsUncancelledWeeks: it assumes the cancelled dates fall on the lesson's weekly grid, no earlier than one week before its start, and at least a week after year 0. The lesson's end date is not consulted, because `CalendarEntryList` builds the entries without it.
- CalendarEntries.AddThenRemove: it needs the lesson to have at least one entry and not be present already. A make-up lesson with cancellations adds nothing, so there is nothing to remove.
- Person-list calendar code: `UniquePersonList.hasClashes`, `addLesson`, `removeLesson` and `setLessons` touch the calendar, which is not modelled. `hasClashes(Lesson)` is the same quantifier as `LessonCommands.HasClashingLesson`.
- Undo/redo: the undo/redo stack is not part of this model. Undo is setting the person back, and redo is executing again.
- Iteration order: `HashSet` iteration order is arbitrary. Cancelled dates are a sequence without repetition, in an order the model does not fix.

## Findings

| source | as written | input that shows it | evidently intended | confidence | as-written member | corrected member |
|---|---|---|---|---|---|---|
| src/main/java/seedu/address/model/lesson/TimeRange.java:89-97 | only this range's start and end are tested against the other range | 0900-1200 against 1000-1100 gives false, although the test at TimeRangeTest.java:57 expects a clash | two ranges clash when their closed intervals intersect, in either order | not executed | `TimeRanges.ContainedRangeMissed` | `TimeRanges.OverlapsIsEitherClash` |
| src/main/java/seedu/address/model/lesson/TimeRange.java:124-130 | compareTo is 0 when the asymmetric clash holds | 0900-1200 compares as -1 to 1000-1100, which compares as 0 back | an antisymmetric order that is 0 exactly for overlapping ranges | not executed | `TimeRanges.CompareToAsWrittenNotAntisymmetric` | `TimeRanges.CompareToAntisymmetric` |
| src/main/java/seedu/address/model/lesson/Money.java:44-60 | after stripping every leading zero, "0" is re-prefixed only before a dot | the valid amount "0" is stored as the empty text | "0.00" | not executed | `Monies.ZeroAmountLosesValue` | `Monies.FormattedIsCanonical` |
| src/main/java/seedu/address/logic/FeesCalculator.java:203-214 | the edge correction subtracts one even when both edge conditions hold | Tuesday 12:00 lesson, last update Tue 5 Oct 2021 13:00, now Tue 19 Oct 2021 11:00: 2 counted | 1 (only 12 Oct is due) | not executed | `Fees.BothEdgesSubtractOnce` | `Fees.NumLessons` |
| src/main/java/seedu/address/logic/FeesCalculator.java:189-214 | a cancelled lesson on the last-update day is subtracted by the cancellation and again by the edge correction | cancelled 5 Oct, last update Tue 5 Oct 2021 13:00, now Tue 19 Oct 2021 13:00: 1 counted | 2 (12 and 19 Oct) | not executed | `Fees.CancelledEdgeSubtractedTwice` | `Fees.NumLessons` |
| src/main/java/seedu/address/logic/FeesCalculator.java:189-195 | every cancelled date between the update dates is subtracted, whatever its weekday | Tuesday lesson cancelled on Wed 6 Oct 2021, updates Wed 6 Oct 10:00 and Thu 7 Oct 10:00: -1 counted | 0 | not executed | `Fees.CancelledOffWeekdayGoesNegative` | `Fees.NumLessons` |
| src/main/java/seedu/address/logic/FeesCalculator.java:203-209 | a lesson ending exactly at an update instant counts in both neighbouring windows | updates Mon 4 Oct 10:00, Tue 5 Oct 12:00 and Tue 12 Oct 13:00 for a Tuesday 12:00 lesson: 1 + 2 billed | 2 | not executed | `Fees.ExactEndMinuteBilledTwice` | `FeeUpdates.UpdateTwiceIsUpdateOnce` |
| src/main/java/seedu/address/logic/FeesCalculator.java:126-130 | a make-up lesson is billed only when its end is strictly between the two updates | a make-up lesson ending exactly at an update instant is billed by neither update | billed once, in the window that ends at its end | not executed | `FeeUpdates.MakeUpAtUpdateMinuteNeverBilled` | `FeeUpdates.UpdateTwiceIsUpdateOnce` |
| src/main/java/seedu/address/logic/commands/LessonEditCommand.java:182-183 | `indexToEdit` is compared with itself and the descriptor is not compared | edit lesson 1 and edit lesson 2 of the same student are equal | equal exactly for the same indices and descriptor | not executed | `LessonCommands.EditEqualsIgnoresLessonIndex` | `LessonCommands.EqualsRefinesAsWritten` |
