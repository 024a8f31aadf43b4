/**
 * CalendarEntryList: the calendar entries shown for the stored lessons.
 * An entry is the lesson, the date of its first occurrence and its
 * recurrence: a one-off entry, or a weekly rule with an optional last date
 * (a weekly recurrence rule as in section 3.3.10 of RFC 5545, whose UNTIL
 * value is a DATE as in section 3.3.4). The clash relation between a
 * stored lesson and a lesson being checked is a parameter:
 * `clash(existing, toCheck)` is `existing.isClashing(toCheck)`.
 */
module CalendarEntries {
  import opened Wrappers
  import opened Text
  import Civil
  import Dates
  import Lessons

  type Lesson = Lessons.Lesson

  datatype Recurrence = Once | Weekly(until: Option<Civil.YMD>)

  datatype Entry = Entry(lesson: Lesson, start: Civil.YMD, recurrence: Recurrence)

  datatype CalendarError = ClashingLesson | LessonNotFound

  /** The epoch days on which an entry shows its lesson. */
  predicate Shows(e: Entry, d: int) {
    if e.recurrence.Once? then d == Civil.EpochDay(e.start) else InSpan(SpanOf(e), d)
  }

  /** A weekly recurrence over epoch days: its first day and, if any, its last permitted day. */
  datatype Span = Span(first: int, last: Option<int>)

  predicate InSpan(p: Span, d: int) {
    d >= p.first && (d - p.first) % 7 == 0 && (p.last.None? || d <= p.last.value)
  }

  /** The days an entry shows on, as a span: a one-off entry spans its single day. */
  function SpanOf(e: Entry): Span {
    match e.recurrence
    case Once => Span(Civil.EpochDay(e.start), Some(Civil.EpochDay(e.start)))
    case Weekly(until) =>
      Span(Civil.EpochDay(e.start), if until.Some? then Some(Civil.EpochDay(until.value)) else None)
  }

  /** Some entry shows its lesson on the epoch day. */
  predicate AnyShows(entries: seq<Entry>, d: int) {
    exists i :: 0 <= i < |entries| && Shows(entries[i], d)
  }

  // ---------------------------------------------------------------------
  // Clash queries
  // ---------------------------------------------------------------------

  /** hasClashes(toCheck): some entry's lesson clashes with it. */
  function HasClashes(entries: seq<Entry>, toCheck: Lesson, clash: (Lesson, Lesson) -> bool): (r: bool)
    ensures r <==> exists e :: e in entries && clash(e.lesson, toCheck)
  {
    exists i :: 0 <= i < |entries| && clash(entries[i].lesson, toCheck)
  }

  /** hasClashes(toCheck, toIgnore): as above, skipping entries whose lesson equals toIgnore. */
  function HasClashesIgnoring(entries: seq<Entry>, toCheck: Lesson, toIgnore: Lesson,
                              clash: (Lesson, Lesson) -> bool): (r: bool)
    ensures r ==> HasClashes(entries, toCheck, clash)
  {
    exists i :: 0 <= i < |entries| && !Lessons.Equals(entries[i].lesson, toIgnore)
      && clash(entries[i].lesson, toCheck)
  }

  /** hasClashes(Iterable): the lessons are tried in order until one clashes. */
  method HasClashesAny(entries: seq<Entry>, toCheck: seq<Lesson>, clash: (Lesson, Lesson) -> bool)
    returns (found: bool)
    ensures found <==> exists k :: 0 <= k < |toCheck| && HasClashes(entries, toCheck[k], clash)
  {
    var k := 0;
    while k < |toCheck|
      invariant 0 <= k <= |toCheck|
      invariant forall j :: 0 <= j < k ==> !HasClashes(entries, toCheck[j], clash)
    {
      var any := false;
      var i := 0;
      while i < |entries|
        invariant 0 <= i <= |entries|
        invariant any <==> exists j :: 0 <= j < i && clash(entries[j].lesson, toCheck[k])
      {
        any := any || clash(entries[i].lesson, toCheck[k]);
        i := i + 1;
      }
      if any {
        return true;
      }
      k := k + 1;
    }
    return false;
  }

  // ---------------------------------------------------------------------
  // Entries of one lesson
  // ---------------------------------------------------------------------

  /** convertMakeUpLessonToEntry: a one-off entry, unless the lesson has a cancelled date. */
  function MakeUpEntry(l: Lesson): (r: Option<Entry>)
    ensures r.None? <==> |l.cancelled| != 0
    ensures r.Some? ==> r.value.lesson == l && r.value.recurrence == Once && r.value.start == l.startDate.ymd
  {
    if |l.cancelled| != 0 then None else Some(Entry(l, l.startDate.ymd, Once))
  }

  /** Non-decreasing in calendar order. */
  predicate Ascending(s: seq<Civil.YMD>) {
    forall i, j :: 0 <= i < j < |s| ==> Civil.Compare(s[i], s[j]) <= 0
  }

  /** Inserts a date before the first later date of a list. */
  function InsertDate(s: seq<Civil.YMD>, x: Civil.YMD): (r: seq<Civil.YMD>)
    ensures |r| == |s| + 1 && multiset(r) == multiset(s) + multiset{x}
  {
    if |s| == 0 then [x]
    else if Civil.Compare(x, s[0]) <= 0 then [x] + s
    else
      assert s == [s[0]] + s[1..];
      [s[0]] + InsertDate(s[1..], x)
  }

  /** stream().sorted(): the dates in calendar order (see SortDatesAscending). */
  function SortDates(xs: seq<Civil.YMD>): (r: seq<Civil.YMD>)
    ensures |r| == |xs| && multiset(r) == multiset(xs)
  {
    if |xs| == 0 then []
    else
      assert xs == xs[..|xs| - 1] + [xs[|xs| - 1]];
      InsertDate(SortDates(xs[..|xs| - 1]), xs[|xs| - 1])
  }

  function DatesOf(c: seq<Dates.Date>): (r: seq<Civil.YMD>)
    ensures |r| == |c| && forall i :: 0 <= i < |c| ==> r[i] == c[i].ymd
  {
    if |c| == 0 then [] else DatesOf(c[..|c| - 1]) + [c[|c| - 1].ymd]
  }

  /**
   * The loop of convertRecurringLessonToEntries: each cancelled date
   * strictly after the current start closes a segment a week before it;
   * every cancelled date moves the start to a week after it; a last,
   * open-ended segment is always added.
   */
  function Split(l: Lesson, cancelled: seq<Civil.YMD>, start: Civil.YMD): (r: seq<Entry>)
    ensures 1 <= |r| <= |cancelled| + 1
    ensures r[|r| - 1].recurrence == Weekly(None)
    ensures forall i :: 0 <= i < |r| - 1 ==> r[i].recurrence.Weekly? && r[i].recurrence.until.Some?
    ensures forall i :: 0 <= i < |r| ==> r[i].lesson == l
    decreases |cancelled|
  {
    if |cancelled| == 0 then [Entry(l, start, Weekly(None))]
    else
      var c := cancelled[0];
      var rest := Split(l, cancelled[1..], Civil.PlusWeek(c));
      if Civil.Compare(c, start) > 0 then [Entry(l, start, Weekly(Some(Civil.MinusWeek(c))))] + rest
      else rest
  }

  /** convertRecurringLessonToEntries: the split of the lesson's weeks at its sorted cancelled dates. */
  function RecurringEntries(l: Lesson): (r: seq<Entry>)
    ensures 1 <= |r| <= |l.cancelled| + 1
    ensures r[|r| - 1].recurrence == Weekly(None)
    ensures forall i :: 0 <= i < |r| ==> r[i].lesson == l
  {
    var ds := SortDates(DatesOf(l.cancelled));
    assert |ds| == |l.cancelled|;
    Split(l, ds, l.startDate.ymd)
  }

  // ---------------------------------------------------------------------
  // Adding and removing a lesson
  // ---------------------------------------------------------------------

  /** The entries addLesson appends for a lesson that does not clash. */
  function EntriesOf(l: Lesson): (r: seq<Entry>)
    ensures forall i :: 0 <= i < |r| ==> r[i].lesson == l
    ensures !Lessons.IsRecurring(l) ==> |r| == (if |l.cancelled| == 0 then 1 else 0)
    ensures Lessons.IsRecurring(l) ==> 1 <= |r| <= |l.cancelled| + 1
  {
    if !Lessons.IsRecurring(l) then
      match MakeUpEntry(l)
      case Some(e) => [e]
      case None => []
    else RecurringEntries(l)
  }

  /** addLesson: a clashing lesson is refused and nothing is added. */
  function AddLesson(entries: seq<Entry>, toAdd: Lesson, clash: (Lesson, Lesson) -> bool)
    : (r: Result<seq<Entry>, CalendarError>)
    ensures r.Err? <==> HasClashes(entries, toAdd, clash)
    ensures r.Err? ==> r.error == ClashingLesson
    ensures r.Ok? ==> (|r.value| >= |entries| && r.value[..|entries|] == entries
      && forall i :: |entries| <= i < |r.value| ==> r.value[i].lesson == toAdd)
  {
    if HasClashes(entries, toAdd, clash) then Err(ClashingLesson)
    else Ok(entries + EntriesOf(toAdd))
  }

  /** The entries whose lesson is not equal to the given one, in order. */
  function Without(entries: seq<Entry>, l: Lesson): (r: seq<Entry>)
    ensures |r| <= |entries|
    ensures forall e :: e in r <==> e in entries && !Lessons.Equals(e.lesson, l)
  {
    if |entries| == 0 then []
    else
      var rest := Without(entries[1..], l);
      assert forall e :: e in entries <==> e == entries[0] || e in entries[1..];
      if Lessons.Equals(entries[0].lesson, l) then rest else [entries[0]] + rest
  }

  /**
   * Removal keeps every other entry as often as it occurred and drops every
   * copy of an entry of the lesson; with WithoutAppended this pins the
   * result down as the list filtered in order.
   */
  lemma {:induction false} WithoutCounts(entries: seq<Entry>, l: Lesson)
    ensures forall e :: multiset(Without(entries, l))[e] == if Lessons.Equals(e.lesson, l) then 0 else multiset(entries)[e]
    decreases |entries|
  {
    if |entries| > 0 {
      WithoutCounts(entries[1..], l);
      assert entries == [entries[0]] + entries[1..];
    }
  }

  /**
   * removeLesson: getEntries finds the entries whose lesson equals the
   * lesson (none is an error), and each is removed.
   */
  function RemoveLesson(entries: seq<Entry>, toRemove: Lesson): (r: Result<seq<Entry>, CalendarError>)
    ensures r.Err? <==> forall i :: 0 <= i < |entries| ==> !Lessons.Equals(entries[i].lesson, toRemove)
    ensures r.Err? ==> r.error == LessonNotFound
    ensures r.Ok? ==> (|r.value| < |entries|
      && forall e :: e in r.value <==> e in entries && !Lessons.Equals(e.lesson, toRemove))
  {
    if forall i :: 0 <= i < |entries| ==> !Lessons.Equals(entries[i].lesson, toRemove) then Err(LessonNotFound)
    else
      var r := Without(entries, toRemove);
      WithoutDrops(entries, toRemove);
      Ok(r)
  }

  // ---------------------------------------------------------------------
  // The recurrence rule text
  // ---------------------------------------------------------------------

  /**
   * DateTimeFormatter "yyyyMMdd": the basic DATE form. `yyyy` is the year of
   * the era, so the proleptic year 0 (1 BC) is written as 0001.
   */
  function FormatBasic(x: Civil.YMD): string
    requires Civil.Valid(x)
  {
    PadNat(YearOfEra(x.year), 4) + PadNat(x.month as nat, 2) + PadNat(x.day as nat, 2)
  }

  function YearOfEra(y: nat): nat {
    if y == 0 then 1 else y
  }

  const WeeklyRule := "RRULE:FREQ=WEEKLY"

  /** The recurrence rule: weekly, with ";UNTIL=" and the date exactly when there is a last date. */
  function RRule(until: Option<Civil.YMD>): (s: string)
    requires until.Some? ==> Civil.Valid(until.value)
    ensures |s| >= |WeeklyRule| && s[..|WeeklyRule|] == WeeklyRule
    ensures until.None? <==> s == WeeklyRule
  {
    if until.Some? then WeeklyRule + ";UNTIL=" + FormatBasic(until.value) else WeeklyRule
  }

  /** Reads a rule back: the plain weekly rule, or one with an eight-digit UNTIL date. */
  function ParseRRule(s: string): Option<Option<Civil.YMD>> {
    if s == WeeklyRule then Some(None)
    else if |s| == |WeeklyRule| + 15 && s[..|WeeklyRule| + 7] == WeeklyRule + ";UNTIL=" then
      var d := s[|WeeklyRule| + 7..];
      if AllDigits(d) then
        Some(Some(Civil.YMD(DigitsValue(d[..4]), DigitsValue(d[4..6]), DigitsValue(d[6..]))))
      else None
    else None
  }

  // ---------------------------------------------------------------------
  // Lemmas
  // ---------------------------------------------------------------------

  lemma {:induction false} WithoutDrops(entries: seq<Entry>, l: Lesson)
    requires exists i :: 0 <= i < |entries| && Lessons.Equals(entries[i].lesson, l)
    ensures |Without(entries, l)| < |entries|
    decreases |entries|
  {
    if !Lessons.Equals(entries[0].lesson, l) {
      var i :| 0 <= i < |entries| && Lessons.Equals(entries[i].lesson, l);
      assert entries[1..][i - 1] == entries[i];
      WithoutDrops(entries[1..], l);
    }
  }

  /**
   * hasClashes over a list is hasClashes over any split of it: an empty list
   * has no clash, and appended entries add their clashes to the others'.
   */
  lemma HasClashesAppend(a: seq<Entry>, b: seq<Entry>, toCheck: Lesson, clash: (Lesson, Lesson) -> bool)
    ensures !HasClashes([], toCheck, clash)
    ensures HasClashes(a + b, toCheck, clash) <==> HasClashes(a, toCheck, clash) || HasClashes(b, toCheck, clash)
  {
  }

  /**
   * The kind decides what addLesson shows: a make-up lesson with no
   * cancellation is one entry on its display date, while a recurring
   * lesson's entries all repeat weekly and the last one has no end.
   */
  lemma KindDecidesEntries(l: Lesson)
    ensures !Lessons.IsRecurring(l) && |l.cancelled| == 0 ==>
      EntriesOf(l) == [Entry(l, Lessons.DisplayDate(l).ymd, Once)]
    ensures Lessons.IsRecurring(l) ==>
      (forall i :: 0 <= i < |EntriesOf(l)| ==> EntriesOf(l)[i].recurrence.Weekly?)
      && EntriesOf(l)[|EntriesOf(l)| - 1].recurrence == Weekly(None)
  {
    if Lessons.IsRecurring(l) {
      var ds := SortDates(DatesOf(l.cancelled));
      assert |ds| == |l.cancelled|;
      var r := Split(l, ds, l.startDate.ymd);
      assert EntriesOf(l) == r;
      assert forall i :: 0 <= i < |r| ==> r[i].recurrence.Weekly? by {
        forall i | 0 <= i < |r|
          ensures r[i].recurrence.Weekly?
        {
          if i < |r| - 1 {
            assert r[i].recurrence.Weekly?;
          }
        }
      }
    } else if |l.cancelled| == 0 {
      assert MakeUpEntry(l) == Some(Entry(l, l.startDate.ymd, Once));
    }
  }

  /** Ignoring a lesson only removes clashes; ignoring one no entry holds removes none. */
  lemma IgnoringNarrowsClashes(entries: seq<Entry>, toCheck: Lesson, toIgnore: Lesson,
                               clash: (Lesson, Lesson) -> bool)
    ensures HasClashesIgnoring(entries, toCheck, toIgnore, clash) ==> HasClashes(entries, toCheck, clash)
    ensures (forall i :: 0 <= i < |entries| ==> !Lessons.Equals(entries[i].lesson, toIgnore)) ==>
      (HasClashesIgnoring(entries, toCheck, toIgnore, clash) <==> HasClashes(entries, toCheck, clash))
  {
  }

  /**
   * Adding a lesson that no entry holds and that yields entries, then
   * removing it, gives back the original entries.
   */
  lemma AddThenRemove(entries: seq<Entry>, l: Lesson, clash: (Lesson, Lesson) -> bool)
    requires AddLesson(entries, l, clash).Ok?
    requires forall i :: 0 <= i < |entries| ==> !Lessons.Equals(entries[i].lesson, l)
    requires Lessons.IsRecurring(l) || |l.cancelled| == 0
    ensures RemoveLesson(AddLesson(entries, l, clash).value, l) == Ok(entries)
  {
    var added := EntriesOf(l);
    var all := entries + added;
    assert Lessons.Equals(all[|entries|].lesson, l);
    WithoutAppended(entries, added, l);
  }

  lemma {:induction false} WithoutAppended(entries: seq<Entry>, added: seq<Entry>, l: Lesson)
    requires forall i :: 0 <= i < |entries| ==> !Lessons.Equals(entries[i].lesson, l)
    requires forall i :: 0 <= i < |added| ==> added[i].lesson == l
    ensures Without(entries + added, l) == entries
    decreases |entries|
  {
    if |entries| == 0 {
      WithoutAll(added, l);
      assert entries + added == added;
    } else {
      assert (entries + added)[1..] == entries[1..] + added;
      WithoutAppended(entries[1..], added, l);
      assert entries == [entries[0]] + entries[1..];
    }
  }

  lemma {:induction false} WithoutAll(added: seq<Entry>, l: Lesson)
    requires forall i :: 0 <= i < |added| ==> added[i].lesson == l
    ensures Without(added, l) == []
    decreases |added|
  {
    if |added| > 0 {
      Lessons.EqualsIsEquivalence(l, l, l);
      WithoutAll(added[1..], l);
    }
  }

  /** A make-up lesson with a cancelled date gets no entry; one without gets exactly its own. */
  lemma MakeUpEntries(l: Lesson)
    requires !Lessons.IsRecurring(l)
    ensures |l.cancelled| != 0 ==> EntriesOf(l) == []
    ensures |l.cancelled| == 0 ==> (EntriesOf(l) == [Entry(l, l.startDate.ymd, Once)]
      && forall d :: AnyShows(EntriesOf(l), d) <==> d == Lessons.Day(l))
  {
    if |l.cancelled| == 0 {
      var e := Entry(l, l.startDate.ymd, Once);
      forall d
        ensures AnyShows([e], d) <==> d == Lessons.Day(l)
      {
        assert [e][0] == e;
      }
    }
  }

  // ---------------------------------------------------------------------
  // Calendar order of the sorted cancelled dates
  // ---------------------------------------------------------------------

  lemma CompareTotal(a: Civil.YMD, b: Civil.YMD, c: Civil.YMD)
    ensures Civil.Compare(a, b) > 0 ==> Civil.Compare(b, a) <= 0
    ensures Civil.Compare(a, b) <= 0 && Civil.Compare(b, c) <= 0 ==> Civil.Compare(a, c) <= 0
  {
  }

  lemma {:induction false} InsertDateAscending(s: seq<Civil.YMD>, x: Civil.YMD)
    requires Ascending(s)
    ensures Ascending(InsertDate(s, x))
    decreases |s|
  {
    if |s| > 0 {
      var r := InsertDate(s, x);
      if Civil.Compare(x, s[0]) <= 0 {
        forall j | 0 < j < |r|
          ensures Civil.Compare(r[0], r[j]) <= 0
        {
          CompareTotal(x, s[0], s[j - 1]);
        }
      } else {
        var t := InsertDate(s[1..], x);
        InsertDateAscending(s[1..], x);
        assert r == [s[0]] + t;
        forall j | 0 <= j < |t|
          ensures Civil.Compare(s[0], t[j]) <= 0
        {
          assert t[j] in multiset(s[1..]) + multiset{x} by {
            assert t[j] in multiset(t);
          }
          if t[j] == x {
            CompareTotal(x, s[0], s[0]);
          } else {
            assert t[j] in s[1..];
          }
        }
      }
    }
  }

  /** The sort puts the dates in calendar order. */
  lemma {:induction false} SortDatesAscending(xs: seq<Civil.YMD>)
    ensures Ascending(SortDates(xs))
  {
    if |xs| > 0 {
      SortDatesAscending(xs[..|xs| - 1]);
      InsertDateAscending(SortDates(xs[..|xs| - 1]), xs[|xs| - 1]);
    }
  }

  // ---------------------------------------------------------------------
  // The days a split recurring lesson is shown on
  // ---------------------------------------------------------------------

  function EpochDays(xs: seq<Civil.YMD>): (r: seq<int>)
    ensures |r| == |xs| && forall i :: 0 <= i < |xs| ==> r[i] == Civil.EpochDay(xs[i])
  {
    seq(|xs|, i requires 0 <= i < |xs| => Civil.EpochDay(xs[i]))
  }

  /** The split over epoch days: what Split computes, read through EpochDay. */
  function SplitDays(cancelled: seq<int>, start: int): (r: seq<Span>)
    ensures |r| >= 1
    decreases |cancelled|
  {
    if |cancelled| == 0 then [Span(start, None)]
    else
      var c := cancelled[0];
      var rest := SplitDays(cancelled[1..], c + 7);
      if c > start then [Span(start, Some(c - 7))] + rest else rest
  }

  predicate AnySpan(spans: seq<Span>, d: int) {
    exists i :: 0 <= i < |spans| && InSpan(spans[i], d)
  }

  predicate AscendingDays(ds: seq<int>) {
    forall i, j :: 0 <= i < j < |ds| ==> ds[i] <= ds[j]
  }

  /** The cancelled days fall on the weekly grid of the start, at most a week before it. */
  predicate OnGrid(ds: seq<int>, start: int) {
    forall i :: 0 <= i < |ds| ==> ds[i] >= start - 7 && (ds[i] - start) % 7 == 0
  }

  /** Occurrence-grid arithmetic: c lies on the grid of s, at most a week before s. */
  lemma GridFacts(s: int, c: int, d: int)
    requires (c - s) % 7 == 0 && c >= s - 7
    ensures ((d - s) % 7 == 0) == ((d - (c + 7)) % 7 == 0)
    ensures (d - s) % 7 == 0 && c - 7 < d < c + 7 ==> d == c
    ensures c <= s ==> c == s || c == s - 7
  {
    var q := (c - s) / 7;
    assert c == s + 7 * q;
    if (d - s) % 7 == 0 {
      var p := (d - s) / 7;
      assert d == s + 7 * p;
      assert d - (c + 7) == 7 * (p - q - 1);
      if c - 7 < d < c + 7 {
        assert -1 < p - q < 1;
      }
    }
    if (d - (c + 7)) % 7 == 0 {
      var p := (d - (c + 7)) / 7;
      assert d - s == 7 * (p + q + 1);
    }
    if c <= s {
      assert -1 <= q <= 0;
    }
  }

  lemma GridShift(a: int, b: int, s: int)
    requires (a - s) % 7 == 0 && (b - s) % 7 == 0
    ensures (a - (b + 7)) % 7 == 0
  {
    var p, q := (a - s) / 7, (b - s) / 7;
    assert a - (b + 7) == 7 * (p - q - 1);
  }

  /** The later cancelled days lie on the grid of the next start. */
  lemma SplitStep(ds: seq<int>, start: int)
    requires |ds| > 0 && AscendingDays(ds) && OnGrid(ds, start)
    ensures AscendingDays(ds[1..]) && OnGrid(ds[1..], ds[0] + 7)
    ensures forall i :: 0 <= i < |ds[1..]| ==> ds[1..][i] >= ds[0]
  {
    forall i | 0 <= i < |ds[1..]|
      ensures ds[1..][i] >= ds[0] && (ds[1..][i] - (ds[0] + 7)) % 7 == 0
    {
      assert ds[1..][i] == ds[i + 1];
      GridShift(ds[i + 1], ds[0], start);
    }
  }

  lemma AnySpanCons(p: Span, rest: seq<Span>, d: int)
    ensures AnySpan([p] + rest, d) <==> InSpan(p, d) || AnySpan(rest, d)
  {
    var r := [p] + rest;
    assert r[0] == p;
    if AnySpan(rest, d) {
      var i :| 0 <= i < |rest| && InSpan(rest[i], d);
      assert r[i + 1] == rest[i];
    }
    if AnySpan(r, d) && !InSpan(p, d) {
      var i :| 0 <= i < |r| && InSpan(r[i], d);
      assert rest[i - 1] == r[i];
    }
  }

  /**
   * The case analysis of one split step: s the start, c the first
   * cancelled day, `rest` what the later segments show.
   */
  lemma SplitCases(s: int, c: int, d: int, rest: bool, tailCancels: bool, cancels: bool, shows: bool, after: bool)
    requires (c - s) % 7 == 0 && c >= s - 7
    requires rest <==> d >= c + 7 && (d - (c + 7)) % 7 == 0 && !tailCancels
    requires cancels <==> c == d || tailCancels
    requires tailCancels ==> d >= c
    requires after <==> c > s
    requires after ==> (shows <==> (s <= d <= c - 7 && (d - s) % 7 == 0) || rest)
    requires !after ==> (shows <==> rest)
    ensures shows <==> d >= s && (d - s) % 7 == 0 && !cancels
  {
    GridFacts(s, c, d);
  }

  /**
   * The split segments cover exactly the weekly occurrences from the
   * start that are not cancelled.
   */
  lemma {:induction false} SplitDaysShowUncancelledWeeks(ds: seq<int>, start: int, d: int)
    requires AscendingDays(ds) && OnGrid(ds, start)
    ensures AnySpan(SplitDays(ds, start), d) <==> UncancelledWeek(start, ds, d)
    decreases |ds|
  {
    var r := SplitDays(ds, start);
    if |ds| == 0 {
      assert AnySpan(r, d) <==> InSpan(r[0], d);
    } else {
      var c := ds[0];
      var tail := ds[1..];
      var rest := SplitDays(tail, c + 7);
      SplitStep(ds, start);
      SplitDaysShowUncancelledWeeks(tail, c + 7, d);
      SplitHead(ds, start, d);
      InHeadOrTail(ds, d);
      assert d in tail ==> d >= c;
      SplitCases(start, c, d, AnySpan(rest, d), d in tail, d in ds, AnySpan(r, d), c > start);
    }
  }

  /** A day shows in the split segments if it shows before the first cancelled day or after it. */
  lemma SplitHead(ds: seq<int>, start: int, d: int)
    requires |ds| > 0
    ensures var rest := SplitDays(ds[1..], ds[0] + 7);
      if ds[0] > start
      then AnySpan(SplitDays(ds, start), d) <==> InSpan(Span(start, Some(ds[0] - 7)), d) || AnySpan(rest, d)
      else AnySpan(SplitDays(ds, start), d) <==> AnySpan(rest, d)
  {
    if ds[0] > start {
      AnySpanCons(Span(start, Some(ds[0] - 7)), SplitDays(ds[1..], ds[0] + 7), d);
    }
  }

  lemma InHeadOrTail(ds: seq<int>, d: int)
    requires |ds| > 0
    ensures d in ds <==> d == ds[0] || d in ds[1..]
  {
    assert ds == [ds[0]] + ds[1..];
  }

  /** Day d is a weekly occurrence from the start that is not cancelled. */
  predicate UncancelledWeek(start: int, cancelled: seq<int>, d: int) {
    d >= start && (d - start) % 7 == 0 && d !in cancelled
  }

  /** All dates exist and lie at least a week after 0000-01-01. */
  predicate WeekPastOrigin(xs: seq<Civil.YMD>) {
    forall i :: 0 <= i < |xs| ==>
      Civil.Valid(xs[i]) && Civil.EpochDay(xs[i]) - 7 >= Civil.EpochDay(Civil.YMD(0, 1, 1))
  }

  /** The spans of the entries, one per entry, read through EpochDay. */
  function SpansOf(entries: seq<Entry>): (r: seq<Span>)
    ensures |r| == |entries|
  {
    if |entries| == 0 then [] else [SpanOf(entries[0])] + SpansOf(entries[1..])
  }

  lemma SpansOfCons(e: Entry, entries: seq<Entry>)
    ensures SpansOf([e] + entries) == [SpanOf(e)] + SpansOf(entries)
  {
    assert ([e] + entries)[1..] == entries;
  }

  /** Split on dates is the split on epoch days, segment by segment. */
  lemma {:induction false} SplitMatchesDays(l: Lesson, cancelled: seq<Civil.YMD>, start: Civil.YMD)
    requires Civil.Valid(start) && WeekPastOrigin(cancelled)
    ensures SpansOf(Split(l, cancelled, start)) == SplitDays(EpochDays(cancelled), Civil.EpochDay(start))
    decreases |cancelled|
  {
    if |cancelled| > 0 {
      var c := cancelled[0];
      var next := Civil.PlusWeek(c);
      Civil.PlusWeekEpoch(c);
      assert WeekPastOrigin(cancelled[1..]) by {
        forall i | 0 <= i < |cancelled[1..]|
          ensures cancelled[1..][i] == cancelled[i + 1]
        {
        }
      }
      SplitMatchesDays(l, cancelled[1..], next);
      SplitMatchesStep(l, cancelled, start);
    }
  }

  /** One step of the correspondence, given it for the later cancelled dates. */
  lemma SplitMatchesStep(l: Lesson, cancelled: seq<Civil.YMD>, start: Civil.YMD)
    requires Civil.Valid(start) && |cancelled| > 0 && Civil.Valid(cancelled[0])
    requires Civil.EpochDay(cancelled[0]) - 7 >= Civil.EpochDay(Civil.YMD(0, 1, 1))
    requires Civil.EpochDay(Civil.PlusWeek(cancelled[0])) == Civil.EpochDay(cancelled[0]) + 7
    requires SpansOf(Split(l, cancelled[1..], Civil.PlusWeek(cancelled[0])))
      == SplitDays(EpochDays(cancelled[1..]), Civil.EpochDay(Civil.PlusWeek(cancelled[0])))
    ensures SpansOf(Split(l, cancelled, start)) == SplitDays(EpochDays(cancelled), Civil.EpochDay(start))
  {
    var c := cancelled[0];
    var rest := Split(l, cancelled[1..], Civil.PlusWeek(c));
    var e := SplitBranch(l, cancelled, start);
    SplitDaysUnfold(cancelled, start);
    AfterStartIsEpochOrder(c, start);
    if Civil.Compare(c, start) > 0 {
      SpansOfCons(e, rest);
    }
  }

  /** Split at its first cancelled date: a closed segment is prepended exactly when the date is after the start. */
  lemma SplitBranch(l: Lesson, cancelled: seq<Civil.YMD>, start: Civil.YMD) returns (e: Entry)
    requires |cancelled| > 0 && Civil.Valid(cancelled[0])
    requires Civil.EpochDay(cancelled[0]) - 7 >= Civil.EpochDay(Civil.YMD(0, 1, 1))
    ensures SpanOf(e) == Span(Civil.EpochDay(start), Some(Civil.EpochDay(cancelled[0]) - 7))
    ensures var rest := Split(l, cancelled[1..], Civil.PlusWeek(cancelled[0]));
      Split(l, cancelled, start) == if Civil.Compare(cancelled[0], start) > 0 then [e] + rest else rest
  {
    e := FirstSegment(l, cancelled[0], start);
    SplitUnfold(l, cancelled, start);
  }

  /** Split with one cancelled date unfolded. */
  lemma SplitUnfold(l: Lesson, cancelled: seq<Civil.YMD>, start: Civil.YMD)
    requires |cancelled| > 0
    ensures var c := cancelled[0];
      var rest := Split(l, cancelled[1..], Civil.PlusWeek(c));
      Split(l, cancelled, start)
        == if Civil.Compare(c, start) > 0 then [Entry(l, start, Weekly(Some(Civil.MinusWeek(c))))] + rest else rest
  {
  }

  /** SplitDays over the epoch days of dates, one cancelled date unfolded. */
  lemma SplitDaysUnfold(cancelled: seq<Civil.YMD>, start: Civil.YMD)
    requires |cancelled| > 0 && Civil.Valid(cancelled[0]) && Civil.Valid(start)
    ensures var spans := SplitDays(EpochDays(cancelled[1..]), Civil.EpochDay(cancelled[0]) + 7);
      SplitDays(EpochDays(cancelled), Civil.EpochDay(start))
        == if Civil.EpochDay(cancelled[0]) > Civil.EpochDay(start)
           then [Span(Civil.EpochDay(start), Some(Civil.EpochDay(cancelled[0]) - 7))] + spans
           else spans
  {
    var rest := EpochDays(cancelled[1..]);
    EpochDaysCons(cancelled);
    SplitDaysCons(Civil.EpochDay(cancelled[0]), rest, Civil.EpochDay(start));
  }

  lemma EpochDaysCons(xs: seq<Civil.YMD>)
    requires |xs| > 0
    ensures EpochDays(xs) == [Civil.EpochDay(xs[0])] + EpochDays(xs[1..])
  {
  }

  lemma SplitDaysCons(c: int, rest: seq<int>, start: int)
    ensures SplitDays([c] + rest, start)
      == if c > start then [Span(start, Some(c - 7))] + SplitDays(rest, c + 7) else SplitDays(rest, c + 7)
  {
    assert ([c] + rest)[1..] == rest;
  }

  lemma AfterStartIsEpochOrder(c: Civil.YMD, start: Civil.YMD)
    requires Civil.Valid(c) && Civil.Valid(start)
    ensures Civil.Compare(c, start) > 0 <==> Civil.EpochDay(c) > Civil.EpochDay(start)
  {
    Civil.CompareIsEpochOrder(c, start);
  }

  /** The segment closed a week before a cancelled date spans up to that day less seven. */
  lemma FirstSegment(l: Lesson, c: Civil.YMD, start: Civil.YMD) returns (e: Entry)
    requires Civil.Valid(c) && Civil.EpochDay(c) - 7 >= Civil.EpochDay(Civil.YMD(0, 1, 1))
    ensures e == Entry(l, start, Weekly(Some(Civil.MinusWeek(c))))
    ensures SpanOf(e) == Span(Civil.EpochDay(start), Some(Civil.EpochDay(c) - 7))
  {
    Civil.MinusWeekEpoch(c);
    e := Entry(l, start, Weekly(Some(Civil.MinusWeek(c))));
  }

  /** An entry shows its lesson exactly on the days of its span. */
  lemma ShowsIsInSpan(e: Entry, d: int)
    ensures Shows(e, d) <==> InSpan(SpanOf(e), d)
  {
  }

  lemma {:induction false} ShowsMatchSpans(entries: seq<Entry>, d: int)
    ensures AnyShows(entries, d) <==> AnySpan(SpansOf(entries), d)
    decreases |entries|
  {
    if |entries| > 0 {
      var e := entries[0];
      var tail := entries[1..];
      assert entries == [e] + tail;
      ShowsMatchSpans(tail, d);
      ShowsIsInSpan(e, d);
      SpansOfCons(e, tail);
      AnySpanCons(SpanOf(e), SpansOf(tail), d);
      assert AnyShows(entries, d) <==> Shows(e, d) || AnyShows(tail, d) by {
        if AnyShows(entries, d) && !Shows(e, d) {
          var i :| 0 <= i < |entries| && Shows(entries[i], d);
          assert Shows(tail[i - 1], d);
        }
        if AnyShows(tail, d) {
          var i :| 0 <= i < |tail| && Shows(tail[i], d);
          assert Shows(entries[i + 1], d);
        }
      }
    }
  }

  /** Sorting by calendar order sorts the epoch days, and keeps which days are present. */
  lemma SortedDays(xs: seq<Civil.YMD>)
    requires forall i :: 0 <= i < |xs| ==> Civil.Valid(xs[i])
    ensures AscendingDays(EpochDays(SortDates(xs)))
    ensures forall d :: d in EpochDays(SortDates(xs)) <==> d in EpochDays(xs)
    ensures WeekPastOrigin(xs) ==> WeekPastOrigin(SortDates(xs))
  {
    var sorted := SortDates(xs);
    SameDates(sorted, xs);
    ValidMembers(sorted, xs);
    SortDatesAscending(xs);
    AscendingEpochDays(sorted);
    SameDays(sorted, xs);
  }

  /** Sequences with the same multiset hold the same dates. */
  lemma SameDates(a: seq<Civil.YMD>, b: seq<Civil.YMD>)
    requires multiset(a) == multiset(b)
    ensures forall x :: x in a <==> x in b
  {
    forall x
      ensures x in a <==> x in b
    {
      assert x in a <==> x in multiset(a);
      assert x in b <==> x in multiset(b);
    }
  }

  lemma ValidMembers(a: seq<Civil.YMD>, b: seq<Civil.YMD>)
    requires forall x :: x in a <==> x in b
    requires forall i :: 0 <= i < |b| ==> Civil.Valid(b[i])
    ensures forall i :: 0 <= i < |a| ==> Civil.Valid(a[i])
  {
    forall i | 0 <= i < |a|
      ensures Civil.Valid(a[i])
    {
      assert a[i] in b;
      var j :| 0 <= j < |b| && b[j] == a[i];
    }
  }

  lemma AscendingEpochDays(sorted: seq<Civil.YMD>)
    requires Ascending(sorted) && forall i :: 0 <= i < |sorted| ==> Civil.Valid(sorted[i])
    ensures AscendingDays(EpochDays(sorted))
  {
    forall i, j | 0 <= i < j < |sorted|
      ensures Civil.EpochDay(sorted[i]) <= Civil.EpochDay(sorted[j])
    {
      Civil.CompareIsEpochOrder(sorted[i], sorted[j]);
    }
  }

  lemma SameDays(a: seq<Civil.YMD>, b: seq<Civil.YMD>)
    requires forall x :: x in a <==> x in b
    ensures forall d :: d in EpochDays(a) <==> d in EpochDays(b)
    ensures WeekPastOrigin(b) ==> WeekPastOrigin(a)
  {
    forall d | d in EpochDays(a)
      ensures d in EpochDays(b)
    {
      var i :| 0 <= i < |a| && EpochDays(a)[i] == d;
      assert a[i] in b;
      var j :| 0 <= j < |b| && b[j] == a[i];
      assert EpochDays(b)[j] == d;
    }
    forall d | d in EpochDays(b)
      ensures d in EpochDays(a)
    {
      var i :| 0 <= i < |b| && EpochDays(b)[i] == d;
      assert b[i] in a;
      var j :| 0 <= j < |a| && a[j] == b[i];
      assert EpochDays(a)[j] == d;
    }
    if WeekPastOrigin(b) {
      forall i | 0 <= i < |a|
        ensures Civil.Valid(a[i]) && Civil.EpochDay(a[i]) - 7 >= Civil.EpochDay(Civil.YMD(0, 1, 1))
      {
        assert a[i] in b;
        var j :| 0 <= j < |b| && b[j] == a[i];
      }
    }
  }

  lemma GridOfMembers(ds: seq<int>, other: seq<int>, start: int)
    requires OnGrid(ds, start) && forall d :: d in other ==> d in ds
    ensures OnGrid(other, start)
  {
    forall i | 0 <= i < |other|
      ensures other[i] >= start - 7 && (other[i] - start) % 7 == 0
    {
      assert other[i] in other;
      var j :| 0 <= j < |ds| && ds[j] == other[i];
    }
  }

  /**
   * A recurring lesson whose cancelled dates are occurrences, none more
   * than a week before its start, is shown on exactly its uncancelled
   * weekly occurrences.
   */
  lemma RecurringShowsUncancelledWeeks(l: Lesson, d: int)
    requires Lessons.Wf(l) && Lessons.IsRecurring(l)
    requires WeekPastOrigin(DatesOf(l.cancelled))
    requires OnGrid(EpochDays(DatesOf(l.cancelled)), Lessons.Day(l))
    ensures AnyShows(RecurringEntries(l), d) <==> UncancelledWeek(Lessons.Day(l), EpochDays(DatesOf(l.cancelled)), d)
  {
    Dates.WfIsValid(l.startDate);
    var xs := DatesOf(l.cancelled);
    var sorted := SortDates(xs);
    var start := l.startDate.ymd;
    SortedDays(xs);
    GridOfMembers(EpochDays(xs), EpochDays(sorted), Lessons.Day(l));
    var s := Lessons.Day(l);
    assert s == Civil.EpochDay(start);
    var entries := Split(l, sorted, start);
    assert RecurringEntries(l) == entries;
    var spans := SplitDays(EpochDays(sorted), s);
    SplitMatchesDays(l, sorted, start);
    ShowsMatchSpans(entries, d);
    SplitDaysShowUncancelledWeeks(EpochDays(sorted), s, d);
    assert UncancelledWeek(s, EpochDays(sorted), d) <==> UncancelledWeek(s, EpochDays(xs), d);
    assert AnyShows(RecurringEntries(l), d) <==> AnySpan(spans, d);
  }

  /** The rule text reads back as the last date it was written with, for a date of years 1-9999. */
  lemma RRuleRoundTrip(until: Option<Civil.YMD>)
    requires until.Some? ==> Civil.Valid(until.value) && 1 <= until.value.year <= 9999
    ensures ParseRRule(RRule(until)) == Some(until)
  {
    if until.Some? {
      var x := until.value;
      PadNatLength(x.year, 4);
      PadNatLength(x.month as nat, 2);
      PadNatLength(x.day as nat, 2);
      PadNatValue(x.year, 4);
      PadNatValue(x.month as nat, 2);
      PadNatValue(x.day as nat, 2);
      var d := FormatBasic(x);
      var s := RRule(until);
      assert s == WeeklyRule + ";UNTIL=" + d;
      assert s[|WeeklyRule| + 7..] == d;
      assert s[..|WeeklyRule| + 7] == WeeklyRule + ";UNTIL=";
      assert d[..4] == PadNat(x.year, 4);
      assert d[4..6] == PadNat(x.month as nat, 2);
      assert d[6..] == PadNat(x.day as nat, 2);
    }
  }

  /**
   * An until date in year 0 is written with year of era 1, the same text as
   * the same day of year 1, so it reads back a year late.
   */
  lemma RRuleYearZero()
    ensures FormatBasic(Civil.YMD(0, 1, 8)) == "00010108"
    ensures ParseRRule(RRule(Some(Civil.YMD(0, 1, 8)))) == Some(Some(Civil.YMD(1, 1, 8)))
  {
    var x, y := Civil.YMD(0, 1, 8), Civil.YMD(1, 1, 8);
    assert FormatBasic(x) == FormatBasic(y);
    RRuleRoundTrip(Some(y));
  }
}
