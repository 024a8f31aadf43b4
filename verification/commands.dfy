/**
 * The lesson commands: add a lesson to a student, edit one, delete one.
 * The model is the list of persons shown to the user; each person keeps
 * their lessons as a TreeSet (a sorted sequence, see LessonSets). Person
 * identity (`isSamePerson`) and the lesson clash relation are parameters:
 * `same` compares the non-lesson details, `clash(existing, toCheck)` is
 * `existing.isClashing(toCheck)`.
 */
module LessonCommands {
  import opened Wrappers
  import opened CommandUtil
  import Dates
  import TimeRanges
  import Tags
  import Lessons
  import LessonSets
  import UniquePersons

  type Lesson = Lessons.Lesson

  const MessageClashingLesson := "This lesson clashes with an existing lesson."
  const MessageEditClashing := "This edit will result in clashes with an existing lesson."

  /** Every field of a person other than the lessons. */
  datatype Details = Details(
    name: string,
    phone: string,
    email: string,
    parentPhone: string,
    parentEmail: string,
    address: string,
    fee: string,
    remark: string,
    tags: set<Tags.Tag>)

  datatype Person = Person(details: Details, lessons: seq<Lesson>)

  /** A stored person's lessons form a TreeSet of constructed lessons. */
  predicate PersonWf(p: Person) {
    LessonSets.Sorted(p.lessons) && LessonSets.AllWf(p.lessons)
  }

  predicate AllPersonsWf(persons: seq<Person>) {
    forall i :: 0 <= i < |persons| ==> PersonWf(persons[i])
  }

  /** isSamePerson lifted to persons: it looks at the details only. */
  function SamePerson(same: (Details, Details) -> bool): (Person, Person) -> bool {
    (a: Person, b: Person) => same(a.details, b.details)
  }

  ghost predicate Reflexive(same: (Details, Details) -> bool) {
    forall d :: same(d, d)
  }

  /** The person list keeps no two persons with the same identity. */
  predicate Unique(persons: seq<Person>, same: (Details, Details) -> bool) {
    UniquePersons.PersonsAreUnique(persons, SamePerson(same))
  }

  /** Model.setPerson: UniquePersonList.setPerson, its exceptions reported as failures. */
  function SetPerson(persons: seq<Person>, target: Person, edited: Person, same: (Details, Details) -> bool)
    : (r: Result<seq<Person>, Failure>)
    ensures r.Err? <==> (target !in persons
      || (!same(target.details, edited.details) && exists i :: 0 <= i < |persons| && same(edited.details, persons[i].details)))
    ensures r.Err? ==> r.error == ListFailure(if target !in persons then UniquePersons.PersonNotFound
                                              else UniquePersons.DuplicatePerson)
    ensures r.Ok? ==> (|r.value| == |persons| && edited in r.value
      && forall j :: 0 <= j < |persons| && persons[j] != target ==> r.value[j] == persons[j])
  {
    match UniquePersons.SetPerson(persons, target, edited, SamePerson(same))
    case Ok(s) => Ok(s)
    case Err(e) => Err(ListFailure(e))
  }

  /**
   * Model.hasClashingLesson(toCheck): some stored lesson reports a clash
   * with it. The calendar holds an entry for every stored lesson.
   */
  predicate HasClashingLesson(persons: seq<Person>, toCheck: Lesson, clash: (Lesson, Lesson) -> bool) {
    exists i, j :: 0 <= i < |persons| && 0 <= j < |persons[i].lessons|
      && clash(persons[i].lessons[j], toCheck)
  }

  /** Model.hasClashingLesson(toCheck, toIgnore): as above, skipping lessons equal to toIgnore. */
  function HasClashingLessonIgnoring(persons: seq<Person>, toCheck: Lesson, toIgnore: Lesson,
                                     clash: (Lesson, Lesson) -> bool): (r: bool)
    ensures r ==> HasClashingLesson(persons, toCheck, clash)
  {
    exists i, j :: 0 <= i < |persons| && 0 <= j < |persons[i].lessons|
      && !Lessons.Equals(persons[i].lessons[j], toIgnore) && clash(persons[i].lessons[j], toCheck)
  }

  // ---------------------------------------------------------------------
  // LessonAddCommand
  // ---------------------------------------------------------------------

  datatype AddCommand = AddCommand(index: nat, toAdd: Lesson)

  /**
   * LessonAddCommand.createEditedPerson: every detail kept; the lesson is
   * added to a fresh TreeSet of the person's lessons.
   */
  function WithAddedLesson(p: Person, l: Lesson): (r: Person)
    ensures r.details == p.details && LessonSets.Sorted(r.lessons)
    ensures LessonSets.Sorted(p.lessons) && LessonSets.HasSlot(p.lessons, l) ==> r == p
    ensures LessonSets.Sorted(p.lessons) && !LessonSets.HasSlot(p.lessons, l) ==>
      |r.lessons| == |p.lessons| + 1 && forall y :: y in r.lessons <==> y in p.lessons || y == l
  {
    RebuildSorted(p.lessons);
    Person(p.details, LessonSets.Insert(LessonSets.FromSeq(p.lessons), l))
  }

  /**
   * LessonAddCommand.execute: the person index is checked, then the clash,
   * then the person is replaced by one holding the new lesson.
   */
  function ExecuteAdd(persons: seq<Person>, c: AddCommand, same: (Details, Details) -> bool,
                      clash: (Lesson, Lesson) -> bool): (r: Result<seq<Person>, Failure>)
    ensures r == Err(InvalidPersonIndex) <==> c.index >= |persons|
    ensures c.index < |persons| && HasClashingLesson(persons, c.toAdd, clash) ==>
      r == Err(Clashing(MessageClashingLesson))
    ensures r.Ok? ==> (c.index < |persons| && !HasClashingLesson(persons, c.toAdd, clash)
      && r == SetPerson(persons, persons[c.index], WithAddedLesson(persons[c.index], c.toAdd), same))
  {
    if c.index >= |persons| then Err(InvalidPersonIndex)
    else
      var personToEdit := persons[c.index];
      var editedPerson := WithAddedLesson(personToEdit, c.toAdd);
      if HasClashingLesson(persons, c.toAdd, clash) then Err(Clashing(MessageClashingLesson))
      else SetPerson(persons, personToEdit, editedPerson, same)
  }

  /** LessonAddCommand.equals: same index and equal lessons. */
  function AddCommandEquals(a: AddCommand, b: AddCommand): (r: bool)
    ensures r ==> a.index == b.index && a.toAdd.kind == b.toAdd.kind && a.toAdd.subject == b.toAdd.subject
  {
    a.index == b.index && Lessons.Equals(a.toAdd, b.toAdd)
  }

  // ---------------------------------------------------------------------
  // LessonEditCommand
  // ---------------------------------------------------------------------

  /** EditLessonDescriptor: each field, when present, replaces the lesson's. */
  datatype EditLessonDescriptor = EditLessonDescriptor(
    date: Option<Dates.Date>,
    timeRange: Option<TimeRanges.TimeRange>,
    subject: Option<string>,
    homework: Option<set<string>>)

  const NoEdits := EditLessonDescriptor(None, None, None, None)

  /** EditLessonDescriptor.isAnyFieldEdited. */
  function IsAnyFieldEdited(d: EditLessonDescriptor): (b: bool)
    ensures b <==> d != NoEdits
  {
    d.date.Some? || d.timeRange.Some? || d.subject.Some? || d.homework.Some?
  }

  /** The descriptor's values are constructed ones. */
  predicate DescriptorWf(d: EditLessonDescriptor) {
    (d.date.Some? ==> Dates.Wf(d.date.value)) && (d.timeRange.Some? ==> TimeRanges.Wf(d.timeRange.value))
  }

  /**
   * LessonEditCommand.createEditedLesson: a new lesson of the same kind
   * built from the date, time range, subject and homework, each from the
   * descriptor when given and from the lesson otherwise. The other fields
   * are what the four-argument constructor puts there (`u`), not the
   * original lesson's.
   */
  function CreateEditedLesson(l: Lesson, d: EditLessonDescriptor, u: Lessons.Unsupplied): (r: Lesson)
    ensures r.kind == l.kind
    ensures r.startDate == (if d.date.Some? then d.date.value else l.startDate)
    ensures r.timeRange == (if d.timeRange.Some? then d.timeRange.value else l.timeRange)
    ensures r.subject == (if d.subject.Some? then d.subject.value else l.subject)
    ensures r.homework == (if d.homework.Some? then d.homework.value else l.homework)
    ensures r.endDate == u.endDate && r.rates == u.rates && r.outstanding == u.outstanding
      && r.cancelled == u.cancelled
  {
    Lessons.Construct(l.kind,
                      if d.date.Some? then d.date.value else l.startDate,
                      if d.timeRange.Some? then d.timeRange.value else l.timeRange,
                      if d.subject.Some? then d.subject.value else l.subject,
                      if d.homework.Some? then d.homework.value else l.homework,
                      u)
  }

  /**
   * LessonEditCommand.createEditedPerson: every lesson equal to toEdit is
   * replaced by the edited lesson, and a fresh TreeSet is built.
   */
  function WithEditedLesson(p: Person, toEdit: Lesson, edited: Lesson): (r: Person)
    ensures r.details == p.details && LessonSets.Sorted(r.lessons)
    ensures forall y :: y in r.lessons ==>
      y == edited || (y in p.lessons && !Lessons.Equals(y, toEdit))
  {
    var m := LessonSets.Replace(p.lessons, toEdit, edited);
    assert forall y :: y in m ==> y == edited || (y in p.lessons && !Lessons.Equals(y, toEdit)) by {
      forall y | y in m
        ensures y == edited || (y in p.lessons && !Lessons.Equals(y, toEdit))
      {
        var k :| 0 <= k < |m| && m[k] == y;
        assert p.lessons[k] in p.lessons;
      }
    }
    Person(p.details, LessonSets.FromSeq(m))
  }

  datatype EditCommand = EditCommand(index: nat, lessonIndex: nat, descriptor: EditLessonDescriptor)

  /**
   * LessonEditCommand.executeUndoableCommand: the student index, then the
   * lesson index into the student's sorted lessons, then a clash with any
   * lesson other than the one edited; then the person is replaced.
   */
  function ExecuteEdit(persons: seq<Person>, c: EditCommand, same: (Details, Details) -> bool,
                       clash: (Lesson, Lesson) -> bool,
      u: Lessons.Unsupplied): (r: Result<seq<Person>, Failure>)
    ensures r == Err(InvalidStudentIndex) <==> c.index >= |persons|
    ensures c.index < |persons| ==>
      (r == Err(InvalidLessonIndex) <==> c.lessonIndex >= |LessonSets.FromSeq(persons[c.index].lessons)|)
    ensures r.Ok? ==> c.index < |persons| && c.lessonIndex < |LessonSets.FromSeq(persons[c.index].lessons)|
    ensures r.Ok? ==>
      var toEdit := LessonSets.FromSeq(persons[c.index].lessons)[c.lessonIndex];
      var edited := CreateEditedLesson(toEdit, c.descriptor, u);
      !HasClashingLessonIgnoring(persons, edited, toEdit, clash)
      && r == SetPerson(persons, persons[c.index], WithEditedLesson(persons[c.index], toEdit, edited), same)
  {
    if c.index >= |persons| then Err(InvalidStudentIndex)
    else
      var before := persons[c.index];
      var lessons := LessonSets.FromSeq(before.lessons);
      if c.lessonIndex >= |lessons| then Err(InvalidLessonIndex)
      else
        var toEdit := lessons[c.lessonIndex];
        var edited := CreateEditedLesson(toEdit, c.descriptor, u);
        if HasClashingLessonIgnoring(persons, edited, toEdit, clash) then Err(Clashing(MessageEditClashing))
        else SetPerson(persons, before, WithEditedLesson(before, toEdit, edited), same)
  }

  /**
   * LessonEditCommand.equals as written: the lesson index is compared with
   * itself, and the descriptor is not compared at all.
   */
  function EditCommandEqualsAsWritten(a: EditCommand, b: EditCommand): (r: bool)
    ensures r <==> a.index == b.index
  {
    a.index == b.index && a.lessonIndex == a.lessonIndex
  }

  /** LessonEditCommand.equals as intended: both indices and the descriptor are compared. */
  function EditCommandEquals(a: EditCommand, b: EditCommand): (r: bool)
    ensures r <==> a == b
  {
    a.index == b.index && a.lessonIndex == b.lessonIndex && a.descriptor == b.descriptor
  }

  // ---------------------------------------------------------------------
  // LessonDeleteCommand
  // ---------------------------------------------------------------------

  datatype DeleteCommand = DeleteCommand(index: nat, lessonIndex: nat)

  /** LessonDeleteCommand.createUpdatedLessons: drop the lesson from the list and rebuild the TreeSet. */
  function WithoutLesson(p: Person, toRemove: Lesson): (r: Person)
    ensures r.details == p.details && LessonSets.Sorted(r.lessons)
    ensures forall y :: y in r.lessons ==> y in p.lessons
  {
    LessonSets.RemoveFirstKeepsMembers(p.lessons, toRemove);
    Person(p.details, LessonSets.FromSeq(LessonSets.RemoveFirst(p.lessons, toRemove)))
  }

  /**
   * LessonDeleteCommand.executeUndoableCommand: the person and the lesson
   * are looked up through CommandUtil; then the person is replaced.
   */
  function ExecuteDelete(persons: seq<Person>, c: DeleteCommand, same: (Details, Details) -> bool)
    : (r: Result<seq<Person>, Failure>)
    ensures r == Err(InvalidStudentIndex) <==> c.index >= |persons|
    ensures c.index < |persons| ==>
      (r == Err(InvalidLessonIndex) <==> c.lessonIndex >= |persons[c.index].lessons|)
    ensures r.Ok? ==> (c.index < |persons| && c.lessonIndex < |persons[c.index].lessons|
      && r == SetPerson(persons, persons[c.index],
                        WithoutLesson(persons[c.index], persons[c.index].lessons[c.lessonIndex]), same))
  {
    match GetPerson(persons, c.index)
    case Err(e) => Err(e)
    case Ok(before) =>
      match GetLesson(before.lessons, c.lessonIndex)
      case Err(e) => Err(e)
      case Ok(toRemove) => SetPerson(persons, before, WithoutLesson(before, toRemove), same)
  }

  /** LessonEditCommand.undo and LessonDeleteCommand.undo: the person after is set back to the person before. */
  function Undo(persons: seq<Person>, before: Person, after: Person, same: (Details, Details) -> bool)
    : (r: Result<seq<Person>, Failure>)
    ensures r.Err? <==> UniquePersons.SetPerson(persons, after, before, SamePerson(same)).Err?
  {
    SetPerson(persons, after, before, same)
  }

  /** LessonDeleteCommand.equals. */
  function DeleteCommandEquals(a: DeleteCommand, b: DeleteCommand): (r: bool)
    ensures r <==> a == b
  {
    a.index == b.index && a.lessonIndex == b.lessonIndex
  }

  // ---------------------------------------------------------------------
  // Lemmas
  // ---------------------------------------------------------------------

  /** Copying a TreeSet into a new TreeSet gives the same set. */
  lemma RebuildSorted(s: seq<Lesson>)
    ensures LessonSets.Sorted(s) ==> LessonSets.FromSeq(s) == s
  {
    if LessonSets.Sorted(s) {
      LessonSets.FromSortedIsIdentity(s);
    }
  }

  /**
   * In a list without duplicates, replacing the k-th person by one with
   * the same details succeeds and changes exactly position k.
   */
  lemma SetPersonInPlace(persons: seq<Person>, k: int, edited: Person, same: (Details, Details) -> bool)
    requires Unique(persons, same) && Reflexive(same)
    requires 0 <= k < |persons| && edited.details == persons[k].details
    ensures SetPerson(persons, persons[k], edited, same) == Ok(persons[k := edited])
  {
    var sp := SamePerson(same);
    assert forall j :: 0 <= j < k ==> persons[j] != persons[k] by {
      forall j | 0 <= j < k
        ensures persons[j] != persons[k]
      {
        assert !sp(persons[j], persons[k]);
        assert sp(persons[k], persons[k]);
      }
    }
    assert UniquePersons.IndexOf(persons, persons[k]) == k;
    assert sp(persons[k], edited);
  }

  /** Setting a person back after such a replacement restores the list exactly. */
  lemma RestoreUndoes(persons: seq<Person>, k: int, edited: Person, same: (Details, Details) -> bool)
    requires Unique(persons, same) && Reflexive(same)
    requires 0 <= k < |persons| && edited.details == persons[k].details
    ensures Unique(persons[k := edited], same)
    ensures Undo(persons[k := edited], persons[k], edited, same) == Ok(persons)
  {
    var after := persons[k := edited];
    var sp := SamePerson(same);
    assert forall a, b :: 0 <= a < b < |after| ==> sp(after[a], after[b]) == sp(persons[a], persons[b]);
    SetPersonInPlace(after, k, persons[k], same);
    assert after[k := persons[k]] == persons;
  }

  /**
   * Adding at a valid index without a clash replaces exactly that person
   * by one whose lessons gain the new lesson (nothing changes if its slot
   * is taken), and undoing restores the list.
   */
  lemma AddAtIndex(persons: seq<Person>, c: AddCommand, same: (Details, Details) -> bool,
                   clash: (Lesson, Lesson) -> bool)
    requires Unique(persons, same) && Reflexive(same) && AllPersonsWf(persons)
    requires c.index < |persons| && !HasClashingLesson(persons, c.toAdd, clash)
    ensures ExecuteAdd(persons, c, same, clash) == Ok(persons[c.index := WithAddedLesson(persons[c.index], c.toAdd)])
    ensures var p := persons[c.index];
      LessonSets.HasSlot(p.lessons, c.toAdd) ==> WithAddedLesson(p, c.toAdd) == p
    ensures var p := persons[c.index];
      !LessonSets.HasSlot(p.lessons, c.toAdd) ==>
        forall y :: y in WithAddedLesson(p, c.toAdd).lessons <==> y in p.lessons || y == c.toAdd
  {
    SetPersonInPlace(persons, c.index, WithAddedLesson(persons[c.index], c.toAdd), same);
  }

  /**
   * Editing at valid indices without a clash replaces exactly that person;
   * the person's new lessons hold the edited lesson's slot and every other
   * lesson's slot, and nothing besides the edited and the other lessons.
   */
  lemma EditAtIndexes(persons: seq<Person>, c: EditCommand, same: (Details, Details) -> bool,
                      clash: (Lesson, Lesson) -> bool,
      u: Lessons.Unsupplied)
    requires Unique(persons, same) && Reflexive(same) && AllPersonsWf(persons)
    requires c.index < |persons| && c.lessonIndex < |persons[c.index].lessons|
    requires var s := persons[c.index].lessons;
      !HasClashingLessonIgnoring(persons, CreateEditedLesson(s[c.lessonIndex], c.descriptor, u), s[c.lessonIndex], clash)
    ensures var s := persons[c.index].lessons;
      var edited := CreateEditedLesson(s[c.lessonIndex], c.descriptor, u);
      var after := WithEditedLesson(persons[c.index], s[c.lessonIndex], edited);
      ExecuteEdit(persons, c, same, clash, u) == Ok(persons[c.index := after])
      && LessonSets.HasSlot(after.lessons, edited)
      && (forall j :: 0 <= j < |s| && j != c.lessonIndex ==> LessonSets.HasSlot(after.lessons, s[j]))
      && (forall y :: y in after.lessons ==>
            y == edited || exists j :: 0 <= j < |s| && j != c.lessonIndex && y == s[j])
  {
    var p := persons[c.index];
    var s := p.lessons;
    var i := c.lessonIndex;
    var edited := CreateEditedLesson(s[i], c.descriptor, u);
    EditExecutes(persons, c, same, clash, u);
    var r := LessonSets.FromSeq(LessonSets.Replace(s, s[i], edited));
    assert WithEditedLesson(p, s[i], edited).lessons == r;
    assert PersonWf(p);
    LessonSets.EditAtIndex(s, i, edited);
    assert LessonSets.HasSlot(r, edited);
    assert forall j :: 0 <= j < |s| && j != i ==> LessonSets.HasSlot(r, s[j]);
    assert forall y :: y in r ==> y == edited || exists j :: 0 <= j < |s| && j != i && y == s[j];
  }

  /** The edit at valid indices without a clash succeeds in place. */
  lemma EditExecutes(persons: seq<Person>, c: EditCommand, same: (Details, Details) -> bool,
                     clash: (Lesson, Lesson) -> bool,
      u: Lessons.Unsupplied)
    requires Unique(persons, same) && Reflexive(same)
    requires c.index < |persons| && LessonSets.Sorted(persons[c.index].lessons)
    requires c.lessonIndex < |persons[c.index].lessons|
    requires var s := persons[c.index].lessons;
      !HasClashingLessonIgnoring(persons, CreateEditedLesson(s[c.lessonIndex], c.descriptor, u), s[c.lessonIndex], clash)
    ensures var s := persons[c.index].lessons;
      ExecuteEdit(persons, c, same, clash, u)
        == Ok(persons[c.index := WithEditedLesson(persons[c.index], s[c.lessonIndex],
                                                  CreateEditedLesson(s[c.lessonIndex], c.descriptor, u))])
  {
    var p := persons[c.index];
    var toEdit := p.lessons[c.lessonIndex];
    var np := WithEditedLesson(p, toEdit, CreateEditedLesson(toEdit, c.descriptor, u));
    EditReachesSet(persons, c, same, clash, u);
    SetPersonInPlace(persons, c.index, np, same);
  }

  /** Past the index and clash checks, the edit is the replacement of the person. */
  lemma EditReachesSet(persons: seq<Person>, c: EditCommand, same: (Details, Details) -> bool,
                       clash: (Lesson, Lesson) -> bool,
      u: Lessons.Unsupplied)
    requires c.index < |persons| && LessonSets.Sorted(persons[c.index].lessons)
    requires c.lessonIndex < |persons[c.index].lessons|
    requires var s := persons[c.index].lessons;
      !HasClashingLessonIgnoring(persons, CreateEditedLesson(s[c.lessonIndex], c.descriptor, u), s[c.lessonIndex], clash)
    ensures var p := persons[c.index];
      var toEdit := p.lessons[c.lessonIndex];
      ExecuteEdit(persons, c, same, clash, u)
        == SetPerson(persons, p, WithEditedLesson(p, toEdit, CreateEditedLesson(toEdit, c.descriptor, u)), same)
  {
    LessonSets.FromSortedIsIdentity(persons[c.index].lessons);
  }

  /**
   * Deleting at valid indices replaces exactly that person by one whose
   * lessons are the old ones minus the lesson at the index; undoing
   * restores the list.
   */
  lemma DeleteAtIndexes(persons: seq<Person>, c: DeleteCommand, same: (Details, Details) -> bool)
    requires Unique(persons, same) && Reflexive(same) && AllPersonsWf(persons)
    requires c.index < |persons| && c.lessonIndex < |persons[c.index].lessons|
    ensures var p := persons[c.index];
      var i := c.lessonIndex;
      var after := Person(p.details, p.lessons[..i] + p.lessons[i + 1..]);
      ExecuteDelete(persons, c, same) == Ok(persons[c.index := after])
      && |after.lessons| == |p.lessons| - 1
      && Undo(persons[c.index := after], p, after, same) == Ok(persons)
  {
    var p := persons[c.index];
    var i := c.lessonIndex;
    assert PersonWf(p);
    var after := WithoutLessonAt(p, i);
    SetPersonInPlace(persons, c.index, after, same);
    RestoreUndoes(persons, c.index, after, same);
  }

  /** Removing the lesson found at an index drops exactly that position. */
  lemma WithoutLessonAt(p: Person, i: int) returns (after: Person)
    requires PersonWf(p) && 0 <= i < |p.lessons|
    ensures after == Person(p.details, p.lessons[..i] + p.lessons[i + 1..])
    ensures WithoutLesson(p, p.lessons[i]) == after
    ensures |after.lessons| == |p.lessons| - 1
  {
    LessonSets.RemoveAtIndex(p.lessons, i);
    after := Person(p.details, p.lessons[..i] + p.lessons[i + 1..]);
  }

  /** Undoing an edit restores the list. */
  lemma EditUndo(persons: seq<Person>, c: EditCommand, same: (Details, Details) -> bool,
                 clash: (Lesson, Lesson) -> bool,
      u: Lessons.Unsupplied)
    requires Unique(persons, same) && Reflexive(same) && AllPersonsWf(persons)
    requires c.index < |persons| && c.lessonIndex < |persons[c.index].lessons|
    ensures var s := persons[c.index].lessons;
      var edited := CreateEditedLesson(s[c.lessonIndex], c.descriptor, u);
      var after := WithEditedLesson(persons[c.index], s[c.lessonIndex], edited);
      Undo(persons[c.index := after], persons[c.index], after, same) == Ok(persons)
  {
    var s := persons[c.index].lessons;
    var edited := CreateEditedLesson(s[c.lessonIndex], c.descriptor, u);
    RestoreUndoes(persons, c.index, WithEditedLesson(persons[c.index], s[c.lessonIndex], edited), same);
  }

  /**
   * An edit with no field given rebuilds a lesson equal to the original
   * under Lesson.equals, with the constructor's end date, rate, outstanding
   * fee and cancelled dates in place of the original's.
   */
  lemma EmptyEditIsIdentity(l: Lesson, u: Lessons.Unsupplied)
    ensures Lessons.Equals(CreateEditedLesson(l, NoEdits, u), l)
    ensures CreateEditedLesson(l, NoEdits, u)
      == l.(endDate := u.endDate, rates := u.rates, outstanding := u.outstanding, cancelled := u.cancelled)
    ensures !IsAnyFieldEdited(NoEdits)
  {
  }

  /** The edited lesson equals the original exactly when each given field matches it. */
  lemma EditedEqualsOriginal(l: Lesson, d: EditLessonDescriptor, u: Lessons.Unsupplied)
    ensures Lessons.Equals(CreateEditedLesson(l, d, u), l) <==>
      (d.date.Some? ==> Dates.Equals(d.date.value, l.startDate))
      && (d.timeRange.Some? ==> d.timeRange.value.start == l.timeRange.start
                                && d.timeRange.value.end == l.timeRange.end)
      && (d.subject.Some? ==> d.subject.value == l.subject)
      && (d.homework.Some? ==> d.homework.value == l.homework)
  {
  }

  /**
   * The edited lesson does not depend on the original's end date, rate,
   * outstanding fee or cancelled dates.
   */
  lemma EditForgetsFees(l: Lesson, d: EditLessonDescriptor, u: Lessons.Unsupplied, endDate: Dates.Date,
                        rates: string, outstanding: nat, cancelled: seq<Dates.Date>)
    ensures var other := l.(endDate := endDate, rates := rates, outstanding := outstanding, cancelled := cancelled);
      CreateEditedLesson(l, d, u) == CreateEditedLesson(other, d, u)
  {
  }

  /** A well-formed descriptor applied to a constructed lesson gives a constructed lesson. */
  lemma EditedLessonWf(l: Lesson, d: EditLessonDescriptor, u: Lessons.Unsupplied)
    requires Lessons.Wf(l) && DescriptorWf(d) && Lessons.UnsuppliedWf(u)
    ensures Lessons.Wf(CreateEditedLesson(l, d, u))
  {
  }

  /** Ignoring a lesson can only remove clashes, and ignoring an unstored lesson removes none. */
  lemma IgnoringNarrowsClashes(persons: seq<Person>, toCheck: Lesson, toIgnore: Lesson,
                               clash: (Lesson, Lesson) -> bool)
    ensures HasClashingLessonIgnoring(persons, toCheck, toIgnore, clash) ==> HasClashingLesson(persons, toCheck, clash)
    ensures (forall i, j :: 0 <= i < |persons| && 0 <= j < |persons[i].lessons| ==>
               !Lessons.Equals(persons[i].lessons[j], toIgnore)) ==>
      (HasClashingLessonIgnoring(persons, toCheck, toIgnore, clash) <==> HasClashingLesson(persons, toCheck, clash))
  {
  }

  /** Equality of add commands is an equivalence relation. */
  lemma AddCommandEqualsIsEquivalence(a: AddCommand, b: AddCommand, c: AddCommand)
    ensures AddCommandEquals(a, a)
    ensures AddCommandEquals(a, b) ==> AddCommandEquals(b, a)
    ensures AddCommandEquals(a, b) && AddCommandEquals(b, c) ==> AddCommandEquals(a, c)
  {
    Lessons.EqualsIsEquivalence(a.toAdd, b.toAdd, c.toAdd);
  }

  /**
   * As written, two edit commands that pick different lessons of the same
   * student are equal, although one of them fails on its lesson index and
   * the other does not; the intended equality tells them apart.
   */
  lemma EditEqualsIgnoresLessonIndex(d: Details, l: Lesson, e: EditLessonDescriptor,
                                     same: (Details, Details) -> bool, clash: (Lesson, Lesson) -> bool,
      u: Lessons.Unsupplied)
    ensures var a := EditCommand(0, 0, e);
      var b := EditCommand(0, 1, e);
      var persons := [Person(d, [l])];
      EditCommandEqualsAsWritten(a, b) && !EditCommandEquals(a, b)
      && ExecuteEdit(persons, a, same, clash, u) != Err(InvalidLessonIndex)
      && ExecuteEdit(persons, b, same, clash, u) == Err(InvalidLessonIndex)
  {
    assert LessonSets.FromSeq([l]) == [l];
  }

  /**
   * The intended equality refines the one as written: commands equal under
   * it are equal as written, and commands that differ only in their lesson
   * index are equal as written but told apart by it.
   */
  lemma EqualsRefinesAsWritten(a: EditCommand, b: EditCommand)
    ensures EditCommandEquals(a, b) ==> EditCommandEqualsAsWritten(a, b)
    ensures a.index == b.index && a.descriptor == b.descriptor && a.lessonIndex != b.lessonIndex ==>
      EditCommandEqualsAsWritten(a, b) && !EditCommandEquals(a, b)
  {
  }
}
