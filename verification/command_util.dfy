/**
 * CommandUtil and the failures a lesson command reports. A command index is
 * the zero-based position the user's one-based index denotes.
 */
module CommandUtil {
  import opened Wrappers
  import UniquePersons

  /**
   * Why a command failed: the three displayed-index messages, a clash
   * message, or an exception from the person list.
   */
  datatype Failure =
    | InvalidPersonIndex
    | InvalidStudentIndex
    | InvalidLessonIndex
    | Clashing(message: string)
    | ListFailure(error: UniquePersons.ListError)

  /** getPerson: the person at the index, or the invalid-student-index error. */
  function GetPerson<T>(list: seq<T>, index: nat): (r: Result<T, Failure>)
    ensures r.Err? <==> index >= |list|
    ensures r.Err? ==> r.error == InvalidStudentIndex
    ensures r.Ok? ==> r.value == list[index]
  {
    if index >= |list| then Err(InvalidStudentIndex) else Ok(list[index])
  }

  /** getLesson: the lesson at the index, or the invalid-lesson-index error. */
  function GetLesson<T>(list: seq<T>, index: nat): (r: Result<T, Failure>)
    ensures r.Err? <==> index >= |list|
    ensures r.Err? ==> r.error == InvalidLessonIndex
    ensures r.Ok? ==> r.value == list[index]
  {
    if index >= |list| then Err(InvalidLessonIndex) else Ok(list[index])
  }
}
