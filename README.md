# Course lifecycle of the rock-lms course service

This project models `CourseService`, the service of the rock-lms backend
that creates, reads, edits, publishes, archives and deletes course records.
A course has a title, a description, a duration, a status (`DRAFT`,
`PUBLISHED` or `ARCHIVED`) and a publication time. The service enforces a
small lifecycle:

- an update sets only the fields the caller supplies, and is refused for an
  archived course;
- publication needs a non-blank title, a duration of at least one and a
  course that is not archived, checked in that order;
- archiving has no precondition beyond the course existing;
- deleting is silent when the course is absent.

The model has four modules:

- `JavaText` (`java_text.dfy`) holds Java's `String.trim()`. A title is
  blank when it trims to the empty string, and `TrimIsEmptyIffBlank` proves
  this means every character is at most U+0020.
- `Courses` (`courses.dfy`) holds the course record and the outcome type.
  `Ok(course)` stands for a saved course, `NotFound` for the "Course not
  found" `RuntimeException`, and `InvalidState` for an
  `IllegalStateException`. Each operation is a function from the
  repository's contents (a `map<int, Course>`) to an outcome and the new
  contents. The private helpers become the predicate `CanBeEdited`, the
  function `PublicationRejection` (`validateCourseForPublication`) and the
  function `Published` (`publish`). `Op`, `Step` and `Run` replay any
  sequence of operations.
- `Lifecycle` (`lifecycle.dfy`) proves what holds over any such sequence.
  An archived course stays exactly as it is until it is deleted. A course
  never moves back in its lifecycle and never loses its publication time.
  The publication time stays consistent with the status.
- `Service` (`service.dfy`) holds the class `CourseService`. Its field
  `store` is the repository. Each method checks its guards, changes a local
  copy of the course field by field, as the setters do, and writes it back.
  Each mutating method's postcondition equates its outcome and new store
  with the matching function in `Courses`, and it keeps `PublicationTimesConsistent()` (every stored course's publication time agrees with its status) whenever it held before.

Inputs that the service takes from its environment are parameters:

- The clock (`LocalDateTime.now()`) is the argument `now` of
  `PublishCourse`.
- The id that `save` assigns to a new course is chosen freely among the ids
  not in use. `FreshIdExists` proves that such an id always exists.
- The entity constructor is not part of this model. It is assumed to store
  the three fields it is given, with status `DRAFT` and no publication time
  (`Courses.NewCourse`).

## Model

| member | source | states |
|---|---|---|
| `JavaText.TrimStart` | backend/src/main/java/com/jbs/rocklms/service/CourseService.java:67 | the result is a suffix of the input; every character dropped is at most U+0020; a non-empty result starts with a character above U+0020 |
| `JavaText.TrimEnd` | backend/src/main/java/com/jbs/rocklms/service/CourseService.java:67 | the result is a prefix of the input; every character dropped is at most U+0020; a non-empty result ends with a character above U+0020 |
| `JavaText.Trim` | backend/src/main/java/com/jbs/rocklms/service/CourseService.java:67 | `trim()` returns a contiguous slice of its input, with only characters at most U+0020 before and after it; a non-empty result starts and ends with a character above U+0020 |
| `JavaText.TrimIsEmptyIffBlank` | backend/src/main/java/com/jbs/rocklms/service/CourseService.java:67 | `title.trim().isEmpty()` holds exactly when every character of the title is at most U+0020 |
| `Courses.PublicationRejection` | backend/src/main/java/com/jbs/rocklms/service/CourseService.java:66-76 | the checks run in order: a missing or blank title (`HasTitle`) is reported first, then a missing or non-positive duration (`HasDuration`, line 70), then an archived status; publication passes exactly when all three hold |
| `Courses.HasTitle` | backend/src/main/java/com/jbs/rocklms/service/CourseService.java:67 | the first publication condition: a title is present and `title.trim()` is not empty |
| `Courses.CanBeEdited` | backend/src/main/java/com/jbs/rocklms/service/CourseService.java:91-93 | a course may be edited exactly when it is DRAFT or PUBLISHED, that is, when it is not ARCHIVED |
| `Courses.Published` | backend/src/main/java/com/jbs/rocklms/service/CourseService.java:86-89 | `publish` sets the status to PUBLISHED and the publication time to `now`, and leaves title, description and duration unchanged |
| `Courses.CreateStep` | backend/src/main/java/com/jbs/rocklms/service/CourseService.java:32-35 | creation always succeeds; the new course has the given fields, status DRAFT and no publication time; it is stored under the new id and every other course is unchanged |
| `Courses.UpdateStep` | backend/src/main/java/com/jbs/rocklms/service/CourseService.java:37-50 | NotFound exactly when the id is absent; InvalidState exactly when the course is ARCHIVED, whatever the arguments; on failure the store is unchanged; on success each supplied field replaces the old one and each absent field is kept (the helper `Choose`, lines 45-47), status and publication time are kept, and every other course is unchanged |
| `Courses.PublishStep` | backend/src/main/java/com/jbs/rocklms/service/CourseService.java:56-64 | NotFound exactly when the id is absent; InvalidState exactly when the title is missing or blank, the duration is missing or below one, or the course is ARCHIVED; on failure the store is unchanged; on success the course becomes PUBLISHED at `now` with its other fields unchanged, and every other course is unchanged |
| `Courses.ArchiveStep` | backend/src/main/java/com/jbs/rocklms/service/CourseService.java:78-84 | archiving never reports InvalidState; NotFound exactly when the id is absent; otherwise the course becomes ARCHIVED from any status, with all its other fields unchanged, and every other course is unchanged |
| `Courses.DeleteStep` | backend/src/main/java/com/jbs/rocklms/service/CourseService.java:52-54 | the id is no longer stored, whether or not it was before, and every other course is unchanged |
| `Lifecycle.StepPreservesConsistency` | backend/src/main/java/com/jbs/rocklms/service/CourseService.java:32-89 | every operation keeps each stored course consistent: a DRAFT has no publication time and a PUBLISHED course has one |
| `Lifecycle.RunPreservesConsistency` | backend/src/main/java/com/jbs/rocklms/service/CourseService.java:32-89 | any sequence of operations keeps the repository consistent |
| `Lifecycle.StepKeepsArchived` | backend/src/main/java/com/jbs/rocklms/service/CourseService.java:41-43 | no single operation other than deleting it changes an archived course |
| `Lifecycle.ArchivedIsFinal` | backend/src/main/java/com/jbs/rocklms/service/CourseService.java:73-75 | after any sequence of operations that does not delete it, an archived course is stored exactly as it was: never edited, published or moved out of ARCHIVED |
| `Lifecycle.StepProgresses` | backend/src/main/java/com/jbs/rocklms/service/CourseService.java:82-88 | one operation moves a stored course only forward (DRAFT, then PUBLISHED, then ARCHIVED) and never clears its publication time |
| `Lifecycle.RunProgresses` | backend/src/main/java/com/jbs/rocklms/service/CourseService.java:82-88 | over any sequence of operations that does not delete it, a course never returns to an earlier status and never loses its publication time |
| `Lifecycle.ArchiveIsIdempotent` | backend/src/main/java/com/jbs/rocklms/service/CourseService.java:78-84 | archiving twice gives the same outcome and store as archiving once |
| `Lifecycle.EmptyUpdateIsNoOp` | backend/src/main/java/com/jbs/rocklms/service/CourseService.java:45-49 | an update of an editable course that supplies no field succeeds and leaves the store as it was |
| `Lifecycle.RepublishRefreshesTime` | backend/src/main/java/com/jbs/rocklms/service/CourseService.java:60-63 | a PUBLISHED course that still passes the checks can be published again, which changes only its publication time |
| `Lifecycle.PublishArchiveEditScenario` | backend/src/main/java/com/jbs/rocklms/service/CourseService.java:32-93 | creating "Intro" with duration 30, publishing and archiving it succeed, and retitling it afterwards fails with InvalidState and changes nothing |
| `Lifecycle.BlankTitleScenario` | backend/src/main/java/com/jbs/rocklms/service/CourseService.java:66-69 | a course created with an empty title and no duration is refused for its title first, and cannot be published |
| `Service.FreshIdExists` | backend/src/main/java/com/jbs/rocklms/service/CourseService.java:34 | whatever ids are in use, there is a free id above all of them, so `save` can always assign one |
| `Service.CourseService.constructor` | backend/src/main/java/com/jbs/rocklms/service/CourseService.java:20-22 | the service works on the repository it is given |
| `Service.CourseService.GetAllCourses` | backend/src/main/java/com/jbs/rocklms/service/CourseService.java:24-26 | returns exactly the stored courses with the given status, or all of them when no status is given |
| `Service.CourseService.GetCourseById` | backend/src/main/java/com/jbs/rocklms/service/CourseService.java:28-30 | returns the stored course when the id is present and None otherwise |
| `Service.CourseService.CreateCourse` | backend/src/main/java/com/jbs/rocklms/service/CourseService.java:32-35 | saves the new course under an id not in use before, as `CreateStep` describes, and keeps `PublicationTimesConsistent()` whenever it held before |
| `Service.CourseService.UpdateCourse` | backend/src/main/java/com/jbs/rocklms/service/CourseService.java:37-50 | outcome and new store are those of `UpdateStep`; keeps `PublicationTimesConsistent()` whenever it held before |
| `Service.CourseService.DeleteCourse` | backend/src/main/java/com/jbs/rocklms/service/CourseService.java:52-54 | the new store is that of `DeleteStep`; keeps `PublicationTimesConsistent()` whenever it held before |
| `Service.CourseService.PublishCourse` | backend/src/main/java/com/jbs/rocklms/service/CourseService.java:56-64 | outcome and new store are those of `PublishStep`; keeps `PublicationTimesConsistent()` whenever it held before |
| `Service.CourseService.ArchiveCourse` | backend/src/main/java/com/jbs/rocklms/service/CourseService.java:78-84 | outcome and new store are those of `ArchiveStep`; keeps `PublicationTimesConsistent()` whenever it held before |

## Left out

- Dependency injection and `@Transactional`: each method is one atomic step on `store`. Rollback, isolation and concurrent callers are not modelled.
- The repository implementation is not part of this model. `findAllWithOptionalStatus` is assumed to return the courses with the given status, or all courses when the status is null. `GetAllCourses` returns them as a map from id to course, so the order of the list is not modelled.
- `deleteById` on an absent id is assumed to do nothing and raise no error.
- The `Course` entity class is not part of this model. `NewCourse` states the assumed behaviour of its constructor. Entities are values here, so there is no object identity or aliasing. A `Course` value carries no id; its id is the key it is stored under.
- `LocalDateTime` is a natural number, and `LocalDateTime.now()` is the parameter `now`. Only the fact that publication records `now` is modelled, not any ordering of clock readings.
- Exception classes and messages are reduced to `NotFound` and `InvalidState`. `PublicationRejection` keeps which of the three publication checks failed, but not the message text.
- A null `id` argument is not modelled; ids are plain integers.
- `Integer` duration is an unbounded `int`. The service only compares it with 1, so the 32-bit range does not change any outcome.
- Java strings are sequences of UTF-16 code units; here they are `seq<char>`. `trim()` only looks at characters up to U+0020, so this does not change whether a title is blank.
