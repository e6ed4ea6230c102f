/**
 * Course records and the lifecycle rules of the course service, stated on
 * values: each service operation is a function from the repository's
 * contents (course id to course) to an outcome and the new contents.
 */
module Courses {
  import opened JavaText

  datatype Option<+T> = None | Some(value: T)

  /** Course.CourseStatus. */
  datatype Status = DRAFT | PUBLISHED | ARCHIVED

  /**
   * A course as the repository stores it, without its id (the id is the
   * key under which it is stored). A Java `null` is `None`; the
   * publication timestamp is a natural number.
   */
  datatype Course = Course(
    title: Option<string>,
    description: Option<string>,
    duration: Option<int>,
    status: Status,
    publishedAt: Option<nat>)

  /**
   * What an operation reports: the saved course, the "Course not found"
   * RuntimeException, or an IllegalStateException.
   */
  datatype Outcome = Ok(course: Course) | NotFound | InvalidState

  /** The three reasons, in the order they are checked, for refusing publication. */
  datatype Rejection = TitleRequired | DurationRequired | ArchivedCourse

  /** An operation's outcome together with the repository's contents afterwards. */
  datatype Transition = Transition(outcome: Outcome, after: map<int, Course>)

  /** The course has a title that is not blank, the first condition of publication. */
  predicate HasTitle(c: Course)
    ensures HasTitle(c) <==> c.title.Some? && Trim(c.title.value) != []
  {
    TrimIsEmptyIffBlank(if c.title.Some? then c.title.value else "");
    c.title.Some? && !IsBlank(c.title.value)
  }

  /** The course has a duration of at least one. */
  predicate HasDuration(c: Course) {
    c.duration.Some? && c.duration.value >= 1
  }

  /** Only a course that is not archived may be edited. */
  predicate CanBeEdited(c: Course)
    ensures CanBeEdited(c) <==> c.status == DRAFT || c.status == PUBLISHED
  {
    c.status != ARCHIVED
  }

  /**
   * The entity constructor `new Course(title, description, duration)`. The
   * entity class is not part of this model; this is the assumed behaviour:
   * the three fields as given, status DRAFT and no publication time.
   */
  function NewCourse(title: Option<string>, description: Option<string>, duration: Option<int>): Course {
    Course(title, description, duration, DRAFT, None)
  }

  /**
   * The checks made before publishing, in their order; None when all pass.
   * A title counts as missing when `title.trim().isEmpty()`.
   */
  function PublicationRejection(c: Course): (r: Option<Rejection>)
    ensures r == Some(TitleRequired) <==> !HasTitle(c)
    ensures r == Some(DurationRequired) <==> HasTitle(c) && !HasDuration(c)
    ensures r == Some(ArchivedCourse) <==> HasTitle(c) && HasDuration(c) && c.status == ARCHIVED
    ensures r == None <==> HasTitle(c) && HasDuration(c) && c.status != ARCHIVED
  {
    if c.title.None? || Trim(c.title.value) == [] then Some(TitleRequired)
    else if c.duration.None? || c.duration.value < 1 then Some(DurationRequired)
    else if c.status == ARCHIVED then Some(ArchivedCourse)
    else None
  }

  /** The course after `publish`: marked PUBLISHED at time `now`. */
  function Published(c: Course, now: nat): (p: Course)
    ensures p.status == PUBLISHED && p.publishedAt == Some(now)
    ensures p.title == c.title && p.description == c.description && p.duration == c.duration
  {
    c.(status := PUBLISHED, publishedAt := Some(now))
  }

  /** A supplied (non-null) value replaces the current one; an absent one keeps it. */
  function Choose<T>(supplied: Option<T>, current: Option<T>): Option<T> {
    if supplied.Some? then supplied else current
  }

  /** createCourse, saving the new course under `id`, the fresh id the repository assigns. */
  function CreateStep(store: map<int, Course>, id: int, title: Option<string>, description: Option<string>,
                      duration: Option<int>): (t: Transition)
    requires id !in store
    ensures t.outcome.Ok?
    ensures t.outcome.course.title == title && t.outcome.course.description == description
    ensures t.outcome.course.duration == duration
    ensures t.outcome.course.status == DRAFT && t.outcome.course.publishedAt == None
    ensures t.after.Keys == store.Keys + {id} && t.after[id] == t.outcome.course
    ensures forall k :: k in store ==> t.after[k] == store[k]
  {
    var c := NewCourse(title, description, duration);
    Transition(Ok(c), store[id := c])
  }

  /** updateCourse: a partial update of a course that is not archived. */
  function UpdateStep(store: map<int, Course>, id: int, title: Option<string>, description: Option<string>,
                      duration: Option<int>): (t: Transition)
    ensures t.outcome.NotFound? <==> id !in store
    ensures t.outcome.InvalidState? <==> id in store && store[id].status == ARCHIVED
    ensures !t.outcome.Ok? ==> t.after == store
    ensures t.outcome.Ok? ==>
      var (prev, next) := (store[id], t.outcome.course);
      && (title.Some? ==> next.title == title) && (title.None? ==> next.title == prev.title)
      && (description.Some? ==> next.description == description)
      && (description.None? ==> next.description == prev.description)
      && (duration.Some? ==> next.duration == duration) && (duration.None? ==> next.duration == prev.duration)
      && next.status == prev.status && next.publishedAt == prev.publishedAt
    ensures t.outcome.Ok? ==> t.after.Keys == store.Keys && t.after[id] == t.outcome.course
    ensures forall k :: k in store && k != id ==> k in t.after && t.after[k] == store[k]
  {
    if id !in store then Transition(NotFound, store)
    else
      var c := store[id];
      if !CanBeEdited(c) then Transition(InvalidState, store)
      else
        var e := c.(title := Choose(title, c.title),
                    description := Choose(description, c.description),
                    duration := Choose(duration, c.duration));
        Transition(Ok(e), store[id := e])
  }

  /** publishCourse at time `now`. */
  function PublishStep(store: map<int, Course>, id: int, now: nat): (t: Transition)
    ensures t.outcome.NotFound? <==> id !in store
    ensures t.outcome.InvalidState? <==>
      id in store && !(HasTitle(store[id]) && HasDuration(store[id]) && store[id].status != ARCHIVED)
    ensures !t.outcome.Ok? ==> t.after == store
    ensures t.outcome.Ok? ==>
      var (prev, next) := (store[id], t.outcome.course);
      && next.status == PUBLISHED && next.publishedAt == Some(now)
      && next.title == prev.title && next.description == prev.description && next.duration == prev.duration
    ensures t.outcome.Ok? ==> t.after.Keys == store.Keys && t.after[id] == t.outcome.course
    ensures forall k :: k in store && k != id ==> k in t.after && t.after[k] == store[k]
  {
    if id !in store then Transition(NotFound, store)
    else
      var c := store[id];
      if PublicationRejection(c).Some? then Transition(InvalidState, store)
      else
        var p := Published(c, now);
        Transition(Ok(p), store[id := p])
  }

  /** archiveCourse: no check besides the course existing. */
  function ArchiveStep(store: map<int, Course>, id: int): (t: Transition)
    ensures t.outcome.NotFound? <==> id !in store
    ensures !t.outcome.InvalidState?
    ensures t.outcome.NotFound? ==> t.after == store
    ensures t.outcome.Ok? ==>
      var (prev, next) := (store[id], t.outcome.course);
      && next.status == ARCHIVED && next.publishedAt == prev.publishedAt
      && next.title == prev.title && next.description == prev.description && next.duration == prev.duration
    ensures t.outcome.Ok? ==> t.after.Keys == store.Keys && t.after[id] == t.outcome.course
    ensures forall k :: k in store && k != id ==> k in t.after && t.after[k] == store[k]
  {
    if id !in store then Transition(NotFound, store)
    else
      var a := store[id].(status := ARCHIVED);
      Transition(Ok(a), store[id := a])
  }

  /** deleteCourse: removes `id` when present and is silent otherwise. */
  function DeleteStep(store: map<int, Course>, id: int): (after: map<int, Course>)
    ensures after.Keys == store.Keys - {id}
    ensures forall k :: k in after ==> after[k] == store[k]
  {
    store - {id}
  }

  /** The operations that change the repository. */
  datatype Op =
    | Create(id: int, title: Option<string>, description: Option<string>, duration: Option<int>)
    | Update(id: int, title: Option<string>, description: Option<string>, duration: Option<int>)
    | Publish(id: int, now: nat)
    | Archive(id: int)
    | Delete(id: int)

  /** The repository assigns a fresh id to every course it creates. */
  predicate Enabled(store: map<int, Course>, op: Op) {
    op.Create? ==> op.id !in store
  }

  /** The contents of the repository after one operation. */
  function Step(store: map<int, Course>, op: Op): map<int, Course>
    requires Enabled(store, op)
  {
    match op
    case Create(id, title, description, duration) => CreateStep(store, id, title, description, duration).after
    case Update(id, title, description, duration) => UpdateStep(store, id, title, description, duration).after
    case Publish(id, now) => PublishStep(store, id, now).after
    case Archive(id) => ArchiveStep(store, id).after
    case Delete(id) => DeleteStep(store, id)
  }

  /** Every operation of `ops`, run in turn from `store`, is enabled. */
  predicate Feasible(store: map<int, Course>, ops: seq<Op>)
    decreases |ops|
  {
    ops == [] || (Enabled(store, ops[0]) && Feasible(Step(store, ops[0]), ops[1..]))
  }

  /** The contents of the repository after the operations `ops`, in order. */
  function Run(store: map<int, Course>, ops: seq<Op>): map<int, Course>
    requires Feasible(store, ops)
    decreases |ops|
  {
    if ops == [] then store else Run(Step(store, ops[0]), ops[1..])
  }

  predicate Deletes(op: Op, id: int) {
    op.Delete? && op.id == id
  }

  /**
   * The publication time is consistent with the status: a draft was never
   * published and a published course has a publication time.
   */
  predicate Consistent(c: Course) {
    (c.status == DRAFT ==> c.publishedAt.None?) && (c.status == PUBLISHED ==> c.publishedAt.Some?)
  }

  predicate StoreConsistent(store: map<int, Course>) {
    forall k :: k in store ==> Consistent(store[k])
  }

  /** The order in which a course moves through its lifecycle. */
  function Rank(s: Status): nat {
    match s
    case DRAFT => 0
    case PUBLISHED => 1
    case ARCHIVED => 2
  }
}
