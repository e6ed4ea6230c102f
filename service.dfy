/**
 * The course service: each public operation looks a course up in the
 * repository, checks the lifecycle rules, changes the course and saves it.
 * The repository is the map `store` from course id to course; every method
 * is one atomic step on it.
 */
module Service {
  import opened Courses

  /** However many ids are taken, there is a free one above all of them. */
  lemma {:induction false} FreshIdExists(ids: set<int>)
    ensures exists id :: id !in ids && forall k :: k in ids ==> k < id
    decreases ids
  {
    if ids == {} {
      assert 0 !in ids;
    } else {
      // a non-empty set has an element: this supplies the witness for the `:|` below
      if forall y :: y !in ids {
        assert false;
      }
      var x :| x in ids;
      var rest := ids - {x};
      FreshIdExists(rest);
      var b :| b !in rest && forall k :: k in rest ==> k < b;
      var m := if b > x then b else x + 1;
      forall k | k in ids ensures k < m {
        if k != x { assert k in rest; }
      }
      assert m !in ids;
    }
  }

  class CourseService {
    /** The contents of the course repository. */
    var store: map<int, Course>

    /** Every stored course has a publication time consistent with its status. */
    ghost predicate PublicationTimesConsistent()
      reads this
    {
      StoreConsistent(store)
    }

    /** A service over a repository holding `repository`. */
    constructor (repository: map<int, Course>)
      ensures store == repository
    {
      store := repository;
    }

    /** getAllCourses: the stored courses, all of them or only those with the given status. */
    method GetAllCourses(status: Option<Status>) returns (courses: map<int, Course>)
      ensures forall id :: id in courses <==> id in store && (status.None? || store[id].status == status.value)
      ensures forall id :: id in courses ==> courses[id] == store[id]
    {
      courses := map id | id in store && (status.None? || store[id].status == status.value) :: store[id];
    }

    /** getCourseById: the stored course, or None when there is none under `id`. */
    method GetCourseById(id: int) returns (course: Option<Course>)
      ensures course.Some? <==> id in store
      ensures course.Some? ==> course.value == store[id]
    {
      if id in store {
        course := Some(store[id]);
      } else {
        course := None;
      }
    }

    /** createCourse: saves a new draft under an id the repository picks among the free ones. */
    method CreateCourse(title: Option<string>, description: Option<string>, duration: Option<int>)
      returns (id: int, course: Course)
      modifies this
      ensures id !in old(store)
      ensures Transition(Ok(course), store) == CreateStep(old(store), id, title, description, duration)
      ensures old(PublicationTimesConsistent()) ==> PublicationTimesConsistent()
    {
      course := NewCourse(title, description, duration);
      FreshIdExists(store.Keys);
      id :| id !in store;
      store := store[id := course];
    }

    /** updateCourse: sets each supplied field of a course that is not archived. */
    method UpdateCourse(id: int, title: Option<string>, description: Option<string>, duration: Option<int>)
      returns (r: Outcome)
      modifies this
      ensures Transition(r, store) == UpdateStep(old(store), id, title, description, duration)
      ensures old(PublicationTimesConsistent()) ==> PublicationTimesConsistent()
    {
      if id !in store {
        return NotFound;
      }
      var course := store[id];
      if !CanBeEdited(course) {
        return InvalidState;
      }
      if title.Some? {
        course := course.(title := title);
      }
      if description.Some? {
        course := course.(description := description);
      }
      if duration.Some? {
        course := course.(duration := duration);
      }
      store := store[id := course];
      r := Ok(course);
    }

    /** deleteCourse: removes the course under `id`, if there is one. */
    method DeleteCourse(id: int)
      modifies this
      ensures store == DeleteStep(old(store), id)
      ensures old(PublicationTimesConsistent()) ==> PublicationTimesConsistent()
    {
      store := store - {id};
    }

    /** publishCourse at time `now`: checks the course, then marks it PUBLISHED. */
    method PublishCourse(id: int, now: nat) returns (r: Outcome)
      modifies this
      ensures Transition(r, store) == PublishStep(old(store), id, now)
      ensures old(PublicationTimesConsistent()) ==> PublicationTimesConsistent()
    {
      if id !in store {
        return NotFound;
      }
      var course := store[id];
      if PublicationRejection(course).Some? {
        return InvalidState;
      }
      course := Published(course, now);
      store := store[id := course];
      r := Ok(course);
    }

    /** archiveCourse: marks an existing course ARCHIVED, whatever its status. */
    method ArchiveCourse(id: int) returns (r: Outcome)
      modifies this
      ensures Transition(r, store) == ArchiveStep(old(store), id)
      ensures old(PublicationTimesConsistent()) ==> PublicationTimesConsistent()
    {
      if id !in store {
        return NotFound;
      }
      var course := store[id];
      course := course.(status := ARCHIVED);
      store := store[id := course];
      r := Ok(course);
    }
  }
}
