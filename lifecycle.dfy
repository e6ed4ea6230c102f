/**
 * What the lifecycle rules guarantee over single operations and over any
 * sequence of them: an archived course is frozen until deleted, a course
 * never moves back in its lifecycle, and the publication time stays
 * consistent with the status.
 */
module Lifecycle {
  import opened JavaText
  import opened Courses

  /** `after` is `before` moved zero or more steps forward in its lifecycle, never losing its publication time. */
  predicate Progressed(before: Course, after: Course) {
    && Rank(before.status) <= Rank(after.status)
    && (before.publishedAt.Some? ==> after.publishedAt.Some?)
  }

  /** Every operation keeps the publication time consistent with the status of every stored course. */
  lemma StepPreservesConsistency(store: map<int, Course>, op: Op)
    requires Enabled(store, op) && StoreConsistent(store)
    ensures StoreConsistent(Step(store, op))
  {
  }

  /** A consistent repository stays consistent whatever operations run on it. */
  lemma {:induction false} RunPreservesConsistency(store: map<int, Course>, ops: seq<Op>)
    requires Feasible(store, ops) && StoreConsistent(store)
    ensures StoreConsistent(Run(store, ops))
    decreases |ops|
  {
    if ops != [] {
      StepPreservesConsistency(store, ops[0]);
      RunPreservesConsistency(Step(store, ops[0]), ops[1..]);
    }
  }

  /** No operation other than deleting it changes an archived course. */
  lemma StepKeepsArchived(store: map<int, Course>, op: Op, id: int)
    requires Enabled(store, op) && id in store && store[id].status == ARCHIVED && !Deletes(op, id)
    ensures id in Step(store, op) && Step(store, op)[id] == store[id]
  {
    if op.Archive? && op.id == id {
      assert store[id].(status := ARCHIVED) == store[id];
    }
  }

  /**
   * An archived course is never edited, published or un-archived: after any
   * operations that do not delete it, it is stored exactly as it was.
   */
  lemma {:induction false} ArchivedIsFinal(store: map<int, Course>, ops: seq<Op>, id: int)
    requires Feasible(store, ops) && id in store && store[id].status == ARCHIVED
    requires forall i :: 0 <= i < |ops| ==> !Deletes(ops[i], id)
    ensures id in Run(store, ops) && Run(store, ops)[id] == store[id]
    decreases |ops|
  {
    if ops != [] {
      StepKeepsArchived(store, ops[0], id);
      var next := Step(store, ops[0]);
      assert forall i :: 0 <= i < |ops[1..]| ==> !Deletes(ops[1..][i], id) by {
        forall i | 0 <= i < |ops[1..]| ensures !Deletes(ops[1..][i], id) {
          assert ops[1..][i] == ops[i + 1];
        }
      }
      ArchivedIsFinal(next, ops[1..], id);
    }
  }

  /** One operation moves a stored course, unless it deletes it, only forward. */
  lemma StepProgresses(store: map<int, Course>, op: Op, id: int)
    requires Enabled(store, op) && id in store && !Deletes(op, id)
    ensures id in Step(store, op) && Progressed(store[id], Step(store, op)[id])
  {
  }

  /**
   * Over any operations that do not delete it, a course's status never goes
   * back (no return to DRAFT, no way out of ARCHIVED) and a publication time,
   * once set, is never cleared.
   */
  lemma {:induction false} RunProgresses(store: map<int, Course>, ops: seq<Op>, id: int)
    requires Feasible(store, ops) && id in store
    requires forall i :: 0 <= i < |ops| ==> !Deletes(ops[i], id)
    ensures id in Run(store, ops) && Progressed(store[id], Run(store, ops)[id])
    decreases |ops|
  {
    if ops != [] {
      StepProgresses(store, ops[0], id);
      var next := Step(store, ops[0]);
      assert forall i :: 0 <= i < |ops[1..]| ==> !Deletes(ops[1..][i], id) by {
        forall i | 0 <= i < |ops[1..]| ensures !Deletes(ops[1..][i], id) {
          assert ops[1..][i] == ops[i + 1];
        }
      }
      RunProgresses(next, ops[1..], id);
    }
  }

  /** Archiving twice is the same as archiving once, whatever the course's status. */
  lemma ArchiveIsIdempotent(store: map<int, Course>, id: int)
    ensures ArchiveStep(ArchiveStep(store, id).after, id) == ArchiveStep(store, id)
  {
    if id in store {
      var a := store[id].(status := ARCHIVED);
      assert store[id := a][id := a] == store[id := a];
    }
  }

  /** An update that supplies no field saves the course as it was. */
  lemma EmptyUpdateIsNoOp(store: map<int, Course>, id: int)
    requires id in store && store[id].status != ARCHIVED
    ensures UpdateStep(store, id, None, None, None) == Transition(Ok(store[id]), store)
  {
    assert store[id := store[id]] == store;
  }

  /** A published course that still passes the checks can be published again, which refreshes its publication time. */
  lemma RepublishRefreshesTime(store: map<int, Course>, id: int, now: nat)
    requires id in store && store[id].status == PUBLISHED && HasTitle(store[id]) && HasDuration(store[id])
    ensures PublishStep(store, id, now).outcome == Ok(store[id].(publishedAt := Some(now)))
  {
  }

  /**
   * Create "Intro" (empty description, 30 minutes), publish it, archive it,
   * then try to retitle it: publishing and archiving succeed, the edit is refused.
   */
  lemma PublishArchiveEditScenario(store: map<int, Course>, id: int, now: nat)
    requires id !in store
    ensures
      var created := CreateStep(store, id, Some("Intro"), Some(""), Some(30));
      var published := PublishStep(created.after, id, now);
      var archived := ArchiveStep(published.after, id);
      var edited := UpdateStep(archived.after, id, Some("x"), None, None);
      && published.outcome.Ok? && published.outcome.course.status == PUBLISHED
      && archived.outcome.Ok? && archived.outcome.course.status == ARCHIVED
      && edited.outcome == InvalidState && edited.after == archived.after
  {
    assert !IsBlank("Intro") by { assert !Trimmable("Intro"[0]); }
  }

  /** A course created with an empty title and no duration cannot be published. */
  lemma BlankTitleScenario(store: map<int, Course>, id: int, now: nat)
    requires id !in store
    ensures
      var created := CreateStep(store, id, Some(""), None, None);
      var published := PublishStep(created.after, id, now);
      && PublicationRejection(created.outcome.course) == Some(TitleRequired)
      && published.outcome == InvalidState && published.after == created.after
  {
  }
}
