/** Data access for `feedback`: insertion, the three queries, the partial update, the
    acknowledgement flag, and the delete cascade the relationships declare. */
module CrudFeedback {
  import opened Results
  import opened Models
  import opened Query
  import opened Store
  import opened Transitions

  /** Inserts one row carrying the payload's fields plus `managerId`, not yet acknowledged,
      created and updated at the new clock reading. */
  method CreateFeedback(db: Database, input: FeedbackCreate, managerId: int) returns (f: Feedback)
    requires db.Valid()
    modifies db
    ensures db.Valid()
    ensures f.id == old(db.nextId) && f.id !in old(db.feedback)
    ensures f.employeeId == input.employeeId && f.managerId == managerId
    ensures f.strengths == input.strengths && f.areasForImprovement == input.areasForImprovement
    ensures f.sentiment == Some(input.sentiment)
    ensures !f.acknowledged && f.createdAt == f.updatedAt == old(db.clock) + 1
    ensures db.State() == old(db.State()).(feedback := old(db.feedback)[f.id := f], nextId := f.id + 1, clock := old(db.clock) + 1)
    ensures old(db.Consistent()) && old(db.ManagesTeamOf(managerId, input.employeeId)) ==> db.Consistent()
    ensures db.FlagsOneWay()
  {
    f := Feedback(db.nextId, input.employeeId, managerId, input.strengths, input.areasForImprovement,
                  Some(input.sentiment), false, db.clock + 1, db.clock + 1);
    InsertFeedback(db.State(), f);
    db.clock := db.clock + 1;
    db.feedback := db.feedback[f.id := f];
    db.nextId := db.nextId + 1;
  }

  /** Exactly the rows whose employee is `employeeId`. */
  function GetFeedbackByEmployee(db: Database, employeeId: int): (r: seq<Feedback>)
    reads db
    requires db.Valid()
    ensures forall f :: f in r <==> f.id in db.feedback && db.feedback[f.id] == f && f.employeeId == employeeId
    ensures forall i, j :: 0 <= i < j < |r| ==> r[i].id < r[j].id
  {
    Where(db.feedback, (f: Feedback) => f.id, (f: Feedback) => f.employeeId == employeeId, db.nextId)
  }

  /** Exactly the rows whose manager is `managerId`. */
  function GetFeedbackByManager(db: Database, managerId: int): (r: seq<Feedback>)
    reads db
    requires db.Valid()
    ensures forall f :: f in r <==> f.id in db.feedback && db.feedback[f.id] == f && f.managerId == managerId
    ensures forall i, j :: 0 <= i < j < |r| ==> r[i].id < r[j].id
  {
    Where(db.feedback, (f: Feedback) => f.id, (f: Feedback) => f.managerId == managerId, db.nextId)
  }

  /** The row with primary key `feedbackId`, or None. */
  function GetFeedback(db: Database, feedbackId: int): (r: Option<Feedback>)
    reads db
    requires db.Valid()
    ensures r.Some? <==> feedbackId in db.feedback
    ensures r.Some? ==> r.value == db.feedback[feedbackId] && r.value.id == feedbackId
  {
    if feedbackId in db.feedback then Some(db.feedback[feedbackId]) else None
  }

  /** Writes the fields set in `update` into the loaded row; `updated_at` is refreshed only
      when a column really changed. Every other row and table is unchanged. */
  method UpdateFeedback(db: Database, feedbackId: int, update: FeedbackUpdate) returns (f: Feedback)
    requires db.Valid() && feedbackId in db.feedback
    modifies db
    ensures db.Valid()
    ensures var before := old(db.feedback)[feedbackId];
            var changed := ApplyUpdate(before, update) != before;
            && f == Flush(before, ApplyUpdate(before, update), old(db.clock) + 1)
            && db.State() == old(db.State()).(feedback := old(db.feedback)[feedbackId := f],
                                              clock := if changed then old(db.clock) + 1 else old(db.clock))
    ensures old(db.Consistent()) ==> db.Consistent()
    ensures db.FlagsOneWay()
  {
    var before := db.feedback[feedbackId];
    var after := ApplyUpdate(before, update);
    if after != before {
      f := after.(updatedAt := db.clock + 1);
      ReplaceFeedback(db.State(), f, db.clock + 1);
      db.clock := db.clock + 1;
      db.feedback := db.feedback[feedbackId := f];
    } else {
      f := before;
    }
  }

  /** Sets `acknowledged`; a row that was already acknowledged is left exactly as it was,
      otherwise only `acknowledged` and `updated_at` change. */
  method AcknowledgeFeedback(db: Database, feedbackId: int) returns (f: Feedback)
    requires db.Valid() && feedbackId in db.feedback
    modifies db
    ensures db.Valid()
    ensures f.acknowledged
    ensures var before := old(db.feedback)[feedbackId];
            && f == Flush(before, before.(acknowledged := true), old(db.clock) + 1)
            && db.State() == old(db.State()).(feedback := old(db.feedback)[feedbackId := f],
                                              clock := if before.acknowledged then old(db.clock) else old(db.clock) + 1)
    ensures old(db.feedback)[feedbackId].acknowledged ==> unchanged(db)
    ensures old(db.Consistent()) ==> db.Consistent()
    ensures db.FlagsOneWay()
  {
    var before := db.feedback[feedbackId];
    if !before.acknowledged {
      f := before.(acknowledged := true, updatedAt := db.clock + 1);
      ReplaceFeedback(db.State(), f, db.clock + 1);
      db.clock := db.clock + 1;
      db.feedback := db.feedback[feedbackId := f];
    } else {
      f := before;
    }
  }

  /** Deleting a row cascades: its comments and its tag associations go with it, while the
      tags themselves and every other table stay. */
  method DeleteFeedback(db: Database, feedbackId: int)
    requires db.Valid() && feedbackId in db.feedback
    modifies db
    ensures db.Valid()
    ensures db.State() == old(db.State()).(feedback := old(db.feedback) - {feedbackId},
                                          comments := CommentsNotOn(old(db.comments), feedbackId),
                                          feedbackTags := PairsNotOn(old(db.feedbackTags), feedbackId))
    ensures old(db.Consistent()) ==> db.Consistent()
    ensures db.FlagsOneWay()
  {
    RemoveFeedback(db.State(), feedbackId);
    db.comments := CommentsNotOn(db.comments, feedbackId);
    db.feedbackTags := PairsNotOn(db.feedbackTags, feedbackId);
    db.feedback := db.feedback - {feedbackId};
  }
}
