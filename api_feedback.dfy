/** The `/feedback` endpoints. The caller is the authenticated user the dependency resolved;
    the manager-only gate is a precondition where the route has one. */
module FeedbackApi {
  import opened Results
  import opened Models
  import opened Store
  import opened Schemas
  import CrudUser
  import CrudFeedback
  import CrudComment
  import CrudNotification

  const EmployeeNotFound := "Employee not found."
  const NotInYourTeam := "Can only give feedback to employees in your team."
  const FeedbackNotFound := "Feedback not found"
  const CannotUpdate := "Not authorized to update this feedback"
  const CannotAcknowledge := "Not authorized to acknowledge this feedback"
  const CannotComment := "Not authorized to comment on this feedback"
  const NothingToExport := "No feedback found to export."

  /** The feedback a caller may list: a manager the feedback they gave, anyone else the
      feedback they received. */
  predicate Visible(caller: User, f: Feedback)
  {
    if caller.role == Manager then f.managerId == caller.id else f.employeeId == caller.id
  }

  /** The text of the notification sent when `author` comments. */
  function CommentNotice(author: User): (r: string)
    ensures |r| == |author.fullName| + |" commented on your feedback."|
    ensures r[..|author.fullName|] == author.fullName
    ensures r[|author.fullName|..] == " commented on your feedback."
  {
    author.fullName + " commented on your feedback."
  }

  /** `POST /feedback`: 404 when the employee does not exist, 403 unless the caller manages the
      employee's team; either way nothing is written. Otherwise exactly one new row whose
      manager is the caller, unacknowledged, returned with no comments and no tags. */
  method CreateFeedback(db: Database, caller: User, feedbackIn: FeedbackCreate) returns (r: Response<FeedbackOut>)
    requires db.Consistent() && db.IsCaller(caller) && caller.role == Manager
    modifies db
    ensures db.Consistent()
    ensures r.Err? ==> unchanged(db)
    ensures r.Err? ==> r == Err(404, EmployeeNotFound) || r == Err(403, NotInYourTeam)
    ensures feedbackIn.employeeId !in old(db.users) <==> r == Err(404, EmployeeNotFound)
    ensures feedbackIn.employeeId in old(db.users) && !old(db.ManagesTeamOf(caller.id, feedbackIn.employeeId))
            <==> r == Err(403, NotInYourTeam)
    ensures r.Ok? ==>
      var f := Feedback(old(db.nextId), feedbackIn.employeeId, caller.id, feedbackIn.strengths,
                        feedbackIn.areasForImprovement, Some(feedbackIn.sentiment), false,
                        old(db.clock) + 1, old(db.clock) + 1);
      && f.id !in old(db.feedback)
      && db.State() == old(db.State()).(feedback := old(db.feedback)[f.id := f], nextId := f.id + 1, clock := f.createdAt)
      && r.status == 201
      && r.body == PresentFeedback(db.State(), f)
      && r.body.comments == [] && r.body.tags == []
    ensures db.FlagsOneWay()
  {
    var employee := CrudUser.GetUser(db, feedbackIn.employeeId);
    if employee.None? {
      return Err(404, EmployeeNotFound);
    }
    if employee.value.teamId.None? || !db.ManagesTeamOf(caller.id, employee.value.id) {
      return Err(403, NotInYourTeam);
    }
    ghost var s0 := db.State();
    var f := CrudFeedback.CreateFeedback(db, feedbackIn, caller.id);
    FreshFeedbackIsBare(s0, f);
    r := Ok(201, PresentFeedback(db.State(), f));
  }

  /** `GET /feedback`: exactly the stored feedback visible to the caller, in key order. */
  function ReadFeedback(db: Database, caller: User): (r: seq<Feedback>)
    reads db
    requires db.Valid()
    ensures forall f :: f in r <==> f.id in db.feedback && db.feedback[f.id] == f && Visible(caller, f)
    ensures forall i, j :: 0 <= i < j < |r| ==> r[i].id < r[j].id
  {
    if caller.role == Manager then CrudFeedback.GetFeedbackByManager(db, caller.id)
    else CrudFeedback.GetFeedbackByEmployee(db, caller.id)
  }

  /** In a consistent store, everything a manager lists is about an employee of their team. */
  lemma ManagerSeesOwnTeam(db: Database, caller: User, f: Feedback)
    requires db.Consistent() && caller.role == Manager && f in ReadFeedback(db, caller)
    ensures db.ManagesTeamOf(caller.id, f.employeeId)
  {
    assert db.State().FeedbackWithinTeam();
    assert f.id in db.feedback;
  }

  /** `GET /feedback/export/pdf`: 404 when the caller has no visible feedback, otherwise the
      very list `GET /feedback` returns is handed to the renderer. */
  function ExportFeedbackAsPdf(db: Database, caller: User): (r: Response<seq<Feedback>>)
    reads db
    requires db.Valid()
    ensures r.Err? <==> forall k :: k in db.feedback ==> !Visible(caller, db.feedback[k])
    ensures r.Err? ==> r == Err(404, NothingToExport)
    ensures r.Ok? ==> r == Ok(200, ReadFeedback(db, caller)) && |r.body| > 0
  {
    var feedbackList := ReadFeedback(db, caller);
    if feedbackList == [] then
      assert forall k :: k in db.feedback ==> db.feedback[k].id == k;
      Err(404, NothingToExport)
    else
      assert feedbackList[0] in feedbackList;
      Ok(200, feedbackList)
  }

  /** `PUT /feedback/{feedback_id}`: 404 for an unknown id, 403 unless the caller gave the
      feedback, with nothing written; otherwise only the fields the payload sets change. */
  method UpdateFeedback(db: Database, caller: User, feedbackId: int, feedbackIn: FeedbackUpdate) returns (r: Response<FeedbackOut>)
    requires db.Consistent() && db.IsCaller(caller) && caller.role == Manager
    modifies db
    ensures db.Consistent()
    ensures r.Err? ==> unchanged(db)
    ensures r.Err? ==> r == Err(404, FeedbackNotFound) || r == Err(403, CannotUpdate)
    ensures feedbackId !in old(db.feedback) <==> r == Err(404, FeedbackNotFound)
    ensures feedbackId in old(db.feedback) && old(db.feedback)[feedbackId].managerId != caller.id
            <==> r == Err(403, CannotUpdate)
    ensures r.Ok? ==>
      var before := old(db.feedback)[feedbackId];
      var f := Flush(before, ApplyUpdate(before, feedbackIn), old(db.clock) + 1);
      && db.State() == old(db.State()).(feedback := old(db.feedback)[feedbackId := f],
                                        clock := if f == before then old(db.clock) else old(db.clock) + 1)
      && r == Ok(200, PresentFeedback(db.State(), f))
    ensures db.FlagsOneWay()
  {
    var feedback := CrudFeedback.GetFeedback(db, feedbackId);
    if feedback.None? {
      return Err(404, FeedbackNotFound);
    }
    if feedback.value.managerId != caller.id {
      return Err(403, CannotUpdate);
    }
    PartiesDiffer(db, feedbackId);
    var f := CrudFeedback.UpdateFeedback(db, feedbackId, feedbackIn);
    r := Ok(200, PresentFeedback(db.State(), f));
  }

  /** `PATCH /feedback/{feedback_id}/acknowledge`: 404 for an unknown id, 403 unless the caller
      received the feedback (so a manager never can), with nothing written; otherwise the row
      is acknowledged, a second time changing nothing at all. */
  method AcknowledgeFeedback(db: Database, caller: User, feedbackId: int) returns (r: Response<FeedbackOut>)
    requires db.Consistent() && db.IsCaller(caller)
    modifies db
    ensures db.Consistent()
    ensures r.Err? ==> unchanged(db)
    ensures r.Err? ==> r == Err(404, FeedbackNotFound) || r == Err(403, CannotAcknowledge)
    ensures feedbackId !in old(db.feedback) <==> r == Err(404, FeedbackNotFound)
    ensures feedbackId in old(db.feedback) && old(db.feedback)[feedbackId].employeeId != caller.id
            <==> r == Err(403, CannotAcknowledge)
    ensures caller.role == Manager ==> r.Err?
    ensures r.Ok? ==>
      var before := old(db.feedback)[feedbackId];
      var f := Flush(before, before.(acknowledged := true), old(db.clock) + 1);
      && f.acknowledged
      && db.State() == old(db.State()).(feedback := old(db.feedback)[feedbackId := f],
                                        clock := if before.acknowledged then old(db.clock) else old(db.clock) + 1)
      && r == Ok(200, PresentFeedback(db.State(), f))
    ensures r.Ok? && old(db.feedback)[feedbackId].acknowledged ==> unchanged(db)
    ensures db.FlagsOneWay()
  {
    var feedback := CrudFeedback.GetFeedback(db, feedbackId);
    if feedback.None? {
      return Err(404, FeedbackNotFound);
    }
    if feedback.value.employeeId != caller.id {
      return Err(403, CannotAcknowledge);
    }
    PartiesDiffer(db, feedbackId);
    var f := CrudFeedback.AcknowledgeFeedback(db, feedbackId);
    r := Ok(200, PresentFeedback(db.State(), f));
  }

  /** The party of `fb` that did not write the comment. */
  function OtherParty(fb: Feedback, author: User): int
  {
    if author.id == fb.employeeId then fb.managerId else fb.employeeId
  }

  /** The writes of a permitted comment: the comment row, then the notification. */
  method PostComment(db: Database, fb: Feedback, author: User, comment: CommentCreate) returns (c: Comment)
    requires db.Consistent() && db.IsCaller(author)
    requires fb.id in db.feedback && db.feedback[fb.id] == fb && comment.feedbackId == fb.id
    requires author.id == fb.employeeId || author.id == fb.managerId
    modifies db
    ensures db.Consistent()
    ensures c == Comment(old(db.nextId), comment.content, old(db.clock) + 1, fb.id, author.id)
    ensures var n := Notification(old(db.nextId) + 1, OtherParty(fb, author), CommentNotice(author), false, old(db.clock) + 2);
      && OtherParty(fb, author) != author.id
      && db.State() == old(db.State()).(comments := old(db.comments)[c.id := c],
                                        notifications := old(db.notifications)[n.id := n],
                                        nextId := n.id + 1, clock := n.createdAt)
    ensures db.FlagsOneWay()
  {
    PartiesDiffer(db, fb.id);
    c := CrudComment.CreateComment(db, comment, author.id);
    var recipient := OtherParty(fb, author);
    var notice := CrudNotification.CreateNotification(db, recipient, CommentNotice(author));
  }

  /** `POST /feedback/{feedback_id}/comments`: 404 for an unknown id, 403 unless the caller is
      the feedback's manager or employee, with nothing written. Otherwise one comment on this
      feedback (whatever the payload named) by the caller, and one unread notification to the
      other party — the manager when the employee commented, the employee otherwise. */
  method CreateCommentOnFeedback(db: Database, caller: User, feedbackId: int, commentIn: CommentCreate)
    returns (r: Response<CommentOut>)
    requires db.Consistent() && db.IsCaller(caller)
    modifies db
    ensures db.Consistent()
    ensures r.Err? ==> unchanged(db)
    ensures r.Err? ==> r == Err(404, FeedbackNotFound) || r == Err(403, CannotComment)
    ensures feedbackId !in old(db.feedback) <==> r == Err(404, FeedbackNotFound)
    ensures feedbackId in old(db.feedback) && caller.id != old(db.feedback)[feedbackId].managerId
            && caller.id != old(db.feedback)[feedbackId].employeeId
            <==> r == Err(403, CannotComment)
    ensures r.Ok? ==>
      var fb := old(db.feedback)[feedbackId];
      var c := Comment(old(db.nextId), commentIn.content, old(db.clock) + 1, feedbackId, caller.id);
      var n := Notification(old(db.nextId) + 1, OtherParty(fb, caller), CommentNotice(caller), false, old(db.clock) + 2);
      && OtherParty(fb, caller) != caller.id
      && db.State() == old(db.State()).(comments := old(db.comments)[c.id := c],
                                        notifications := old(db.notifications)[n.id := n],
                                        nextId := n.id + 1, clock := n.createdAt)
      && r == Ok(200, CommentOut(c.id, c.content, c.createdAt, Public(caller)))
    ensures db.FlagsOneWay()
  {
    var feedback := CrudFeedback.GetFeedback(db, feedbackId);
    if feedback.None? {
      return Err(404, FeedbackNotFound);
    }
    var fb := feedback.value;
    if !(fb.managerId == caller.id || fb.employeeId == caller.id) {
      return Err(403, CannotComment);
    }
    var payload := commentIn.(feedbackId := feedbackId);
    var comment := PostComment(db, fb, caller, payload);
    r := Ok(200, CommentOut(comment.id, comment.content, comment.createdAt, Public(caller)));
  }
}
