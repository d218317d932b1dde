/** Data access for `comments`. */
module CrudComment {
  import opened Models
  import opened Store
  import opened Transitions

  /** Inserts one comment whose content and feedback come from the payload and whose author
      is `userId`. Nothing checks that the feedback exists, and no other table changes. */
  method CreateComment(db: Database, comment: CommentCreate, userId: int) returns (c: Comment)
    requires db.Valid()
    modifies db
    ensures db.Valid()
    ensures c == Comment(old(db.nextId), comment.content, old(db.clock) + 1, comment.feedbackId, userId)
    ensures c.id !in old(db.comments)
    ensures db.State() == old(db.State()).(comments := old(db.comments)[c.id := c], nextId := c.id + 1, clock := old(db.clock) + 1)
    ensures old(db.Consistent()) && comment.feedbackId in db.feedback && userId in db.users ==> db.Consistent()
    ensures db.FlagsOneWay()
  {
    c := Comment(db.nextId, comment.content, db.clock + 1, comment.feedbackId, userId);
    InsertComment(db.State(), c);
    db.comments := db.comments[c.id := c];
    db.nextId := db.nextId + 1;
    db.clock := db.clock + 1;
  }
}
