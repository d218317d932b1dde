/** The rows of the relational store (the ORM models) and the request payloads that
    create or change them (the input schemas). Relationships are id references. */
module Models {
  import opened Results

  /** The two roles a user can hold; every user has exactly one. */
  datatype Role = Manager | Employee

  /** The three tones a piece of feedback can be classified as. */
  datatype Sentiment = Positive | Neutral | Negative

  /** A row of `users`. `teamId == None` means the user belongs to no team. */
  datatype User = User(
    id: int,
    email: string,
    fullName: string,
    hashedPassword: string,
    role: Role,
    teamId: Option<int>)

  /** A row of `teams`. */
  datatype Team = Team(id: int, name: string, managerId: int)

  /** A row of `feedback`. The three text/enum columns are nullable in the table;
      timestamps are readings of the store's abstract clock. */
  datatype Feedback = Feedback(
    id: int,
    employeeId: int,
    managerId: int,
    strengths: Option<string>,
    areasForImprovement: Option<string>,
    sentiment: Option<Sentiment>,
    acknowledged: bool,
    createdAt: nat,
    updatedAt: nat)

  /** A row of `comments`. */
  datatype Comment = Comment(id: int, content: string, createdAt: nat, feedbackId: int, userId: int)

  /** A row of `tags`. */
  datatype Tag = Tag(id: int, name: string)

  /** A row of `notifications`. */
  datatype Notification = Notification(id: int, userId: int, message: string, isRead: bool, createdAt: nat)

  /** Registration payload, as it reaches the handler once validated: `email` is the address
      in its normalised form. The plaintext password never reaches a row. */
  datatype UserCreate = UserCreate(email: string, fullName: string, role: Role, password: string)

  /** Team creation payload. */
  datatype TeamCreate = TeamCreate(name: string)

  /** Feedback creation payload: `sentiment` and `employeeId` are required, the two texts
      default to None. There is no manager, acknowledgement or tag field. */
  datatype FeedbackCreate = FeedbackCreate(
    employeeId: int,
    sentiment: Sentiment,
    strengths: Option<string> := None,
    areasForImprovement: Option<string> := None)

  /** Feedback update payload: only the two texts and the sentiment exist; the sentiment is
      required, so it is always among the fields an update writes. */
  datatype FeedbackUpdate = FeedbackUpdate(
    sentiment: Sentiment,
    strengths: Patch<Option<string>> := Unset,
    areasForImprovement: Patch<Option<string>> := Unset)

  /** Comment creation payload. */
  datatype CommentCreate = CommentCreate(content: string, feedbackId: int)

  /** The columns of `f` after the `setattr` loop over the fields set in `u`. */
  function ApplyUpdate(f: Feedback, u: FeedbackUpdate): (g: Feedback)
    ensures g.id == f.id && g.employeeId == f.employeeId && g.managerId == f.managerId
    ensures g.acknowledged == f.acknowledged
    ensures g.createdAt == f.createdAt && g.updatedAt == f.updatedAt
    ensures g.sentiment == Some(u.sentiment)
    ensures u.strengths.Unset? ==> g.strengths == f.strengths
    ensures u.strengths.Set? ==> g.strengths == u.strengths.value
    ensures u.areasForImprovement.Unset? ==> g.areasForImprovement == f.areasForImprovement
    ensures u.areasForImprovement.Set? ==> g.areasForImprovement == u.areasForImprovement.value
  {
    f.(strengths := u.strengths.Over(f.strengths),
       areasForImprovement := u.areasForImprovement.Over(f.areasForImprovement),
       sentiment := Some(u.sentiment))
  }

  /** Applying the same update twice gives the same row as applying it once. */
  lemma ApplyUpdateIdempotent(f: Feedback, u: FeedbackUpdate)
    ensures ApplyUpdate(ApplyUpdate(f, u), u) == ApplyUpdate(f, u)
  {
  }

  /** The row a flush writes when `before` was loaded and `after` is its modified state:
      `updated_at` takes the commit time `now` only when some column really changed
      (an unchanged object issues no UPDATE, so `onupdate` does not fire). */
  function Flush(before: Feedback, after: Feedback, now: nat): (r: Feedback)
    ensures r.(updatedAt := after.updatedAt) == after
    ensures after == before ==> r == before
    ensures after != before ==> r.updatedAt == now
  {
    if after == before then before else after.(updatedAt := now)
  }
}
