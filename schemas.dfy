/** Response shapes: what a handler's `response_model` keeps of the stored rows. Related rows
    (a feedback's employee, manager, comments and tags; a team's manager and members) are
    looked up through the id references of the store. */
module Schemas {
  import opened Results
  import opened Models
  import opened Query
  import opened Store
  import Transitions

  /** The public user shape: every column except the password hash. */
  datatype UserOut = UserOut(id: int, email: string, fullName: string, role: Role, teamId: Option<int>)

  datatype CommentOut = CommentOut(id: int, content: string, createdAt: nat, user: UserOut)

  datatype FeedbackOut = FeedbackOut(
    id: int,
    employee: UserOut,
    manager: UserOut,
    strengths: Option<string>,
    areasForImprovement: Option<string>,
    sentiment: Option<Sentiment>,
    acknowledged: bool,
    createdAt: nat,
    updatedAt: nat,
    comments: seq<CommentOut>,
    tags: seq<Tag>)

  datatype TeamOut = TeamOut(id: int, name: string, manager: UserOut, members: seq<UserOut>)

  datatype TeamPublic = TeamPublic(id: int, name: string)

  datatype NotificationOut = NotificationOut(id: int, message: string, isRead: bool, createdAt: nat)

  datatype Token = Token(accessToken: string, tokenType: string)

  function Public(u: User): UserOut
  {
    UserOut(u.id, u.email, u.fullName, u.role, u.teamId)
  }

  /** Two users look the same in a response exactly when they differ at most in the
      password hash: the shape drops that column and nothing else. */
  lemma PublicForgetsOnlyPassword(u: User, v: User)
    ensures Public(u) == Public(v) <==> u.(hashedPassword := v.hashedPassword) == v
  {
  }

  function PublicAll(us: seq<User>): (r: seq<UserOut>)
    ensures |r| == |us|
    ensures forall i :: 0 <= i < |us| ==> r[i] == Public(us[i])
  {
    if us == [] then [] else [Public(us[0])] + PublicAll(us[1..])
  }

  /** The comments on feedback `feedbackId`, in key order. */
  function CommentsOf(s: Snapshot, feedbackId: int): (r: seq<Comment>)
    requires CommentsKeyed(s.comments, s.nextId)
    ensures forall c :: c in r <==> c.id in s.comments && s.comments[c.id] == c && c.feedbackId == feedbackId
    ensures forall i, j :: 0 <= i < j < |r| ==> r[i].id < r[j].id
    ensures |r| == 0 <==> forall k :: k in s.comments ==> s.comments[k].feedbackId != feedbackId
  {
    Where(s.comments, (c: Comment) => c.id, (c: Comment) => c.feedbackId == feedbackId, s.nextId)
  }

  /** The tags attached to feedback `feedbackId` through the association table, in key order. */
  function TagsOf(s: Snapshot, feedbackId: int): (r: seq<Tag>)
    requires TagsKeyed(s.tags, s.nextId)
    ensures forall t :: t in r <==> t.id in s.tags && s.tags[t.id] == t && (feedbackId, t.id) in s.feedbackTags
    ensures forall i, j :: 0 <= i < j < |r| ==> r[i].id < r[j].id
    ensures |r| == 0 <==> forall k :: k in s.tags ==> (feedbackId, k) !in s.feedbackTags
  {
    var pairs := s.feedbackTags;
    Where(s.tags, (t: Tag) => t.id, (t: Tag) => (feedbackId, t.id) in pairs, s.nextId)
  }

  /** The `Comment` response for one comment: its columns and its author's public shape. */
  function PresentComment(users: map<int, User>, c: Comment): (o: CommentOut)
    requires c.userId in users
    ensures o.id == c.id && o.content == c.content && o.createdAt == c.createdAt && o.user == Public(users[c.userId])
  {
    CommentOut(c.id, c.content, c.createdAt, Public(users[c.userId]))
  }

  function PresentComments(users: map<int, User>, cs: seq<Comment>): (r: seq<CommentOut>)
    requires forall c :: c in cs ==> c.userId in users
    ensures |r| == |cs|
    ensures forall i :: 0 <= i < |cs| ==> r[i] == PresentComment(users, cs[i])
  {
    if cs == [] then []
    else [PresentComment(users, cs[0])] + PresentComments(users, cs[1..])
  }

  /** Presenting the comments found on a feedback row gives an entry for each stored comment on
      that row and no other entry. */
  lemma PresentedComments(comments: map<int, Comment>, users: map<int, User>, feedbackId: int, cs: seq<Comment>)
    requires forall k :: k in comments ==> comments[k].id == k
    requires AuthorsExist(comments, users)
    requires forall c :: c in cs <==> c.id in comments && comments[c.id] == c && c.feedbackId == feedbackId
    ensures forall c :: c in cs ==> c.userId in users
    ensures forall k :: k in comments && comments[k].feedbackId == feedbackId
              ==> PresentComment(users, comments[k]) in PresentComments(users, cs)
    ensures forall o :: o in PresentComments(users, cs)
              ==> o.id in comments && comments[o.id].feedbackId == feedbackId && o == PresentComment(users, comments[o.id])
  {
    var os := PresentComments(users, cs);
    forall k | k in comments && comments[k].feedbackId == feedbackId
      ensures PresentComment(users, comments[k]) in os
    {
      assert comments[k] in cs;
      var i :| 0 <= i < |cs| && cs[i] == comments[k];
      assert os[i] == PresentComment(users, comments[k]);
    }
    forall o | o in os
      ensures o.id in comments && comments[o.id].feedbackId == feedbackId && o == PresentComment(users, comments[o.id])
    {
      var i :| 0 <= i < |os| && os[i] == o;
      assert cs[i] in cs;
    }
  }

  /** The `Feedback` response: the row's columns, the public shapes of its two parties, an entry
      for exactly the stored comments on it, and exactly the tags associated with it, each of
      them once, in key order. */
  function PresentFeedback(s: Snapshot, f: Feedback): (o: FeedbackOut)
    requires CommentsKeyed(s.comments, s.nextId) && TagsKeyed(s.tags, s.nextId) && AuthorsExist(s.comments, s.users)
    requires f.employeeId in s.users && f.managerId in s.users
    ensures o.id == f.id && o.strengths == f.strengths && o.areasForImprovement == f.areasForImprovement
    ensures o.sentiment == f.sentiment && o.acknowledged == f.acknowledged
    ensures o.createdAt == f.createdAt && o.updatedAt == f.updatedAt
    ensures o.employee == Public(s.users[f.employeeId]) && o.manager == Public(s.users[f.managerId])
    ensures forall k :: k in s.comments && s.comments[k].feedbackId == f.id
              ==> PresentComment(s.users, s.comments[k]) in o.comments
    ensures forall c :: c in o.comments
              ==> c.id in s.comments && s.comments[c.id].feedbackId == f.id && c == PresentComment(s.users, s.comments[c.id])
    ensures forall t :: t in o.tags <==> t.id in s.tags && s.tags[t.id] == t && (f.id, t.id) in s.feedbackTags
    ensures forall i, j :: 0 <= i < j < |o.comments| ==> o.comments[i].id < o.comments[j].id
    ensures forall i, j :: 0 <= i < j < |o.tags| ==> o.tags[i].id < o.tags[j].id
  {
    var comments := CommentsOf(s, f.id);
    PresentedComments(s.comments, s.users, f.id, comments);
    FeedbackOut(f.id, Public(s.users[f.employeeId]), Public(s.users[f.managerId]), f.strengths,
      f.areasForImprovement, f.sentiment, f.acknowledged, f.createdAt, f.updatedAt,
      PresentComments(s.users, comments), TagsOf(s, f.id))
  }

  /** Just-created feedback is returned with the schema's default empty `comments` and `tags`:
      nothing in a linked store can refer to a key that was never allocated. */
  lemma FreshFeedbackIsBare(s: Snapshot, f: Feedback)
    requires s.Consistent() && f.id == s.nextId && f.createdAt == f.updatedAt == s.clock + 1
    requires s.ManagesTeamOf(f.managerId, f.employeeId)
    ensures var s' := s.(feedback := s.feedback[f.id := f], nextId := f.id + 1, clock := s.clock + 1);
      s'.Valid() && s'.Linked() && f.employeeId in s'.users && f.managerId in s'.users
      && PresentFeedback(s', f).comments == [] && PresentFeedback(s', f).tags == []
  {
    var s' := s.(feedback := s.feedback[f.id := f], nextId := f.id + 1, clock := s.clock + 1);
    Transitions.InsertFeedback(s, f);
    assert s'.Consistent();
    assert s.Linked();
    var t := s.users[f.employeeId].teamId.value;
    assert t in s.teams && s.teams[t].managerId == f.managerId;
    assert s.teams[t].managerId in s.users;
    assert forall k :: k in s'.comments ==> s'.comments[k].feedbackId != f.id;
    assert forall p :: p in s'.feedbackTags ==> p.0 != f.id;
    assert |CommentsOf(s', f.id)| == 0;
    assert |TagsOf(s', f.id)| == 0;
  }

  /** The members of team `teamId`, in key order. */
  function MembersOf(s: Snapshot, teamId: int): (r: seq<User>)
    requires s.Valid()
    ensures forall u :: u in r <==> u.id in s.users && s.users[u.id] == u && u.teamId == Some(teamId)
    ensures forall i, j :: 0 <= i < j < |r| ==> r[i].id < r[j].id
  {
    Where(s.users, (u: User) => u.id, (u: User) => u.teamId == Some(teamId), s.nextId)
  }

  /** The public shapes of the members found for a team name exactly those members: a stored
      user's shape is present iff the user is in the team, and every entry is such a shape. */
  lemma PublicMembers(users: map<int, User>, teamId: int, members: seq<User>)
    requires forall k :: k in users ==> users[k].id == k
    requires forall u :: u in members <==> u.id in users && users[u.id] == u && u.teamId == Some(teamId)
    ensures var ms := PublicAll(members);
      && (forall k :: k in users && users[k].teamId == Some(teamId) <==> k in users && Public(users[k]) in ms)
      && (forall m :: m in ms ==> exists k :: k in users && users[k].teamId == Some(teamId) && m == Public(users[k]))
  {
    var ms := PublicAll(members);
    forall k | k in users && Public(users[k]) in ms
      ensures users[k].teamId == Some(teamId)
    {
      var i :| 0 <= i < |ms| && ms[i] == Public(users[k]);
      assert members[i] in members;
    }
    forall k | k in users && users[k].teamId == Some(teamId)
      ensures Public(users[k]) in ms
    {
      assert users[k] in members;
      var i :| 0 <= i < |members| && members[i] == users[k];
      assert ms[i] == Public(users[k]);
    }
    forall m | m in ms
      ensures exists k :: k in users && users[k].teamId == Some(teamId) && m == Public(users[k])
    {
      var i :| 0 <= i < |ms| && ms[i] == m;
      assert members[i] in members;
      assert users[members[i].id] == members[i];
    }
  }

  /** The `Team` response: its manager, and a member entry for exactly the users whose
      `team_id` is this team, each of them once, in key order. */
  function PresentTeam(s: Snapshot, t: Team): (o: TeamOut)
    requires s.Valid() && t.managerId in s.users
    ensures o.id == t.id && o.name == t.name && o.manager == Public(s.users[t.managerId])
    ensures forall k :: k in s.users && s.users[k].teamId == Some(t.id) <==> k in s.users && Public(s.users[k]) in o.members
    ensures forall m :: m in o.members ==> exists k :: k in s.users && s.users[k].teamId == Some(t.id) && m == Public(s.users[k])
    ensures forall i, j :: 0 <= i < j < |o.members| ==> o.members[i].id < o.members[j].id
  {
    var members := MembersOf(s, t.id);
    assert UsersKeyed(s.users, s.nextId);
    PublicMembers(s.users, t.id, members);
    TeamOut(t.id, t.name, Public(s.users[t.managerId]), PublicAll(members))
  }

  function PublicRows(rows: seq<Team>): (r: seq<TeamPublic>)
    ensures |r| == |rows|
    ensures forall i :: 0 <= i < |rows| ==> r[i] == TeamPublic(rows[i].id, rows[i].name)
  {
    if rows == [] then [] else [TeamPublic(rows[0].id, rows[0].name)] + PublicRows(rows[1..])
  }

  /** The `TeamPublic` list: one entry per team, in key order. */
  function PublicTeams(teams: map<int, Team>, bound: int): (r: seq<TeamPublic>)
    requires forall k :: k in teams ==> 1 <= k < bound && teams[k].id == k
    ensures forall t :: t in r <==> t.id in teams && t.name == teams[t.id].name
    ensures forall i, j :: 0 <= i < j < |r| ==> r[i].id < r[j].id
  {
    var rows := Where(teams, (t: Team) => t.id, (t: Team) => true, bound);
    var r := PublicRows(rows);
    r
  }

  /** The `Notification` response: every column except the recipient. */
  function PresentNotification(n: Notification): (o: NotificationOut)
    ensures o.id == n.id && o.message == n.message && o.isRead == n.isRead && o.createdAt == n.createdAt
  {
    NotificationOut(n.id, n.message, n.isRead, n.createdAt)
  }

  /** Two notifications present the same exactly when they differ at most in the recipient:
      the shape drops that column and nothing else. */
  lemma PresentForgetsOnlyRecipient(n: Notification, m: Notification)
    ensures PresentNotification(n) == PresentNotification(m) <==> n.(userId := m.userId) == m
  {
  }
}
